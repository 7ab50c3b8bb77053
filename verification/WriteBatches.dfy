/** Write batches: the operations of one atomic write, kept in their redo format. */
module WriteBatches {

  import opened Common
  import opened Varint

  const TWO32: nat := 0x1_0000_0000

  const FLAG_VALUE: Byte := 0
  const FLAG_DELETION: Byte := 1

  datatype Op =
    | Put(cf: nat, key: Bytes, value: Bytes)
    | Delete(cf: nat, key: Bytes)

  /** The widths of the source's types: column family ids of 32 bits, sizes of 64 bits. */
  ghost predicate Fits(op: Op) {
    op.cf < TWO32 && |op.key| < TWO64 && (op.Put? ==> |op.value| < TWO64)
  }

  // ----- the format

  function Framed(s: Bytes): Bytes {
    Groups(|s|) + s
  }

  /** The part every entry has: column family, flag and key. */
  function Head(cf: nat, flag: Byte, key: Bytes): (bytes: Bytes)
    ensures |bytes| > 0
  {
    Groups(cf) + ([flag] + Framed(key))
  }

  function RedoOf(op: Op): (bytes: Bytes)
    ensures |bytes| > 0
  {
    match op
    case Put(cf, key, value) => Head(cf, FLAG_VALUE, key) + Framed(value)
    case Delete(cf, key) => Head(cf, FLAG_DELETION, key)
  }

  /** The redo format, written out. */
  lemma RedoFormat(op: Op)
    ensures RedoOf(op)
         == Groups(op.cf) + [if op.Put? then 0 else 1] + Groups(|op.key|) + op.key
            + if op.Put? then Groups(|op.value|) + op.value else []
  {
    hide Groups;
  }

  function RedoOfAll(ops: seq<Op>): Bytes {
    if ops == [] then [] else RedoOf(ops[0]) + RedoOfAll(ops[1..])
  }

  lemma {:induction false} RedoOfAppended(ops: seq<Op>, op: Op)
    ensures RedoOfAll(ops + [op]) == RedoOfAll(ops) + RedoOf(op)
  {
    hide RedoOf;
    if ops == [] {
      assert RedoOfAll([op][1..]) == [];
    } else {
      assert (ops + [op])[1..] == ops[1..] + [op];
      RedoOfAppended(ops[1..], op);
    }
  }

  // ----- the way back

  /** A number and then as many bytes; `None` where they do not all stand in the buffer. */
  function ReadString(buf: Bytes, pos: nat): (r: Option<(Bytes, nat)>)
    requires pos <= |buf|
    ensures r.Some? ==> pos < r.value.1 <= |buf| && |r.value.0| < TWO64
  {
    DecodedIsWord(buf, pos, 0);
    match DecodeFrom(buf, pos, 0)
    case None => None
    case Some((len, at)) => if at + len <= |buf| then Some((buf[at..at + len], at + len)) else None
  }

  function ReadHead(buf: Bytes, pos: nat): (r: Option<(nat, Byte, Bytes, nat)>)
    requires pos <= |buf|
    ensures r.Some? ==> pos < r.value.3 <= |buf| && r.value.0 < TWO32 && |r.value.2| < TWO64
  {
    match DecodeFrom(buf, pos, 0)
    case None => None
    case Some((cf, at)) =>
      if at == |buf| then None
      else
        match ReadString(buf, at + 1)
        case None => None
        case Some((key, behind)) => Some((cf % TWO32, buf[at], key, behind))
  }

  /** One turn of `WriteBatch::Iterate`. */
  function ReadOp(buf: Bytes, pos: nat): (r: Option<(Op, nat)>)
    requires pos <= |buf|
    ensures r.Some? ==> pos < r.value.1 <= |buf| && Fits(r.value.0)
  {
    match ReadHead(buf, pos)
    case None => None
    case Some((cf, flag, key, behind)) =>
      if flag == FLAG_VALUE then
        match ReadString(buf, behind)
        case None => None
        case Some((value, end)) => Some((Put(cf, key, value), end))
      else if flag == FLAG_DELETION then Some((Delete(cf, key), behind))
      else None
  }

  function ReadOps(buf: Bytes, pos: nat): (r: Option<seq<Op>>)
    requires pos <= |buf|
    ensures r.Some? ==> forall op :: op in r.value ==> Fits(op)
    decreases |buf| - pos
  {
    if pos == |buf| then Some([])
    else
      match ReadOp(buf, pos)
      case None => None
      case Some((op, next)) =>
        match ReadOps(buf, next)
        case None => None
        case Some(rest) => Some([op] + rest)
  }

  function Behind(ops: seq<Op>, rest: Option<seq<Op>>): Option<seq<Op>> {
    match rest
    case None => None
    case Some(more) => Some(ops + more)
  }

  lemma OneMore(buf: Bytes, pos: nat, ops: seq<Op>)
    requires pos < |buf| && ReadOp(buf, pos).Some?
    ensures var (op, next) := ReadOp(buf, pos).value;
      Behind(ops, ReadOps(buf, pos)) == Behind(ops + [op], ReadOps(buf, next))
  {
    var (op, next) := ReadOp(buf, pos).value;
    match ReadOps(buf, next) {
      case None =>
      case Some(rest) => assert ops + ([op] + rest) == ops + [op] + rest;
    }
  }

  /** `WriteBatch::Iterate`: the operations handed to the handler, in order; `None` for a buffer
      that is no sequence of redo entries. */
  method Iterate(buf: Bytes) returns (handled: Option<seq<Op>>)
    ensures handled == ReadOps(buf, 0)
    ensures handled.Some? ==> forall op :: op in handled.value ==> op.cf < 0x1_0000_0000
  {
    hide ReadOp;
    var pos: nat, ops: seq<Op> := 0, [];
    assert ReadOps(buf, 0).Some? ==> [] + ReadOps(buf, 0).value == ReadOps(buf, 0).value;
    while pos < |buf|
      invariant pos <= |buf| && ReadOps(buf, 0) == Behind(ops, ReadOps(buf, pos))
    {
      match ReadOp(buf, pos) {
        case None =>
          return None;
        case Some((op, next)) =>
          OneMore(buf, pos, ops);
          ops := ops + [op];
          pos := next;
      }
    }
    assert ops + [] == ops;
    return Some(ops);
  }

  lemma ReadStringUndoes(buf: Bytes, pos: nat, s: Bytes)
    requires StandsAt(buf, pos, Framed(s)) && |s| < TWO64
    ensures ReadString(buf, pos) == Some((s, pos + |Framed(s)|))
  {
    hide Groups, DecodeFrom;
    StandsApart(buf, pos, Groups(|s|), s);
    DecodeUndoesGroups(buf, pos, |s|);
    var at := pos + |Groups(|s|)|;
    assert buf[at..at + |s|] == s;
  }

  lemma ReadHeadUndoes(buf: Bytes, pos: nat, cf: nat, flag: Byte, key: Bytes)
    requires StandsAt(buf, pos, Head(cf, flag, key)) && cf < TWO32 && |key| < TWO64
    ensures ReadHead(buf, pos) == Some((cf, flag, key, pos + |Head(cf, flag, key)|))
  {
    hide Groups, DecodeFrom, StandsAt, ReadString, Framed;
    var at := pos + |Groups(cf)|;
    StandsApart(buf, pos, Groups(cf), [flag] + Framed(key));
    DecodeUndoesGroups(buf, pos, cf);
    StandsApart(buf, at, [flag], Framed(key));
    StandsFirst(buf, at, [flag]);
    ReadStringUndoes(buf, at + 1, key);
  }

  /** Reading one entry undoes writing it, whatever follows it. */
  lemma ReadOpUndoes(buf: Bytes, pos: nat, op: Op)
    requires StandsAt(buf, pos, RedoOf(op)) && Fits(op)
    ensures ReadOp(buf, pos) == Some((op, pos + |RedoOf(op)|))
  {
    hide Head, ReadHead, StandsAt, ReadString, Framed;
    match op {
      case Put(cf, key, value) =>
        StandsApart(buf, pos, Head(cf, FLAG_VALUE, key), Framed(value));
        ReadHeadUndoes(buf, pos, cf, FLAG_VALUE, key);
        ReadStringUndoes(buf, pos + |Head(cf, FLAG_VALUE, key)|, value);
      case Delete(cf, key) =>
        ReadHeadUndoes(buf, pos, cf, FLAG_DELETION, key);
    }
  }

  lemma {:induction false} ReadOpsUndoes(buf: Bytes, pos: nat, ops: seq<Op>)
    requires StandsAt(buf, pos, RedoOfAll(ops)) && pos + |RedoOfAll(ops)| == |buf|
    requires forall op :: op in ops ==> Fits(op)
    ensures ReadOps(buf, pos) == Some(ops)
    decreases |ops|
  {
    hide RedoOf, ReadOp, StandsAt;
    if ops != [] {
      StandsApart(buf, pos, RedoOf(ops[0]), RedoOfAll(ops[1..]));
      ReadOpUndoes(buf, pos, ops[0]);
      ReadOpsUndoes(buf, pos + |RedoOf(ops[0])|, ops[1..]);
      assert [ops[0]] + ops[1..] == ops;
    }
  }

  /** Iterating over a batch hands over exactly its operations, in order. */
  lemma IterateReplays(ops: seq<Op>)
    requires forall op :: op in ops ==> Fits(op)
    ensures ReadOps(RedoOfAll(ops), 0) == Some(ops)
  {
    ReadOpsUndoes(RedoOfAll(ops), 0, ops);
  }

  // ----- the batch

  /** `KeyBoundle::MakeRedo`: an entry appended to a buffer. */
  method MakeRedo(key: Bytes, value: Bytes, cf: nat, flag: Byte, redo: Bytes) returns (longer: Bytes)
    requires cf < TWO32 && |key| < TWO64 && |value| < TWO64
    ensures flag == FLAG_VALUE ==> longer == redo + RedoOf(Put(cf, key, value))
    ensures flag == FLAG_DELETION ==> longer == redo + RedoOf(Delete(cf, key))
  {
    hide Groups;
    var id := Encode32(cf);
    var keySize := Encode64(|key|);
    longer := redo + id + [flag] + keySize + key;
    assert longer == redo + Head(cf, flag, key);
    if flag != FLAG_DELETION {
      var valueSize := Encode64(|value|);
      longer := longer + valueSize + value;
      assert longer == redo + (Head(cf, flag, key) + Framed(value));
    }
  }

  const HEADER_SIZE: nat := 12

  class WriteBatch {
    var redo: Bytes
    var nEntries: nat
    ghost var ops: seq<Op>

    ghost predicate Valid()
      reads this
    {
      && |redo| >= HEADER_SIZE && redo[HEADER_SIZE..] == RedoOfAll(ops)
      && nEntries == |ops| % TWO32
      && forall op :: op in ops ==> Fits(op)
    }

    constructor ()
      ensures Valid() && ops == []
    {
      redo, nEntries, ops := seq(HEADER_SIZE, _ => 0), 0, [];
    }

    method Append(cf: nat, key: Bytes, value: Bytes, flag: Byte)
      requires Valid() && cf < TWO32 && |key| < TWO64 && |value| < TWO64 && flag <= FLAG_DELETION
      modifies this
      ensures Valid()
      ensures ops == old(ops) + [if flag == FLAG_VALUE then Op.Put(cf, key, value) else Op.Delete(cf, key)]
    {
      hide RedoOf, RedoOfAll;
      ghost var op := if flag == FLAG_VALUE then Op.Put(cf, key, value) else Op.Delete(cf, key);
      redo := MakeRedo(key, value, cf, flag, redo);
      nEntries := (nEntries + 1) % TWO32;
      RedoOfAppended(ops, op);
      assert nEntries == (|ops| + 1) % TWO32;
      assert redo[HEADER_SIZE..] == old(redo[HEADER_SIZE..]) + RedoOf(op);
      ops := ops + [op];
    }

    method Put(cf: nat, key: Bytes, value: Bytes)
      requires Valid() && cf < TWO32 && |key| < TWO64 && |value| < TWO64
      modifies this
      ensures Valid() && ops == old(ops) + [Op.Put(cf, key, value)]
    {
      Append(cf, key, value, FLAG_VALUE);
    }

    method Delete(cf: nat, key: Bytes)
      requires Valid() && cf < TWO32 && |key| < TWO64
      modifies this
      ensures Valid() && ops == old(ops) + [Op.Delete(cf, key)]
    {
      Append(cf, key, [], FLAG_DELETION);
    }

    method Clear()
      requires Valid()
      modifies this
      ensures Valid() && ops == []
    {
      redo, nEntries, ops := redo[..HEADER_SIZE], 0, [];
    }

    /** `redo(sn)`: writes the header and hands out the whole record. */
    method Record(sn: nat) returns (record: Bytes)
      requires Valid() && sn < TWO64
      modifies this
      ensures Valid() && ops == old(ops)
      ensures record == RecordOf(sn, ops)
    {
      redo := Fixed(8, sn) + Fixed(4, nEntries) + redo[HEADER_SIZE..];
      assert redo[HEADER_SIZE..] == RedoOfAll(ops);
      return redo;
    }
  }

  /** The log record of a batch: first sequence number, number of entries, entries. */
  function RecordOf(sn: nat, ops: seq<Op>): (record: Bytes)
    ensures |record| >= HEADER_SIZE
  {
    Fixed(8, sn) + Fixed(4, |ops| % TWO32) + RedoOfAll(ops)
  }

  /** A log record, as words of 32 bits: the low and the high word of the first number, the count,
      and then the entries. */
  lemma RecordFormat(sn: nat, ops: seq<Op>)
    ensures RecordOf(sn, ops)
         == Fixed(4, sn) + Fixed(4, sn / 0x1_0000_0000) + Fixed(4, |ops| % 0x1_0000_0000) + RedoOfAll(ops)
  {
    hide Fixed, RedoOfAll;
    FixedSplit(sn);
  }

  lemma FixedSplit(v: nat)
    ensures Fixed(8, v) == Fixed(4, v) + Fixed(4, v / 0x1_0000_0000)
  {
    hide Fixed;
    FixedStep(7, v);
    FixedStep(6, v / 0x100);
    FixedStep(5, v / 0x1_0000);
    FixedStep(4, v / 0x100_0000);
    FixedBytes(v);
    assert v / 0x100 / 256 == v / 0x1_0000 && v / 0x1_0000 / 256 == v / 0x100_0000 && v / 0x100_0000 / 256 == v / 0x1_0000_0000;
  }
}
