/** Writing batches through the log into the memory tables, and replaying the log. */
module Replay {

  import opened Common
  import opened Varint
  import opened WriteBatches
  import opened WalReading
  import Tags
  import Wal

  /** The bound that the source checks before it makes a tag. It is twice what a tag can keep. */
  const SEQUENCE_LIMIT: nat := 0x200_0000_0000_0000

  /** What one operation puts into the memory table of its column family. */
  datatype Insertion = Insertion(cf: nat, user: Bytes, tag: nat, value: Bytes) {
    /** The sequence number that the tag has kept. */
    function Number(): nat {
      Tags.Decode(tag).0
    }
  }

  function InsertionOf(op: Op, number: nat): Insertion {
    match op
    case Put(cf, key, value) => Insertion(cf, key, Tags.Encode(number, FLAG_VALUE), value)
    case Delete(cf, key) => Insertion(cf, key, Tags.Encode(number, FLAG_DELETION), [])
  }

  /** The insertions of one batch, numbered from `sn` on. */
  function Numbered(sn: nat, ops: seq<Op>): (r: seq<Insertion>)
    ensures |r| == |ops|
  {
    seq(|ops|, i requires 0 <= i < |ops| => InsertionOf(ops[i], sn + i))
  }

  // ----- the specification of a run of writes

  function Total(batches: seq<seq<Op>>): nat {
    if batches == [] then 0 else |batches[0]| + Total(batches[1..])
  }

  function Records(sn: nat, batches: seq<seq<Op>>): seq<Bytes>
    decreases |batches|
  {
    if batches == [] then [] else [RecordOf(sn, batches[0])] + Records(sn + |batches[0]|, batches[1..])
  }

  function Insertions(sn: nat, batches: seq<seq<Op>>): seq<Insertion>
    decreases |batches|
  {
    if batches == [] then [] else Numbered(sn, batches[0]) + Insertions(sn + |batches[0]|, batches[1..])
  }

  ghost predicate AllFit(batches: seq<seq<Op>>) {
    forall i, op :: 0 <= i < |batches| && op in batches[i] ==> Fits(op)
  }

  lemma {:induction false} OneMoreCounted(batches: seq<seq<Op>>, ops: seq<Op>)
    ensures Total(batches + [ops]) == Total(batches) + |ops|
  {
    if batches == [] {
      assert (batches + [ops])[1..] == [];
    } else {
      assert (batches + [ops])[1..] == batches[1..] + [ops];
      OneMoreCounted(batches[1..], ops);
    }
  }

  lemma {:induction false} OneMoreRecord(sn: nat, batches: seq<seq<Op>>, ops: seq<Op>)
    ensures Records(sn, batches + [ops]) == Records(sn, batches) + [RecordOf(sn + Total(batches), ops)]
    decreases |batches|
  {
    hide RecordOf;
    if batches == [] {
      assert (batches + [ops])[1..] == [];
    } else {
      assert (batches + [ops])[1..] == batches[1..] + [ops];
      OneMoreRecord(sn + |batches[0]|, batches[1..], ops);
    }
  }

  lemma {:induction false} OneMoreInserted(sn: nat, batches: seq<seq<Op>>, ops: seq<Op>)
    ensures Insertions(sn, batches + [ops]) == Insertions(sn, batches) + Numbered(sn + Total(batches), ops)
    decreases |batches|
  {
    hide Numbered;
    if batches == [] {
      assert (batches + [ops])[1..] == [];
    } else {
      assert (batches + [ops])[1..] == batches[1..] + [ops];
      OneMoreInserted(sn + |batches[0]|, batches[1..], ops);
    }
  }

  /** The numbers handed out are consecutive; a tag keeps 56 bits of each. */
  lemma {:induction false} NumbersHandedOut(sn: nat, batches: seq<seq<Op>>)
    ensures |Insertions(sn, batches)| == Total(batches)
    ensures forall i :: 0 <= i < Total(batches) ==> Insertions(sn, batches)[i].Number() == (sn + i) % Tags.TWO56
    decreases |batches|
  {
    if batches != [] {
      NumbersHandedOut(sn + |batches[0]|, batches[1..]);
      var head, tail := Numbered(sn, batches[0]), Insertions(sn + |batches[0]|, batches[1..]);
      forall i | 0 <= i < Total(batches)
        ensures Insertions(sn, batches)[i].Number() == (sn + i) % Tags.TWO56
      {
        if i < |head| {
          NumberKept(batches[0][i], sn + i);
        }
        assert (head + tail)[i] == if i < |head| then head[i] else tail[i - |head|];
      }
    }
  }

  lemma NumberKept(op: Op, number: nat)
    ensures InsertionOf(op, number).Number() == number % Tags.TWO56
  {
    Tags.TagKeeps(number, FLAG_VALUE);
    Tags.TagKeeps(number, FLAG_DELETION);
  }

  /** What a run stores has the consecutive numbers handed out, hence unique and strictly increasing
      ones, if and only if the run ends at or below 2^56. */
  lemma NumbersAreConsecutive(sn: nat, batches: seq<seq<Op>>)
    ensures |Insertions(sn, batches)| == Total(batches)
    ensures (forall i :: 0 <= i < Total(batches) ==> Insertions(sn, batches)[i].Number() == sn + i)
       <==> Total(batches) == 0 || sn + Total(batches) <= Tags.TWO56
  {
    hide Insertions, Total;
    NumbersHandedOut(sn, batches);
    var n := Total(batches);
    if n > 0 && sn + n > Tags.TWO56 {
      assert Insertions(sn, batches)[n - 1].Number() != sn + (n - 1);
    }
  }

  /** All operations of a run, in order. */
  function AllOps(batches: seq<seq<Op>>): seq<Op> {
    if batches == [] then [] else batches[0] + AllOps(batches[1..])
  }

  /** What a run puts into the tables, operation by operation: the column family, key and value of
      the operation, 56 bits of the next number, and 0 for a value and 1 for a deletion. */
  ghost predicate Stores(x: Insertion, op: Op, number: nat) {
    && x.cf == op.cf && x.user == op.key
    && (op.Put? ==> x.value == op.value && x.tag % 256 == 0)
    && (op.Delete? ==> x.value == [] && x.tag % 256 == 1)
    && x.tag / 256 == number % 0x100_0000_0000_0000
  }

  lemma InsertionStores(op: Op, number: nat)
    ensures Stores(InsertionOf(op, number), op, number)
  {
    Tags.TagKeeps(number, FLAG_VALUE);
    Tags.TagKeeps(number, FLAG_DELETION);
  }

  /** The tables have grown by the operations of one batch, numbered from `sn` on. */
  ghost predicate StoresAll(before: seq<Insertion>, after: seq<Insertion>, ops: seq<Op>, sn: nat) {
    && |after| == |before| + |ops| && before <= after
    && forall i :: 0 <= i < |ops| ==> Stores(after[|before| + i], ops[i], sn + i)
  }

  lemma NumberedStores(tables: seq<Insertion>, sn: nat, ops: seq<Op>)
    ensures StoresAll(tables, tables + Numbered(sn, ops), ops, sn)
  {
    hide Stores, InsertionOf;
    forall i | 0 <= i < |ops|
      ensures Stores((tables + Numbered(sn, ops))[|tables| + i], ops[i], sn + i)
    {
      InsertionStores(ops[i], sn + i);
    }
  }

  lemma {:induction false} RunStores(sn: nat, batches: seq<seq<Op>>)
    ensures |Insertions(sn, batches)| == |AllOps(batches)|
    ensures forall i :: 0 <= i < |AllOps(batches)| ==> Stores(Insertions(sn, batches)[i], AllOps(batches)[i], sn + i)
    decreases |batches|
  {
    hide Stores, InsertionOf;
    if batches != [] {
      var ops, next := batches[0], sn + |batches[0]|;
      RunStores(next, batches[1..]);
      var head, tail := Numbered(sn, ops), Insertions(next, batches[1..]);
      forall i | 0 <= i < |AllOps(batches)|
        ensures Stores(Insertions(sn, batches)[i], AllOps(batches)[i], sn + i)
      {
        assert (head + tail)[i] == if i < |ops| then head[i] else tail[i - |ops|];
        if i < |ops| {
          InsertionStores(ops[i], sn + i);
        } else {
          assert Stores(tail[i - |ops|], AllOps(batches[1..])[i - |ops|], next + (i - |ops|));
        }
      }
    }
  }

  // ----- writing

  /** The handler a batch is iterated with; the tables are seen as one list of insertions. */
  class WritingHandler {
    var last: nat
    var count: nat
    var tables: seq<Insertion>

    constructor (tables: seq<Insertion>)
      ensures this.tables == tables
    {
      this.tables, last, count := tables, 0, 0;
    }

    method ResetLastSequenceNumber(sn: nat)
      modifies this`last, this`count
      ensures last == sn && count == 0
    {
      last, count := sn, 0;
    }

    method Put(cf: nat, key: Bytes, value: Bytes)
      modifies this`count, this`tables
      ensures count == old(count) + 1
      ensures tables == old(tables) + [InsertionOf(Op.Put(cf, key, value), last + old(count))]
      ensures Stores(tables[|old(tables)|], Op.Put(cf, key, value), last + old(count))
    {
      InsertionStores(Op.Put(cf, key, value), last + count);
      tables := tables + [Insertion(cf, key, Tags.Encode(last + count, FLAG_VALUE), value)];
      count := count + 1;
    }

    method Delete(cf: nat, key: Bytes)
      modifies this`count, this`tables
      ensures count == old(count) + 1
      ensures tables == old(tables) + [InsertionOf(Op.Delete(cf, key), last + old(count))]
      ensures Stores(tables[|old(tables)|], Op.Delete(cf, key), last + old(count))
    {
      InsertionStores(Op.Delete(cf, key), last + count);
      tables := tables + [Insertion(cf, key, Tags.Encode(last + count, FLAG_DELETION), [])];
      count := count + 1;
    }

    /** The calls `Iterate` makes. */
    method Handle(ops: seq<Op>)
      requires count == 0
      modifies this`count, this`tables
      ensures count == |ops| && tables == old(tables) + Numbered(last, ops)
      ensures StoresAll(old(tables), tables, ops, last)
    {
      hide InsertionOf;
      var i := 0;
      assert Numbered(last, ops[..0]) == [];
      while i < |ops|
        invariant 0 <= i <= |ops| && count == i
        invariant tables == old(tables) + Numbered(last, ops[..i])
      {
        assert Numbered(last, ops[..i + 1]) == Numbered(last, ops[..i]) + [InsertionOf(ops[i], last + i)];
        match ops[i] {
          case Put(cf, key, value) => Put(cf, key, value);
          case Delete(cf, key) => Delete(cf, key);
        }
        i := i + 1;
      }
      assert ops[..i] == ops;
      NumberedStores(old(tables), last, ops);
    }
  }

  // ----- replaying

  /** How a replay ends: what the tables hold, the number reported and what the log ended with,
      or a record that no batch could have written. */
  datatype Redone =
    | Done(tables: seq<Insertion>, update: Option<nat>, end: Outcome)
    | Malformed

  /** The first number and the operations of a log record. */
  function BatchOf(record: Bytes): Option<(nat, seq<Op>)> {
    if |record| < HEADER_SIZE then None
    else
      match ReadOps(record[HEADER_SIZE..], 0)
      case None => None
      case Some(ops) => Some((FromFixed(record[..8]), ops))
  }

  function RedoFrom(s: Setup, file: Bytes, pos: nat, offset: nat, tables: seq<Insertion>, update: Option<nat>): Redone
    decreases |file| - pos
  {
    var r := Gather(s, file, pos, offset, [], true);
    if !r.outcome.Record? then Done(tables, update, r.outcome)
    else
      match BatchOf(r.outcome.data)
      case None => Malformed
      case Some((sn, ops)) =>
        GatherAdvances(s, file, pos, offset, [], true);
        RedoFrom(s, file, r.pos, r.offset, tables + Numbered(sn, ops), Some(sn + |ops|))
  }

  /** `DBImpl::Redo` without the filter. */
  method Redo(s: Setup, file: Bytes, tables: seq<Insertion>) returns (r: Redone)
    ensures r == RedoFrom(s, file, 0, 0, tables, None)
  {
    hide Gather, BatchOf, Numbered;
    var logger := new LogReader(s, file);
    var handler := new WritingHandler(tables);
    var update: Option<nat> := None;
    while true
      invariant logger.s == s && logger.file == file && !logger.eof && fresh(logger) && fresh(handler)
      invariant RedoFrom(s, file, 0, 0, tables, None)
                == RedoFrom(s, file, logger.pos, logger.blockOffset, handler.tables, update)
      decreases |file| - logger.pos
    {
      GatherAdvances(s, file, logger.pos, logger.blockOffset, [], true);
      var outcome := logger.Read();
      if !outcome.Record? {
        return Done(handler.tables, update, outcome);
      }
      var batch := ParseRecord(outcome.data);
      if batch.None? {
        return Malformed;
      }
      var (sn, ops) := batch.value;
      handler.ResetLastSequenceNumber(sn);
      handler.Handle(ops);
      update := Some(sn + handler.count);
    }
  }

  method ParseRecord(record: Bytes) returns (batch: Option<(nat, seq<Op>)>)
    ensures batch == BatchOf(record)
  {
    if |record| < HEADER_SIZE {
      return None;
    }
    var sn := FromFixed(record[..8]);
    var ops := Iterate(record[HEADER_SIZE..]);
    match ops {
      case None => return None;
      case Some(handled) => return Some((sn, handled));
    }
  }

  /** A record gives back the batch it was made from, and the number of its entries. */
  lemma RecordReads(sn: nat, ops: seq<Op>)
    requires sn < TWO64 && forall op :: op in ops ==> Fits(op)
    ensures BatchOf(RecordOf(sn, ops)) == Some((sn, ops))
    ensures FromFixed(RecordOf(sn, ops)[8..12]) == |ops| % TWO32
  {
    hide Fixed, FromFixed, Pow2, ReadOps, RedoOfAll;
    var record, n := RecordOf(sn, ops), |ops| % TWO32;
    assert record[..8] == Fixed(8, sn) && record[8..12] == Fixed(4, n) && record[12..] == RedoOfAll(ops);
    FixedWidths();
    FixedRoundTrip(8, sn);
    FixedRoundTrip(4, n);
    IterateReplays(ops);
  }

  lemma {:induction false} RedoRestores(s: Setup, file: Bytes, pos: nat, offset: nat, tables: seq<Insertion>,
                                        update: Option<nat>, sn: nat, batches: seq<seq<Op>>)
    requires ReadAll(s, file, pos, offset) == (Records(sn, batches), Eof)
    requires AllFit(batches) && sn + Total(batches) <= SEQUENCE_LIMIT
    ensures RedoFrom(s, file, pos, offset, tables, update)
         == Done(tables + Insertions(sn, batches), if batches == [] then update else Some(sn + Total(batches)), Eof)
    decreases |batches|
  {
    hide Gather, RecordOf, BatchOf, Numbered;
    if batches == [] {
      assert tables + [] == tables;
    } else {
      var r := Gather(s, file, pos, offset, [], true);
      var ops, next := batches[0], sn + |batches[0]|;
      assert r.outcome.Record?;
      assert r.outcome.data == Records(sn, batches)[0] == RecordOf(sn, ops);
      assert Records(sn, batches)[1..] == Records(next, batches[1..]);
      GatherAdvances(s, file, pos, offset, [], true);
      assert ReadAll(s, file, r.pos, r.offset).0 == ReadAll(s, file, pos, offset).0[1..];
      RecordReads(sn, ops);
      RedoRestores(s, file, r.pos, r.offset, tables + Numbered(sn, ops), Some(next), next, batches[1..]);
      assert tables + Numbered(sn, ops) + Insertions(next, batches[1..]) == tables + Insertions(sn, batches);
    }
  }

  lemma {:induction false} RecordsNotEmpty(sn: nat, batches: seq<seq<Op>>)
    ensures |Records(sn, batches)| == |batches|
    ensures forall i :: 0 <= i < |batches| ==> Records(sn, batches)[i] != []
    decreases |batches|
  {
    hide RecordOf;
    if batches != [] {
      RecordsNotEmpty(sn + |batches[0]|, batches[1..]);
    }
  }

  /** Replaying the log of any run of writes inserts exactly what the writes inserted, in order, and
      reports the number after the last one used; on a plain as on a mapped file. */
  lemma ReplayRestores(s: Setup, sn: nat, batches: seq<seq<Op>>)
    requires Wal.Usable(s.f) && AllFit(batches) && sn + Total(batches) <= SEQUENCE_LIMIT
    ensures RedoFrom(s, Wal.LogOf(s.f, 0, Records(sn, batches)), 0, 0, [], None)
         == Done(Insertions(sn, batches), if batches == [] then None else Some(sn + Total(batches)), Eof)
  {
    hide RedoFrom, ReadAll, Records, Wal.LogOf;
    var file := Wal.LogOf(s.f, 0, Records(sn, batches));
    LogRoundTrip(s, Records(sn, batches));
    RecordsNotEmpty(sn, batches);
    RedoRestores(s, file, 0, 0, [], None, sn, batches);
    assert [] + Insertions(sn, batches) == Insertions(sn, batches);
  }

  class Database {
    var last: nat
    const logger: Wal.LogWriter
    var tables: seq<Insertion>
    ghost const first: nat
    ghost var batches: seq<seq<Op>>

    ghost predicate Valid()
      reads this, logger
    {
      && logger.Valid() && logger.records == Records(first, batches)
      && tables == Insertions(first, batches)
      && last + 1 == first + Total(batches)
      && AllFit(batches)
    }

    constructor (f: Wal.Format, last: nat)
      requires Wal.Usable(f)
      ensures Valid() && fresh(logger) && logger.f == f && batches == [] && first == last + 1
    {
      this.last, tables, first, batches := last, [], last + 1, [];
      logger := new Wal.LogWriter(f);
    }

    /** `DBImpl::WriteImpl` as one step: log the batch, insert its operations, count them. */
    method WriteImpl(batch: WriteBatch)
      requires Valid() && batch.Valid() && last + 1 + |batch.ops| <= SEQUENCE_LIMIT
      modifies this, logger, batch
      ensures Valid() && batches == old(batches) + [old(batch.ops)]
      ensures last == old(last) + |old(batch.ops)| && StoresAll(old(tables), tables, old(batch.ops), old(last) + 1)
    {
      hide StoresAll, RecordOf, Records, Insertions, Numbered, Total, Wal.LogWriter.Valid, RedoOfAll, ReadOps;
      var record := batch.Record(last + 1);
      logger.Append(record);
      var handler := new WritingHandler(tables);
      handler.ResetLastSequenceNumber(last + 1);
      var ops := Iterate(batch.redo[WriteBatches.HEADER_SIZE..]);
      IterateReplays(batch.ops);
      handler.Handle(ops.value);
      tables, last := handler.tables, last + handler.count;
      OneMoreCounted(batches, batch.ops);
      OneMoreRecord(first, batches, batch.ops);
      OneMoreInserted(first, batches, batch.ops);
      batches := batches + [batch.ops];
    }

    /** A log replayed into empty tables rebuilds them. */
    lemma Recovers(kind: Wal.FileKind, verify: bool)
      requires Valid() && last + 1 <= SEQUENCE_LIMIT
      ensures RedoFrom(Setup(logger.f, kind, verify), logger.file, 0, 0, [], None)
           == Done(tables, if batches == [] then None else Some(last + 1), Eof)
      ensures last + 1 <= Tags.TWO56 ==> forall i :: 0 <= i < |tables| ==> tables[i].Number() == first + i <= last
    {
      hide RedoFrom, Insertions, Total, Records, Wal.LogOf, Wal.OffsetAfterAll, Insertion.Number;
      ReplayRestores(Setup(logger.f, kind, verify), first, batches);
      NumbersAreConsecutive(first, batches);
    }
  }

  /** Replaying the log of a database into empty tables. */
  method Reopen(db: Database, kind: Wal.FileKind, verify: bool) returns (r: Redone)
    requires db.Valid() && db.last + 1 <= SEQUENCE_LIMIT
    ensures r == Done(db.tables, if db.batches == [] then None else Some(db.last + 1), Eof)
  {
    hide RedoFrom, Database.Valid;
    db.Recovers(kind, verify);
    r := Redo(Setup(db.logger.f, kind, verify), db.logger.file, []);
  }
}
