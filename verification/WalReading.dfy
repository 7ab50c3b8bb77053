/** Reading the write-ahead log back, whatever bytes the file holds. */
module WalReading {

  import opened Common
  import opened Varint
  import opened Wal

  /** What a reader is set up with. */
  datatype Setup = Setup(f: Format, kind: FileKind, verify: bool)

  /** One physical record: a fragment, the end of the file, or a header that is cut short. */
  datatype Physical =
    | Found(kind: Byte, data: Bytes, length: nat, intact: bool)
    | Ended
    | Torn

  /** What `LogReader::Read` finds. `CutShort` stands for a header the file ends inside of. */
  datatype Outcome = Record(data: Bytes) | Eof | BadChecksum | CutShort

  datatype Reading = Reading(outcome: Outcome, pos: nat, offset: nat)

  function Upto(file: Bytes, pos: nat, n: nat): (end: nat)
    requires pos <= |file|
    ensures pos <= end <= |file|
  {
    if pos + n <= |file| then pos + n else |file|
  }

  /** Whether reading `n` bytes at a position reports the end of the file. */
  predicate AtEnd(kind: FileKind, file: Bytes, pos: nat, n: nat) {
    pos >= |file| && (n > 0 || kind == Mapped)
  }

  function Skipped(kind: FileKind, file: Bytes, pos: nat, n: nat): (next: nat)
    ensures next >= pos
  {
    if kind == Plain then pos + n else if pos >= |file| then pos else Upto(file, pos, n)
  }

  // ----- the specification: a reader over any file

  function PhysicalAt(s: Setup, file: Bytes, pos: nat): (r: Physical)
    ensures r.Found? ==> pos + HEADER_SIZE + |r.data| <= |file|
  {
    if |file| <= pos || |file| == pos + 4 || |file| == pos + 6 then Ended
    else if |file| < pos + HEADER_SIZE then Torn
    else
      var length, kind := FromFixed(file[pos + 4..pos + 6]), file[pos + 6];
      var at := pos + HEADER_SIZE;
      if AtEnd(s.kind, file, at, length) then Ended
      else
        var data := file[at..Upto(file, at, length)];
        Found(kind, data, length, s.verify ==> FromFixed(file[pos..pos + 4]) == Sum(s.f, kind, data))
  }

  /** Fragments are gathered until one is neither the first nor a middle one. */
  function Gather(s: Setup, file: Bytes, pos: nat, offset: nat, got: Bytes, intact: bool): Reading
    decreases |file| - pos
  {
    var at := Skipped(s.kind, file, pos, Gap(s.f, offset));
    match PhysicalAt(s, file, at)
    case Ended => Reading(Eof, at, offset)
    case Torn => Reading(CutShort, at, offset)
    case Found(kind, data, length, fine) =>
      var next, nextOffset := at + HEADER_SIZE + |data|, Start(s.f, offset) + HEADER_SIZE + length;
      if kind == MIDDLE || kind == FIRST then
        Gather(s, file, next, nextOffset, got + data, intact && fine)
      else if intact && fine then Reading(Record(got + data), next, nextOffset)
      else Reading(BadChecksum, next, nextOffset)
  }

  lemma GatherStep(s: Setup, file: Bytes, pos: nat, offset: nat, got: Bytes, intact: bool)
    ensures var at := Skipped(s.kind, file, pos, Gap(s.f, offset));
      var r, g := PhysicalAt(s, file, at), Gather(s, file, pos, offset, got, intact);
      match r
      case Ended => g.outcome == Eof
      case Torn => g.outcome == CutShort
      case Found(kind, data, length, fine) =>
        var next, nextOffset := at + HEADER_SIZE + |data|, Start(s.f, offset) + HEADER_SIZE + length;
        g == if kind == MIDDLE || kind == FIRST
             then Gather(s, file, next, nextOffset, got + data, intact && fine)
             else Reading(if intact && fine then Record(got + data) else BadChecksum, next, nextOffset)
  {
    hide PhysicalAt;
  }

  /** All records up to the first call of `Read` that fails, and what that call found. */
  function ReadAll(s: Setup, file: Bytes, pos: nat, offset: nat): (seq<Bytes>, Outcome)
    decreases |file| - pos
  {
    var r := Gather(s, file, pos, offset, [], true);
    if !r.outcome.Record? then ([], r.outcome)
    else
      GatherAdvances(s, file, pos, offset, [], true);
      var (rest, end) := ReadAll(s, file, r.pos, r.offset);
      ([r.outcome.data] + rest, end)
  }

  lemma {:induction false} GatherAdvances(s: Setup, file: Bytes, pos: nat, offset: nat, got: Bytes, intact: bool)
    ensures var r := Gather(s, file, pos, offset, got, intact);
      r.outcome.Record? || r.outcome.BadChecksum? ==> pos < r.pos <= |file|
    decreases |file| - pos
  {
    hide PhysicalAt;
    var at := Skipped(s.kind, file, pos, Gap(s.f, offset));
    var r := PhysicalAt(s, file, at);
    if r.Found? && (r.kind == MIDDLE || r.kind == FIRST) {
      var next, nextOffset := at + HEADER_SIZE + |r.data|, Start(s.f, offset) + HEADER_SIZE + r.length;
      GatherAdvances(s, file, next, nextOffset, got + r.data, intact && r.intact);
    }
  }

  // ----- the reader

  class LogReader {
    const s: Setup
    const file: Bytes
    var pos: nat
    var blockOffset: nat
    var eof: bool

    constructor (s: Setup, file: Bytes)
      ensures this.s == s && this.file == file && pos == 0 && blockOffset == 0 && !eof
    {
      this.s, this.file, pos, blockOffset, eof := s, file, 0, 0, false;
    }

    /** `FileReader::Read`: up to `n` bytes, or the end of the file. */
    method Fetch(n: nat) returns (bytes: Bytes)
      modifies this`pos, this`eof
      ensures eof == AtEnd(s.kind, file, old(pos), n)
      ensures !eof && old(pos) <= |file| ==> bytes == file[old(pos)..Upto(file, old(pos), n)]
      ensures eof || old(pos) > |file| ==> bytes == []
      ensures pos == old(pos) + |bytes|
    {
      eof := AtEnd(s.kind, file, pos, n);
      if eof || pos > |file| {
        return [];
      }
      bytes := file[pos..Upto(file, pos, n)];
      pos := pos + |bytes|;
    }

    method ReadPhysicalRecord() returns (r: Physical)
      modifies this`pos, this`blockOffset, this`eof
      ensures r == PhysicalAt(s, file, old(pos)) && eof == r.Ended?
      ensures r.Found? ==> pos == old(pos) + HEADER_SIZE + |r.data|
      ensures blockOffset == old(blockOffset) + if r.Found? then HEADER_SIZE + r.length else 0
    {
      var checksum := Fetch(4);
      if eof { return Ended; }
      if |checksum| < 4 { return Torn; }
      var length := Fetch(2);
      if eof { return Ended; }
      if |length| < 2 { return Torn; }
      var kind := Fetch(1);
      if eof { return Ended; }
      var n := FromFixed(length);
      var data := Fetch(n);
      if eof { return Ended; }
      var intact := !s.verify || FromFixed(checksum) == Sum(s.f, kind[0], data);
      blockOffset := blockOffset + HEADER_SIZE + n;
      return Physical.Found(kind[0], data, n, intact);
    }

    /** Steps over the rest of a block that has no room for a header. */
    method SkipGap()
      modifies this`pos, this`blockOffset
      ensures pos == Skipped(s.kind, file, old(pos), Gap(s.f, old(blockOffset)))
      ensures blockOffset == Start(s.f, old(blockOffset))
    {
      var leftOver := s.f.blockSize - blockOffset;
      if 0 <= leftOver < HEADER_SIZE {
        if leftOver > 0 {
          pos := Skipped(s.kind, file, pos, leftOver);
        }
        blockOffset := 0;
      }
    }

    /** `LogReader::Read`. */
    method Read() returns (outcome: Outcome)
      modifies this
      ensures old(eof) ==> outcome == Eof && eof
      ensures !old(eof) ==>
        var r := Gather(s, file, old(pos), old(blockOffset), [], true);
        && outcome == r.outcome && eof == r.outcome.Eof?
        && (outcome.Record? || outcome.BadChecksum? ==> pos == r.pos && blockOffset == r.offset)
      ensures !old(eof) && (outcome.Record? || outcome.BadChecksum?) ==>
        exists xs :: IsRecord(s, file, old(pos), old(blockOffset), xs)
      ensures !old(eof) ==> forall xs :: IsRecord(s, file, old(pos), old(blockOffset), xs) ==>
        outcome == if s.verify ==> AllRight(s.f, file, xs) then Record(DataOf(xs)) else BadChecksum
    {
      hide PhysicalAt, Skipped, Gap, Start, Gather, IsRecord, AllRight, DataOf;
      if eof {
        return Eof;
      }
      ReadDecides(s, file, pos, blockOffset);
      var scratch: Bytes, result: Bytes, fail, segment := [], [], 0, 0;
      assert scratch + result == [];
      while true
        invariant !eof && (segment == 0 ==> scratch == result == [])
        invariant Gather(s, file, old(pos), old(blockOffset), [], true)
                  == Gather(s, file, pos, blockOffset, scratch + result, fail == 0)
        decreases |file| - pos
      {
        GatherStep(s, file, pos, blockOffset, scratch + result, fail == 0);
        SkipGap();
        if segment > 0 {
          scratch := scratch + result;
        }
        var r := ReadPhysicalRecord();
        segment := segment + 1;
        if r.Ended? {
          return Eof;
        } else if r.Torn? {
          return CutShort;
        }
        result := r.data;
        if !r.intact {
          fail := fail + 1;
        }
        if r.kind != MIDDLE && r.kind != FIRST {
          break;
        }
      }
      outcome := if fail > 0 then BadChecksum else Record(if segment > 1 then scratch + result else result);
    }
  }

  // ----- what a reader lets through

  /** A fragment of a file: where its header stands, its type, its length and its data. */
  datatype Stored = Stored(at: nat, kind: Byte, length: nat, data: Bytes)

  /** The header and the data that stand in the file, byte by byte; data may be cut short by its end. */
  ghost predicate StandsIn(file: Bytes, x: Stored) {
    && x.at + 7 <= |file|
    && x.length == file[x.at + 4] + 0x100 * (file[x.at + 5] as int)
    && x.kind == file[x.at + 6]
    && x.data == file[x.at + 7..Upto(file, x.at + 7, x.length)]
  }

  /** The stored checksum is that of type and data. */
  ghost predicate SumIsRight(f: Format, file: Bytes, x: Stored)
    requires x.at + 4 <= |file|
  {
    file[x.at] + 0x100 * (file[x.at + 1] as int) + 0x1_0000 * (file[x.at + 2] as int) + 0x100_0000 * (file[x.at + 3] as int)
    == f.crc(f.crc(0, [x.kind]), x.data)
  }

  /** The fragments of one record that is complete: each right behind the one before it, or behind
      the gap at the end of a block; all but the last a first or middle one. */
  ghost predicate IsRecord(s: Setup, file: Bytes, pos: nat, offset: nat, xs: seq<Stored>)
    decreases |xs|
  {
    && xs != []
    && xs[0].at == Skipped(s.kind, file, pos, Gap(s.f, offset))
    && StandsIn(file, xs[0]) && !AtEnd(s.kind, file, xs[0].at + 7, xs[0].length)
    && ((xs[0].kind == 2 || xs[0].kind == 3) <==> |xs| > 1)
    && (|xs| > 1 ==>
          IsRecord(s, file, xs[0].at + 7 + |xs[0].data|, Start(s.f, offset) + 7 + xs[0].length, xs[1..]))
  }

  ghost function DataOf(xs: seq<Stored>): Bytes {
    if xs == [] then [] else xs[0].data + DataOf(xs[1..])
  }

  ghost predicate AllRight(f: Format, file: Bytes, xs: seq<Stored>) {
    forall i :: 0 <= i < |xs| ==> xs[i].at + 4 <= |file| && SumIsRight(f, file, xs[i])
  }

  lemma HeaderIs(file: Bytes, at: nat)
    requires at + 7 <= |file|
    ensures FromFixed(file[at + 4..at + 6]) == file[at + 4] + 0x100 * (file[at + 5] as int)
    ensures FromFixed(file[at..at + 4])
         == file[at] + 0x100 * (file[at + 1] as int) + 0x1_0000 * (file[at + 2] as int) + 0x100_0000 * (file[at + 3] as int)
  {
    hide FromFixed;
    assert file[at + 4..at + 6] == [file[at + 4], file[at + 5]];
    assert file[at..at + 4] == [file[at], file[at + 1], file[at + 2], file[at + 3]];
    FromFixedBytes(file[at + 4], file[at + 5], 0, 0);
    FromFixedBytes(file[at], file[at + 1], file[at + 2], file[at + 3]);
  }

  /** What a physical read finds is what stands in the file, and it is intact unless sums are
      verified and the stored one is wrong. */
  lemma PhysicalIs(s: Setup, file: Bytes, x: Stored)
    ensures StandsIn(file, x) && !AtEnd(s.kind, file, x.at + 7, x.length) ==>
      PhysicalAt(s, file, x.at) == Found(x.kind, x.data, x.length, s.verify ==> SumIsRight(s.f, file, x))
    ensures var r := PhysicalAt(s, file, x.at);
      r.Found? && x == Stored(x.at, r.kind, r.length, r.data) ==>
        StandsIn(file, x) && !AtEnd(s.kind, file, x.at + 7, x.length)
  {
    hide FromFixed;
    if x.at + 7 <= |file| {
      HeaderIs(file, x.at);
    }
  }

  /** The first fragment of a complete record: how the gathering goes on from it. */
  lemma FirstPiece(s: Setup, file: Bytes, pos: nat, offset: nat, xs: seq<Stored>, got: Bytes, intact: bool)
    requires IsRecord(s, file, pos, offset, xs)
    ensures xs[0].at + 4 <= |file|
    ensures var x := xs[0];
      var fine := intact && (s.verify ==> SumIsRight(s.f, file, x));
      if |xs| > 1 then
        Gather(s, file, pos, offset, got, intact)
        == Gather(s, file, x.at + 7 + |x.data|, Start(s.f, offset) + 7 + x.length, got + x.data, fine)
      else
        Gather(s, file, pos, offset, got, intact).outcome == if fine then Record(got + x.data) else BadChecksum
  {
    hide Gather, PhysicalAt, Skipped, Gap, Start, SumIsRight;
    GatherStep(s, file, pos, offset, got, intact);
    PhysicalIs(s, file, xs[0]);
  }

  /** The fragments of a complete record decide what comes back: their data if sums are not verified
      or all are right, and a checksum failure if any is wrong. */
  lemma {:induction false} PiecesDecide(s: Setup, file: Bytes, pos: nat, offset: nat, xs: seq<Stored>, got: Bytes, intact: bool)
    requires IsRecord(s, file, pos, offset, xs)
    ensures Gather(s, file, pos, offset, got, intact).outcome
         == if intact && (s.verify ==> AllRight(s.f, file, xs)) then Record(got + DataOf(xs)) else BadChecksum
    decreases |xs|
  {
    hide Gather, AllRight, SumIsRight, Skipped, Gap, Start, StandsIn, AtEnd;
    var x := xs[0];
    FirstPiece(s, file, pos, offset, xs, got, intact);
    AllRightSplit(s.f, file, xs);
    NoneWrong(s.f, file);
    if |xs| > 1 {
      var fine := intact && (s.verify ==> SumIsRight(s.f, file, x));
      PiecesDecide(s, file, x.at + 7 + |x.data|, Start(s.f, offset) + 7 + x.length, xs[1..], got + x.data, fine);
      assert got + x.data + DataOf(xs[1..]) == got + DataOf(xs);
    } else {
      assert xs[1..] == [] && x.data + [] == x.data;
    }
  }

  lemma NoneWrong(f: Format, file: Bytes)
    ensures AllRight(f, file, [])
  {
  }

  lemma AllRightSplit(f: Format, file: Bytes, xs: seq<Stored>)
    requires xs != [] && xs[0].at + 4 <= |file|
    ensures AllRight(f, file, xs) <==> SumIsRight(f, file, xs[0]) && AllRight(f, file, xs[1..])
  {
    hide SumIsRight;
    assert forall i :: 1 <= i < |xs| ==> xs[i] == xs[1..][i - 1];
  }

  lemma ReadDecides(s: Setup, file: Bytes, pos: nat, offset: nat)
    ensures var o := Gather(s, file, pos, offset, [], true).outcome;
      && (o.Record? || o.BadChecksum? ==> exists xs :: IsRecord(s, file, pos, offset, xs))
      && forall xs :: IsRecord(s, file, pos, offset, xs) ==>
           o == if s.verify ==> AllRight(s.f, file, xs) then Record(DataOf(xs)) else BadChecksum
  {
    hide Gather, IsRecord, AllRight, DataOf;
    var o := Gather(s, file, pos, offset, [], true).outcome;
    if o.Record? || o.BadChecksum? {
      var xs := PiecesOf(s, file, pos, offset, [], true);
    }
    forall xs | IsRecord(s, file, pos, offset, xs)
      ensures o == if s.verify ==> AllRight(s.f, file, xs) then Record(DataOf(xs)) else BadChecksum
    {
      PiecesDecide(s, file, pos, offset, xs, [], true);
      assert [] + DataOf(xs) == DataOf(xs);
    }
  }

  /** A record or a checksum failure comes from the fragments of a complete record. */
  lemma {:induction false} PiecesOf(s: Setup, file: Bytes, pos: nat, offset: nat, got: Bytes, intact: bool) returns (xs: seq<Stored>)
    requires var o := Gather(s, file, pos, offset, got, intact).outcome; o.Record? || o.BadChecksum?
    ensures IsRecord(s, file, pos, offset, xs)
    decreases |file| - pos
  {
    hide Gather, PhysicalAt, Gap, Start;
    var at := Skipped(s.kind, file, pos, Gap(s.f, offset));
    GatherStep(s, file, pos, offset, got, intact);
    var r := PhysicalAt(s, file, at);
    var x := Stored(at, r.kind, r.length, r.data);
    PhysicalIs(s, file, x);
    xs := [x];
    if r.kind == MIDDLE || r.kind == FIRST {
      var rest := PiecesOf(s, file, at + 7 + |r.data|, Start(s.f, offset) + 7 + r.length, got + r.data, intact && r.intact);
      xs := [x] + rest;
      assert xs[1..] == rest;
    }
  }

  // ----- reading undoes writing

  lemma FragmentReads(s: Setup, file: Bytes, pos: nat, kind: Byte, data: Bytes)
    requires |data| <= 0xFFFF && StandsAt(file, pos, Fragment(s.f, kind, data))
    requires s.kind == Plain || data != [] || pos + HEADER_SIZE < |file|
    ensures PhysicalAt(s, file, pos) == Found(kind, data, |data|, true)
  {
    hide Pow2, Fixed, FromFixed, Sum;
    var sum, length := Fixed(4, Sum(s.f, kind, data)), Fixed(2, |data|);
    StandsApart(file, pos, sum + length + [kind], data);
    StandsApart(file, pos, sum + length, [kind]);
    StandsApart(file, pos, sum, length);
    assert file[pos..pos + 4] == sum && file[pos + 4..pos + 6] == length;
    StandsFirst(file, pos + 6, [kind]);
    FixedWidths();
    FixedRoundTrip(4, Sum(s.f, kind, data));
    FixedRoundTrip(2, |data|);
    assert file[pos + 7..pos + 7 + |data|] == data;
  }

  /** The padding is skipped and the fragment behind it read. */
  lemma PieceReads(s: Setup, file: Bytes, pos: nat, offset: nat, rest: Bytes, begin: bool)
    requires Usable(s.f) && offset <= s.f.blockSize && StandsAt(file, pos, Piece(s.f, offset, rest, begin))
    requires s.kind == Plain || rest != [] || pos + |Piece(s.f, offset, rest, begin)| < |file|
    requires Cut(s.f, offset, |rest|) < |rest| ==> pos + |Piece(s.f, offset, rest, begin)| < |file|
    ensures var n, at := Cut(s.f, offset, |rest|), pos + Gap(s.f, offset);
      && Skipped(s.kind, file, pos, Gap(s.f, offset)) == at
      && PhysicalAt(s, file, at) == Found(TypeOf(begin, n == |rest|), rest[..n], n, true)
  {
    hide PhysicalAt, Fragment, StandsAt;
    var n, at := Cut(s.f, offset, |rest|), pos + Gap(s.f, offset);
    var kind := TypeOf(begin, n == |rest|);
    StandsApart(file, pos, Zeros(Gap(s.f, offset)), Fragment(s.f, kind, rest[..n]));
    StandsWithin(file, at, Fragment(s.f, kind, rest[..n]));
    FragmentReads(s, file, at, kind, rest[..n]);
  }

  /** The last fragment of a record ends the gathering. */
  lemma GatherLast(s: Setup, file: Bytes, pos: nat, offset: nat, data: Bytes, begin: bool, got: Bytes)
    requires Usable(s.f) && offset <= s.f.blockSize && Cut(s.f, offset, |data|) == |data|
    requires StandsAt(file, pos, Piece(s.f, offset, data, begin))
    requires s.kind == Plain || data != [] || pos + |Piece(s.f, offset, data, begin)| < |file|
    ensures Gather(s, file, pos, offset, got, true)
         == Reading(Record(got + data), pos + |Piece(s.f, offset, data, begin)|,
                    Start(s.f, offset) + HEADER_SIZE + |data|)
  {
    hide Gather, PhysicalAt, StandsAt, Skipped, Piece, Cut, Gap, Start;
    GatherStep(s, file, pos, offset, got, true);
    PieceReads(s, file, pos, offset, data, begin);
    assert data[..|data|] == data;
  }

  /** Any other fragment is gathered, and the gathering goes on behind it. */
  lemma GatherMore(s: Setup, file: Bytes, pos: nat, offset: nat, data: Bytes, begin: bool, got: Bytes)
    requires Usable(s.f) && offset <= s.f.blockSize && Cut(s.f, offset, |data|) < |data|
    requires StandsAt(file, pos, Piece(s.f, offset, data, begin)) && pos + |Piece(s.f, offset, data, begin)| < |file|
    ensures var n := Cut(s.f, offset, |data|);
      Gather(s, file, pos, offset, got, true)
      == Gather(s, file, pos + |Piece(s.f, offset, data, begin)|, Start(s.f, offset) + HEADER_SIZE + n,
                got + data[..n], true)
  {
    hide Gather, PhysicalAt, StandsAt, Skipped, Piece, Cut, Gap, Start;
    GatherStep(s, file, pos, offset, got, true);
    PieceReads(s, file, pos, offset, data, begin);
  }

  /** Gathering undoes writing, from any offset in a block and whatever follows; a mapped file
      must not end right behind an empty record. */
  lemma {:induction false} GatherUndoes(s: Setup, file: Bytes, pos: nat, offset: nat, data: Bytes, begin: bool, got: Bytes)
    requires Usable(s.f) && offset <= s.f.blockSize && StandsAt(file, pos, Written(s.f, offset, data, begin))
    requires s.kind == Plain || data != [] || pos + |Written(s.f, offset, data, begin)| < |file|
    ensures Gather(s, file, pos, offset, got, true)
         == Reading(Record(got + data), pos + |Written(s.f, offset, data, begin)|, OffsetAfter(s.f, offset, |data|))
    decreases |data|, Start(s.f, offset)
  {
    hide Written, OffsetAfter, Gather, StandsAt, Piece, Cut, Gap;
    var n := Cut(s.f, offset, |data|);
    if n == |data| {
      WrittenLast(s.f, offset, data, begin);
      GatherLast(s, file, pos, offset, data, begin, got);
    } else {
      var piece, next := Piece(s.f, offset, data, begin), Start(s.f, offset) + HEADER_SIZE + n;
      var rest := Written(s.f, next, data[n..], false);
      WrittenMore(s.f, offset, data, begin);
      StandsApart(file, pos, piece, rest);
      StandsWithin(file, pos + |piece|, rest);
      GatherMore(s, file, pos, offset, data, begin, got);
      GatherUndoes(s, file, pos + |piece|, next, data[n..], false, got + data[..n]);
      assert got + data[..n] + data[n..] == got + data;
    }
  }

  /** The records a reader gets back: a mapped file does not give back an empty last record. */
  function Readable(kind: FileKind, records: seq<Bytes>): seq<Bytes> {
    if kind == Mapped && records != [] && records[|records| - 1] == []
    then records[..|records| - 1] else records
  }

  lemma GatherAtEnd(s: Setup, file: Bytes, pos: nat, offset: nat)
    requires pos == |file|
    ensures Gather(s, file, pos, offset, [], true).outcome == Eof
  {
  }

  /** In a mapped file that ends with an empty record, the read of its no bytes meets the end. */
  lemma EmptyLastRecord(s: Setup, file: Bytes, pos: nat, offset: nat)
    requires Usable(s.f) && offset <= s.f.blockSize && s.kind == Mapped
    requires StandsAt(file, pos, Written(s.f, offset, [], true)) && pos + |Written(s.f, offset, [], true)| == |file|
    ensures Gather(s, file, pos, offset, [], true).outcome == Eof
  {
    hide Gather, StandsAt;
    var at := pos + Gap(s.f, offset);
    WrittenLast(s.f, offset, [], true);
    var fragment := Fragment(s.f, FULL, []);
    StandsApart(file, pos, Zeros(Gap(s.f, offset)), fragment);
    assert at + HEADER_SIZE == |file|;
    EmptyFragment(s, file, at);
    GatherStep(s, file, pos, offset, [], true);
  }

  lemma EmptyFragment(s: Setup, file: Bytes, pos: nat)
    requires s.kind == Mapped && pos + HEADER_SIZE == |file|
    ensures PhysicalAt(s, file, pos) == Ended
  {
  }

  lemma {:induction false} ReadAllUndoes(s: Setup, file: Bytes, pos: nat, offset: nat, records: seq<Bytes>)
    requires Usable(s.f) && offset <= s.f.blockSize
    requires StandsAt(file, pos, LogOf(s.f, offset, records)) && pos + |LogOf(s.f, offset, records)| == |file|
    ensures ReadAll(s, file, pos, offset) == (Readable(s.kind, records), Eof)
    decreases |records|
  {
    hide Gather, StandsAt, Written, OffsetAfter;
    if records == [] {
      GatherAtEnd(s, file, pos, offset);
    } else {
      var first, next := Written(s.f, offset, records[0], true), OffsetAfter(s.f, offset, |records[0]|);
      StandsApart(file, pos, first, LogOf(s.f, next, records[1..]));
      if s.kind == Mapped && records[0] == [] && records[1..] == [] {
        EmptyLastRecord(s, file, pos, offset);
      } else {
        GatherUndoes(s, file, pos, offset, records[0], true, []);
        assert [] + records[0] == records[0];
        ReadAllUndoes(s, file, pos + |first|, next, records[1..]);
        assert [records[0]] + Readable(s.kind, records[1..]) == Readable(s.kind, records);
      }
    }
  }

  /** What a fresh reader gets back from a log: for every block size the format allows, every
      list of records, and with or without checking the sums. */
  lemma LogRoundTrip(s: Setup, records: seq<Bytes>)
    requires Usable(s.f)
    ensures ReadAll(s, LogOf(s.f, 0, records), 0, 0) == (Readable(s.kind, records), Eof)
  {
    ReadAllUndoes(s, LogOf(s.f, 0, records), 0, 0, records);
  }

  /** A log of one empty record, read from a mapped file: nothing comes back. */
  lemma MappedLosesEmptyRecord(f: Format, verify: bool)
    requires Usable(f)
    ensures ReadAll(Setup(f, Mapped, verify), LogOf(f, 0, [[]]), 0, 0) == ([], Eof)
  {
    LogRoundTrip(Setup(f, Mapped, verify), [[]]);
  }

  /** The round trip is exact if and only if the file is not mapped or does not end with an
      empty record. */
  lemma RoundTripIsExact(s: Setup, records: seq<Bytes>)
    requires Usable(s.f)
    ensures ReadAll(s, LogOf(s.f, 0, records), 0, 0).0 == records
       <==> s.kind == Plain || records == [] || records[|records| - 1] != []
  {
    LogRoundTrip(s, records);
  }

  // ----- a writer and a reader on the same file

  /** `Read` as long as it gives a record. */
  method ReadRecords(reader: LogReader) returns (records: seq<Bytes>, end: Outcome)
    requires !reader.eof
    modifies reader
    ensures (records, end) == ReadAll(reader.s, reader.file, old(reader.pos), old(reader.blockOffset))
  {
    hide Gather;
    var s, file := reader.s, reader.file;
    records := [];
    ghost var all := ReadAll(s, file, reader.pos, reader.blockOffset);
    assert [] + all.0 == all.0;
    while true
      invariant !reader.eof
      invariant all == (records + ReadAll(s, file, reader.pos, reader.blockOffset).0,
                        ReadAll(s, file, reader.pos, reader.blockOffset).1)
      decreases |file| - reader.pos
    {
      ghost var rest := ReadAll(s, file, reader.pos, reader.blockOffset);
      GatherAdvances(s, file, reader.pos, reader.blockOffset, [], true);
      end := reader.Read();
      if !end.Record? {
        assert records + [] == records;
        return;
      }
      assert records + rest.0 == records + [end.data] + rest.0[1..];
      records := records + [end.data];
    }
  }

  /** A fresh writer appends the records, and a fresh reader reads the file: it gets back what
      the file's kind lets through, and then the end. */
  method WriteAndRead(s: Setup, records: seq<Bytes>) returns (back: seq<Bytes>, end: Outcome)
    requires Usable(s.f)
    ensures back == Readable(s.kind, records) && end == Eof
  {
    hide Readable, ReadAll, LogOf, OffsetAfterAll;
    var writer := new LogWriter(s.f);
    for i := 0 to |records|
      invariant writer.Valid() && fresh(writer) && writer.f == s.f && writer.records == records[..i]
    {
      writer.Append(records[i]);
    }
    assert records[..|records|] == records;
    var reader := new LogReader(s, writer.file);
    back, end := ReadRecords(reader);
    LogRoundTrip(s, records);
  }
}
