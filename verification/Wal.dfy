/** The write-ahead log: records cut into fragments that never cross a block. */
module Wal {

  import opened Common
  import opened Varint

  type Word32 = w: int | 0 <= w < 0x1_0000_0000

  const HEADER_SIZE: nat := 7

  const FULL: Byte := 1
  const FIRST: Byte := 2
  const MIDDLE: Byte := 3
  const LAST: Byte := 4

  /** The running checksum: its value so far and the bytes to add. */
  type Checksum = (Word32, Bytes) -> Word32

  /** How a file behaves at its end: a mapped file reports the end even to a read of no bytes. */
  datatype FileKind = Plain | Mapped

  datatype Format = Format(blockSize: nat, crc: Checksum)

  ghost predicate Usable(f: Format) {
    HEADER_SIZE < f.blockSize <= 0xFFFF + HEADER_SIZE
  }

  // ----- what is written

  function TypeOf(begin: bool, end: bool): Byte {
    if begin && end then FULL else if begin then FIRST else if end then LAST else MIDDLE
  }

  function Sum(f: Format, kind: Byte, data: Bytes): Word32 {
    f.crc(f.crc(0, [kind]), data)
  }

  function Fragment(f: Format, kind: Byte, data: Bytes): (bytes: Bytes)
    ensures |bytes| == HEADER_SIZE + |data|
  {
    Fixed(4, Sum(f, kind, data)) + Fixed(2, |data|) + [kind] + data
  }

  /** A fragment, byte by byte: the checksum of type and data, the length, the type and the data. */
  lemma FragmentFormat(f: Format, kind: Byte, data: Bytes)
    requires |data| <= 0xFFFF
    ensures var sum := f.crc(f.crc(0, [kind]), data);
      Fragment(f, kind, data)
      == [sum % 256, sum / 0x100 % 256, sum / 0x1_0000 % 256, sum / 0x100_0000, |data| % 256, |data| / 0x100, kind] + data
  {
    hide Fixed;
    var sum := f.crc(f.crc(0, [kind]), data);
    FixedBytes(sum);
    FixedBytes(|data|);
    assert sum / 0x100_0000 % 256 == sum / 0x100_0000 && |data| / 0x100 % 256 == |data| / 0x100;
  }

  /** The rest of a block that has no room for a header. */
  function Gap(f: Format, offset: nat): nat {
    if offset <= f.blockSize && f.blockSize - offset < HEADER_SIZE then f.blockSize - offset else 0
  }

  /** The offset behind the gap. */
  function Start(f: Format, offset: nat): nat {
    if offset <= f.blockSize && f.blockSize - offset < HEADER_SIZE then 0 else offset
  }

  function Cut(f: Format, offset: nat, left: nat): (length: nat)
    requires Usable(f) && offset <= f.blockSize
    ensures length <= left && Start(f, offset) + HEADER_SIZE + length <= f.blockSize
    ensures length < left ==> Start(f, offset) + HEADER_SIZE + length == f.blockSize
  {
    var avail := f.blockSize - Start(f, offset) - HEADER_SIZE;
    if left < avail then left else avail
  }

  function Zeros(n: nat): (bytes: Bytes)
    ensures |bytes| == n
  {
    seq(n, _ => 0)
  }

  /** The gap, if any, and the fragment behind it. */
  function Piece(f: Format, offset: nat, rest: Bytes, begin: bool): (bytes: Bytes)
    requires Usable(f) && offset <= f.blockSize
    ensures |bytes| == Gap(f, offset) + HEADER_SIZE + Cut(f, offset, |rest|)
  {
    var n := Cut(f, offset, |rest|);
    Zeros(Gap(f, offset)) + Fragment(f, TypeOf(begin, n == |rest|), rest[..n])
  }

  /** One turn of the writer, written out: a block with fewer than seven bytes left is filled with
      zeros, and the fragment takes what fits behind its header. */
  lemma PieceFormat(f: Format, offset: nat, rest: Bytes, begin: bool)
    requires Usable(f) && offset <= f.blockSize
    ensures var short := f.blockSize - offset < 7;
      var room := f.blockSize - (if short then 0 else offset) - 7;
      var n := if |rest| <= room then |rest| else room;
      var kind := if n == |rest| then (if begin then 1 else 4) else if begin then 2 else 3;
      Piece(f, offset, rest, begin)
      == seq(if short then f.blockSize - offset else 0, _ => 0) + Fragment(f, kind, rest[..n])
  {
    hide Fragment;
  }

  /** What appending a record (or the rest of one) writes at an offset in the block. */
  function Written(f: Format, offset: nat, data: Bytes, begin: bool): (bytes: Bytes)
    requires Usable(f) && offset <= f.blockSize
    ensures |bytes| >= HEADER_SIZE
    decreases |data|, Start(f, offset)
  {
    var n := Cut(f, offset, |data|);
    if n == |data| then Piece(f, offset, data, begin)
    else Piece(f, offset, data, begin) + Written(f, Start(f, offset) + HEADER_SIZE + n, data[n..], false)
  }

  /** The offset in the block that leaves. */
  function OffsetAfter(f: Format, offset: nat, left: nat): (next: nat)
    requires Usable(f) && offset <= f.blockSize
    ensures next <= f.blockSize
    decreases left, Start(f, offset)
  {
    var n := Cut(f, offset, left);
    if n == left then Start(f, offset) + HEADER_SIZE + n
    else OffsetAfter(f, Start(f, offset) + HEADER_SIZE + n, left - n)
  }

  lemma WrittenLast(f: Format, offset: nat, data: Bytes, begin: bool)
    requires Usable(f) && offset <= f.blockSize && Cut(f, offset, |data|) == |data|
    ensures Written(f, offset, data, begin) == Piece(f, offset, data, begin)
    ensures OffsetAfter(f, offset, |data|) == Start(f, offset) + HEADER_SIZE + |data|
  {
    hide Piece, Gap;
  }

  lemma WrittenMore(f: Format, offset: nat, data: Bytes, begin: bool)
    requires Usable(f) && offset <= f.blockSize && Cut(f, offset, |data|) < |data|
    ensures var n := Cut(f, offset, |data|);
      var next := Start(f, offset) + HEADER_SIZE + n;
      && Written(f, offset, data, begin) == Piece(f, offset, data, begin) + Written(f, next, data[n..], false)
      && OffsetAfter(f, offset, |data|) == OffsetAfter(f, next, |data| - n)
  {
    hide Piece, Gap;
  }

  /** A whole log. */
  function LogOf(f: Format, offset: nat, records: seq<Bytes>): Bytes
    requires Usable(f) && offset <= f.blockSize
    decreases |records|
  {
    if records == [] then []
    else Written(f, offset, records[0], true) + LogOf(f, OffsetAfter(f, offset, |records[0]|), records[1..])
  }

  function OffsetAfterAll(f: Format, offset: nat, records: seq<Bytes>): (next: nat)
    requires Usable(f) && offset <= f.blockSize
    ensures next <= f.blockSize
    decreases |records|
  {
    if records == [] then offset else OffsetAfterAll(f, OffsetAfter(f, offset, |records[0]|), records[1..])
  }

  lemma {:induction false} LogOfAppended(f: Format, offset: nat, records: seq<Bytes>, record: Bytes)
    requires Usable(f) && offset <= f.blockSize
    ensures var at := OffsetAfterAll(f, offset, records);
      && LogOf(f, offset, records + [record]) == LogOf(f, offset, records) + Written(f, at, record, true)
      && OffsetAfterAll(f, offset, records + [record]) == OffsetAfter(f, at, |record|)
    decreases |records|
  {
    if records == [] {
      assert (records + [record])[1..] == [];
    } else {
      assert (records + [record])[1..] == records[1..] + [record];
      LogOfAppended(f, OffsetAfter(f, offset, |records[0]|), records[1..], record);
    }
  }

  // ----- where fragments stand in the file

  /** A file position that is `offset` bytes into some block. */
  ghost predicate Aligned(f: Format, pos: nat, offset: nat) {
    exists q: nat :: pos == q * f.blockSize + offset
  }

  /** A stretch of the file that lies within one block. */
  ghost predicate InOneBlock(f: Format, from: nat, to: nat) {
    exists q: nat :: q * f.blockSize <= from <= to <= q * f.blockSize + f.blockSize
  }

  /** A fragment stays within its block, and the offset behind it is right again. */
  lemma PieceAligned(f: Format, pos: nat, offset: nat, left: nat)
    requires Usable(f) && offset <= f.blockSize && Aligned(f, pos, offset)
    ensures var n, at := Cut(f, offset, left), pos + Gap(f, offset);
      && InOneBlock(f, at, at + 7 + n)
      && Aligned(f, at + 7 + n, Start(f, offset) + 7 + n)
  {
    var q: nat :| pos == q * f.blockSize + offset;
    var n, at := Cut(f, offset, left), pos + Gap(f, offset);
    var block := if Gap(f, offset) > 0 || offset == f.blockSize then q + 1 else q;
    assert at == block * f.blockSize + Start(f, offset) by {
      assert (q + 1) * f.blockSize == q * f.blockSize + f.blockSize;
    }
    assert at + 7 + n == block * f.blockSize + (Start(f, offset) + 7 + n);
  }

  lemma {:induction false} WrittenAligned(f: Format, pos: nat, offset: nat, data: Bytes, begin: bool)
    requires Usable(f) && offset <= f.blockSize && Aligned(f, pos, offset)
    ensures Aligned(f, pos + |Written(f, offset, data, begin)|, OffsetAfter(f, offset, |data|))
    decreases |data|, Start(f, offset)
  {
    hide Piece, Aligned, InOneBlock;
    PieceAligned(f, pos, offset, |data|);
    var n := Cut(f, offset, |data|);
    if n == |data| {
      WrittenLast(f, offset, data, begin);
    } else {
      WrittenMore(f, offset, data, begin);
      WrittenAligned(f, pos + |Piece(f, offset, data, begin)|, Start(f, offset) + HEADER_SIZE + n, data[n..], false);
    }
  }

  /** In every log the block offset is the file position within its block. */
  lemma {:induction false} LogAligned(f: Format, pos: nat, offset: nat, records: seq<Bytes>)
    requires Usable(f) && offset <= f.blockSize && Aligned(f, pos, offset)
    ensures Aligned(f, pos + |LogOf(f, offset, records)|, OffsetAfterAll(f, offset, records))
    decreases |records|
  {
    hide Aligned, Written, OffsetAfter;
    if records != [] {
      WrittenAligned(f, pos, offset, records[0], true);
      LogAligned(f, pos + |Written(f, offset, records[0], true)|, OffsetAfter(f, offset, |records[0]|), records[1..]);
    }
  }

  class LogWriter {
    const f: Format
    var file: Bytes
    var blockOffset: nat
    ghost var records: seq<Bytes>

    ghost predicate Valid()
      reads this
    {
      && Usable(f) && blockOffset <= f.blockSize
      && file == LogOf(f, 0, records) && blockOffset == OffsetAfterAll(f, 0, records)
    }

    constructor (f: Format)
      requires Usable(f)
      ensures Valid() && this.f == f && records == []
    {
      this.f, file, blockOffset, records := f, [], 0, [];
    }

    method EmitPhysicalRecord(data: Bytes, kind: Byte)
      requires blockOffset + HEADER_SIZE + |data| <= f.blockSize && |data| <= 0xFFFF
      modifies this`file, this`blockOffset
      ensures file == old(file) + Fragment(f, kind, data)
      ensures var sum := f.crc(f.crc(0, [kind]), data);
        file[|old(file)|..] == [sum % 256, sum / 0x100 % 256, sum / 0x1_0000 % 256, sum / 0x100_0000, |data| % 256, |data| / 0x100, kind] + data
      ensures blockOffset == old(blockOffset) + HEADER_SIZE + |data|
    {
      hide Sum;
      ghost var before := file;
      file := file + Fixed(4, Sum(f, kind, data));
      file := file + Fixed(2, |data|);
      file := file + [kind];
      file := file + data;
      blockOffset := blockOffset + HEADER_SIZE + |data|;
      assert file == before + Fragment(f, kind, data);
      assert file[|before|..] == Fragment(f, kind, data);
      FragmentFormat(f, kind, data);
    }

    /** Fills a block that has no room for a header. */
    method FillGap()
      requires blockOffset <= f.blockSize
      modifies this`file, this`blockOffset
      ensures file == old(file) + Zeros(Gap(f, old(blockOffset)))
      ensures blockOffset == Start(f, old(blockOffset))
    {
      var leftOver := f.blockSize - blockOffset;
      if leftOver < HEADER_SIZE {
        if leftOver > 0 {
          file := file + Zeros(leftOver);
        }
        blockOffset := 0;
      }
    }

    /** One turn of `LogWriter::Append`: the gap, if any, and one fragment. */
    method AppendFragment(rest: Bytes, begin: bool) returns (length: nat)
      requires Usable(f) && blockOffset <= f.blockSize
      modifies this`file, this`blockOffset
      ensures length == Cut(f, old(blockOffset), |rest|)
      ensures file == old(file) + Piece(f, old(blockOffset), rest, begin)
      ensures blockOffset == Start(f, old(blockOffset)) + HEADER_SIZE + length
      ensures Aligned(f, old(|file|), old(blockOffset)) ==>
        Aligned(f, |file|, blockOffset) && InOneBlock(f, |file| - 7 - length, |file|)
    {
      hide Fragment, Aligned, InOneBlock, Zeros, Gap;
      if Aligned(f, |file|, blockOffset) {
        PieceAligned(f, |file|, blockOffset, |rest|);
      }
      FillGap();
      var avail := f.blockSize - blockOffset - HEADER_SIZE;
      length := if |rest| < avail then |rest| else avail;
      var end := |rest| == length;
      EmitPhysicalRecord(rest[..length], TypeOf(begin, end));
    }

    method AppendFragments(record: Bytes)
      requires Usable(f) && blockOffset <= f.blockSize
      modifies this`file, this`blockOffset
      ensures file == old(file) + Written(f, old(blockOffset), record, true)
      ensures blockOffset == OffsetAfter(f, old(blockOffset), |record|)
    {
      hide Piece, Written, OffsetAfter;
      var p, begin, more := 0, true, true;
      assert record[0..] == record;
      ghost var whole := file + Written(f, blockOffset, record, true);
      while more
        invariant blockOffset <= f.blockSize && p <= |record|
        invariant whole == if more then file + Written(f, blockOffset, record[p..], begin) else file
        invariant OffsetAfter(f, old(blockOffset), |record|)
                  == if more then OffsetAfter(f, blockOffset, |record| - p) else blockOffset
        decreases more, |record| - p, Start(f, blockOffset)
      {
        if Cut(f, blockOffset, |record[p..]|) == |record[p..]| {
          WrittenLast(f, blockOffset, record[p..], begin);
        } else {
          WrittenMore(f, blockOffset, record[p..], begin);
        }
        var length := AppendFragment(record[p..], begin);
        assert record[p..][length..] == record[p + length..];
        p := p + length;
        begin := false;
        more := p < |record|;
      }
    }

    /** `LogWriter::Append` on a file whose writes succeed. */
    method Append(record: Bytes)
      requires Valid()
      modifies this
      ensures Valid() && records == old(records) + [record]
    {
      hide Written, OffsetAfter, LogOf, OffsetAfterAll;
      AppendFragments(record);
      LogOfAppended(f, 0, records, record);
      records := records + [record];
    }
  }
}
