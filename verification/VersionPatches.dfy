/** Version patches, the records of the manifest: tagged fields, written and read back. */
module VersionPatches {

  import opened Common
  import opened Varint
  import opened WriteBatches

  // ----- a patch

  datatype Creation = Creation(cf: nat, level: int, number: nat, largest: Bytes, smallest: Bytes, size: nat, ctime: nat)

  datatype Deletion = Deletion(cf: nat, level: int, number: nat)

  /** The fields that are set; a patch has files to create or delete when there are any. */
  datatype Patch = Patch(
    prevLogNumber: Option<nat>,
    redoLog: Option<(nat, nat)>,
    nextFileNumber: Option<nat>,
    lastSequenceNumber: Option<nat>,
    redoLogNumber: Option<nat>,
    maxColumnFamily: Option<nat>,
    addColumnFamily: Option<(nat, Bytes, Bytes)>,
    dropColumnFamily: Option<nat>,
    compactionPoint: Option<(nat, int, Bytes)>,
    creations: seq<Creation>,
    deletions: seq<Deletion>)

  const EMPTY: Patch := Patch(None, None, None, None, None, None, None, None, None, [], [])

  const LAST_SEQUENCE_NUMBER: Byte := 0
  const NEXT_FILE_NUMBER: Byte := 1
  const REDO_LOG_NUMBER: Byte := 2
  const REDO_LOG: Byte := 3
  const PREV_LOG_NUMBER: Byte := 4
  const COMPACTION_POINT: Byte := 5
  const DELETION: Byte := 6
  const CREATION: Byte := 7
  const MAX_COLUMN_FAMILY: Byte := 8
  const ADD_COLUMN_FAMILY: Byte := 9
  const DROP_COLUMN_FAMILY: Byte := 10

  // ----- tagged fields

  datatype Kind = Narrow | Wide | Text

  datatype Part = Num32(n: nat) | Num64(n: nat) | Str(s: Bytes) {
    function KindOf(): Kind {
      if Num32? then Narrow else if Num64? then Wide else Text
    }
  }

  ghost predicate PartFits(part: Part) {
    if part.Num32? then part.n < TWO32 else if part.Num64? then part.n < TWO64 else |part.s| < TWO64
  }

  function PartBytes(part: Part): Bytes {
    if part.Str? then Framed(part.s) else Groups(part.n)
  }

  datatype Field = Field(tag: Byte, parts: seq<Part>)

  /** The parts that follow a tag. */
  function Schema(tag: Byte): Option<seq<Kind>> {
    if tag == LAST_SEQUENCE_NUMBER || tag == NEXT_FILE_NUMBER || tag == REDO_LOG_NUMBER || tag == PREV_LOG_NUMBER
    then Some([Wide])
    else if tag == REDO_LOG then Some([Narrow, Wide])
    else if tag == COMPACTION_POINT then Some([Narrow, Narrow, Text])
    else if tag == DELETION then Some([Narrow, Narrow, Wide])
    else if tag == CREATION then Some([Narrow, Narrow, Wide, Text, Text, Wide, Wide])
    else if tag == MAX_COLUMN_FAMILY || tag == DROP_COLUMN_FAMILY then Some([Narrow])
    else if tag == ADD_COLUMN_FAMILY then Some([Narrow, Text, Text])
    else None
  }

  predicate Matches(parts: seq<Part>, kinds: seq<Kind>) {
    |parts| == |kinds| && forall i :: 0 <= i < |parts| ==> parts[i].KindOf() == kinds[i]
  }

  /** A field whose parts are those of its tag. */
  predicate HasType(f: Field) {
    Schema(f.tag).Some? && Matches(f.parts, Schema(f.tag).value)
  }

  ghost predicate WellFormed(f: Field) {
    HasType(f) && forall i :: 0 <= i < |f.parts| ==> PartFits(f.parts[i])
  }

  function PartsBytes(parts: seq<Part>): Bytes {
    if parts == [] then [] else PartBytes(parts[0]) + PartsBytes(parts[1..])
  }

  function FieldBytes(f: Field): Bytes {
    [f.tag] + PartsBytes(f.parts)
  }

  function FieldsBytes(fields: seq<Field>): Bytes {
    if fields == [] then [] else FieldBytes(fields[0]) + FieldsBytes(fields[1..])
  }

  function ReadPart(buf: Bytes, pos: nat, kind: Kind): (r: Option<(Part, nat)>)
    requires pos <= |buf|
    ensures r.Some? ==> pos <= r.value.1 <= |buf| && r.value.0.KindOf() == kind && PartFits(r.value.0)
  {
    if kind == Text then
      match ReadString(buf, pos)
      case None => None
      case Some((s, next)) => Some((Str(s), next))
    else
      DecodedIsWord(buf, pos, 0);
      match DecodeFrom(buf, pos, 0)
      case None => None
      case Some((n, next)) => Some((if kind == Narrow then Num32(n % TWO32) else Num64(n), next))
  }

  function ReadParts(buf: Bytes, pos: nat, kinds: seq<Kind>): (r: Option<(seq<Part>, nat)>)
    requires pos <= |buf|
    ensures r.Some? ==> pos <= r.value.1 <= |buf| && Matches(r.value.0, kinds)
    ensures r.Some? ==> forall i :: 0 <= i < |r.value.0| ==> PartFits(r.value.0[i])
    decreases |kinds|
  {
    if kinds == [] then Some(([], pos))
    else
      match ReadPart(buf, pos, kinds[0])
      case None => None
      case Some((part, next)) =>
        match ReadParts(buf, next, kinds[1..])
        case None => None
        case Some((rest, end)) => Some(([part] + rest, end))
  }

  /** The tag and the reads of its case; `None` for an unknown tag or a field that is cut short. */
  function ReadField(buf: Bytes, pos: nat): (r: Option<(Field, nat)>)
    requires pos < |buf|
    ensures r.Some? ==> pos < r.value.1 <= |buf| && WellFormed(r.value.0)
  {
    match Schema(buf[pos])
    case None => None
    case Some(kinds) =>
      match ReadParts(buf, pos + 1, kinds)
      case None => None
      case Some((parts, next)) => Some((Field(buf[pos], parts), next))
  }

  lemma ReadPartUndoes(buf: Bytes, pos: nat, part: Part)
    requires PartFits(part) && StandsAt(buf, pos, PartBytes(part))
    ensures ReadPart(buf, pos, part.KindOf()) == Some((part, pos + |PartBytes(part)|))
  {
    hide Groups, DecodeFrom, ReadString, StandsAt, Framed;
    if part.Str? {
      ReadStringUndoes(buf, pos, part.s);
    } else {
      DecodeUndoesGroups(buf, pos, part.n);
    }
  }

  lemma {:induction false} ReadPartsUndoes(buf: Bytes, pos: nat, parts: seq<Part>, kinds: seq<Kind>)
    requires StandsAt(buf, pos, PartsBytes(parts)) && forall i :: 0 <= i < |parts| ==> PartFits(parts[i])
    requires Matches(parts, kinds)
    ensures ReadParts(buf, pos, kinds) == Some((parts, pos + |PartsBytes(parts)|))
    decreases |parts|
  {
    hide StandsAt, ReadPart, PartBytes, PartFits;
    if parts == [] {
      StandsWithin(buf, pos, PartsBytes(parts));
    } else {
      StandsApart(buf, pos, PartBytes(parts[0]), PartsBytes(parts[1..]));
      StandsWithin(buf, pos, PartsBytes(parts));
      ReadPartUndoes(buf, pos, parts[0]);
      ReadPartsUndoes(buf, pos + |PartBytes(parts[0])|, parts[1..], kinds[1..]);
      assert [parts[0]] + parts[1..] == parts;
    }
  }

  lemma ReadFieldUndoes(buf: Bytes, pos: nat, f: Field)
    requires WellFormed(f) && StandsAt(buf, pos, FieldBytes(f))
    ensures pos < |buf| && ReadField(buf, pos) == Some((f, pos + |FieldBytes(f)|))
  {
    hide StandsAt, ReadParts;
    StandsApart(buf, pos, [f.tag], PartsBytes(f.parts));
    StandsFirst(buf, pos, [f.tag]);
    ReadPartsUndoes(buf, pos + 1, f.parts, Schema(f.tag).value);
  }

  // ----- fields and patches

  /** Levels are signed and written as unsigned words. */
  function AsWord(level: int): nat {
    level % TWO32
  }

  function AsLevel(w: nat): int {
    if w < 0x8000_0000 then w else w - TWO32
  }

  predicate IsLevel(level: int) {
    -0x8000_0000 <= level < 0x8000_0000
  }

  ghost predicate IsWide(o: Option<nat>) {
    o.Some? ==> o.value < TWO64
  }

  ghost predicate IsNarrow(o: Option<nat>) {
    o.Some? ==> o.value < TWO32
  }

  /** The widths of the source's fields. */
  ghost predicate PatchFits(p: Patch) {
    && IsWide(p.prevLogNumber) && IsWide(p.nextFileNumber) && IsWide(p.lastSequenceNumber) && IsWide(p.redoLogNumber)
    && IsNarrow(p.maxColumnFamily) && IsNarrow(p.dropColumnFamily)
    && (p.redoLog.Some? ==> p.redoLog.value.0 < TWO32 && p.redoLog.value.1 < TWO64)
    && (p.addColumnFamily.Some? ==>
          p.addColumnFamily.value.0 < TWO32 && |p.addColumnFamily.value.1| < TWO64 && |p.addColumnFamily.value.2| < TWO64)
    && (p.compactionPoint.Some? ==>
          p.compactionPoint.value.0 < TWO32 && IsLevel(p.compactionPoint.value.1) && |p.compactionPoint.value.2| < TWO64)
    && (forall i :: 0 <= i < |p.creations| ==> CreationFits(p.creations[i]))
    && forall i :: 0 <= i < |p.deletions| ==> DeletionFits(p.deletions[i])
  }

  ghost predicate CreationFits(c: Creation) {
    c.cf < TWO32 && IsLevel(c.level) && c.number < TWO64 && |c.largest| < TWO64 && |c.smallest| < TWO64
    && c.size < TWO64 && c.ctime < TWO64
  }

  ghost predicate DeletionFits(d: Deletion) {
    d.cf < TWO32 && IsLevel(d.level) && d.number < TWO64
  }

  /** The setters that `Decode` calls. */
  function Set(p: Patch, f: Field): Patch
    requires HasType(f)
  {
    var a := f.parts;
    if f.tag == PREV_LOG_NUMBER then p.(prevLogNumber := Some(a[0].n))
    else if f.tag == REDO_LOG then p.(redoLog := Some((a[0].n, a[1].n)))
    else if f.tag == NEXT_FILE_NUMBER then p.(nextFileNumber := Some(a[0].n))
    else if f.tag == MAX_COLUMN_FAMILY then p.(maxColumnFamily := Some(a[0].n))
    else if f.tag == LAST_SEQUENCE_NUMBER then p.(lastSequenceNumber := Some(a[0].n))
    else if f.tag == REDO_LOG_NUMBER then p.(redoLogNumber := Some(a[0].n))
    else if f.tag == COMPACTION_POINT then p.(compactionPoint := Some((a[0].n, AsLevel(a[1].n), a[2].s)))
    else if f.tag == ADD_COLUMN_FAMILY then p.(addColumnFamily := Some((a[0].n, a[1].s, a[2].s)))
    else if f.tag == DROP_COLUMN_FAMILY then p.(dropColumnFamily := Some(a[0].n))
    else if f.tag == DELETION then p.(deletions := p.deletions + [Deletion(a[0].n, AsLevel(a[1].n), a[2].n)])
    else
      p.(creations := p.creations
         + [Creation(a[0].n, AsLevel(a[1].n), a[2].n, a[3].s, a[4].s, a[5].n, a[6].n)])
  }

  /** Fields whose parts are those of their tags. */
  ghost predicate Typed(fields: seq<Field>) {
    forall i :: 0 <= i < |fields| ==> HasType(fields[i])
  }

  ghost function SetAll(p: Patch, fields: seq<Field>): Patch
    requires Typed(fields)
    decreases |fields|
  {
    if fields == [] then p else SetAll(Set(p, fields[0]), fields[1..])
  }

  lemma {:induction false} SetBoth(p: Patch, a: seq<Field>, b: seq<Field>)
    requires Typed(a) && Typed(b)
    ensures SetAll(p, a + b) == SetAll(SetAll(p, a), b)
    decreases |a|
  {
    hide Set;
    if a == [] {
      assert a + b == b;
    } else {
      assert (a + b)[1..] == a[1..] + b;
      SetBoth(Set(p, a[0]), a[1..], b);
    }
  }

  function CreationField(c: Creation): (f: Field)
    ensures HasType(f)
  {
    Field(CREATION, [Num32(c.cf), Num32(AsWord(c.level)), Num64(c.number), Str(c.largest), Str(c.smallest),
                     Num64(c.size), Num64(c.ctime)])
  }

  function DeletionField(d: Deletion): (f: Field)
    ensures HasType(f)
  {
    Field(DELETION, [Num32(d.cf), Num32(AsWord(d.level)), Num64(d.number)])
  }

  function Creations(cs: seq<Creation>): (fields: seq<Field>)
    ensures |fields| == |cs| && Typed(fields)
  {
    seq(|cs|, i requires 0 <= i < |cs| => CreationField(cs[i]))
  }

  function Deletions(ds: seq<Deletion>): (fields: seq<Field>)
    ensures |fields| == |ds| && Typed(fields)
  {
    seq(|ds|, i requires 0 <= i < |ds| => DeletionField(ds[i]))
  }

  lemma CreationFieldSets(p: Patch, c: Creation)
    requires CreationFits(c)
    ensures WellFormed(CreationField(c))
    ensures Set(p, CreationField(c)) == p.(creations := p.creations + [c])
  {
  }

  lemma DeletionFieldSets(p: Patch, d: Deletion)
    requires DeletionFits(d)
    ensures WellFormed(DeletionField(d))
    ensures Set(p, DeletionField(d)) == p.(deletions := p.deletions + [d])
  {
  }

  lemma {:induction false} CreationsSet(p: Patch, cs: seq<Creation>)
    requires forall i :: 0 <= i < |cs| ==> CreationFits(cs[i])
    ensures forall i :: 0 <= i < |cs| ==> WellFormed(Creations(cs)[i])
    ensures SetAll(p, Creations(cs)) == p.(creations := p.creations + cs)
    decreases |cs|
  {
    hide Set, CreationField, CreationFits, WellFormed;
    forall i | 0 <= i < |cs|
      ensures WellFormed(Creations(cs)[i])
    {
      CreationFieldSets(p, cs[i]);
    }
    if cs == [] {
      assert p.creations + cs == p.creations;
    } else {
      CreationFieldSets(p, cs[0]);
      assert Creations(cs)[1..] == Creations(cs[1..]);
      CreationsSet(p.(creations := p.creations + [cs[0]]), cs[1..]);
      assert p.creations + [cs[0]] + cs[1..] == p.creations + cs;
    }
  }

  lemma {:induction false} DeletionsSet(p: Patch, ds: seq<Deletion>)
    requires forall i :: 0 <= i < |ds| ==> DeletionFits(ds[i])
    ensures forall i :: 0 <= i < |ds| ==> WellFormed(Deletions(ds)[i])
    ensures SetAll(p, Deletions(ds)) == p.(deletions := p.deletions + ds)
    decreases |ds|
  {
    hide Set, DeletionField, DeletionFits, WellFormed;
    forall i | 0 <= i < |ds|
      ensures WellFormed(Deletions(ds)[i])
    {
      DeletionFieldSets(p, ds[i]);
    }
    if ds == [] {
      assert p.deletions + ds == p.deletions;
    } else {
      DeletionFieldSets(p, ds[0]);
      assert Deletions(ds)[1..] == Deletions(ds[1..]);
      DeletionsSet(p.(deletions := p.deletions + [ds[0]]), ds[1..]);
      assert p.deletions + [ds[0]] + ds[1..] == p.deletions + ds;
    }
  }

  /** The single fields of a patch, by tag; for each, whether it is set and its parts. */
  function Single(p: Patch, tag: Byte): (f: Option<Field>)
    ensures f.Some? ==> f.value.tag == tag && HasType(f.value)
  {
    if tag == PREV_LOG_NUMBER && p.prevLogNumber.Some? then Some(Field(tag, [Num64(p.prevLogNumber.value)]))
    else if tag == REDO_LOG && p.redoLog.Some? then
      Some(Field(tag, [Num32(p.redoLog.value.0), Num64(p.redoLog.value.1)]))
    else if tag == NEXT_FILE_NUMBER && p.nextFileNumber.Some? then Some(Field(tag, [Num64(p.nextFileNumber.value)]))
    else if tag == LAST_SEQUENCE_NUMBER && p.lastSequenceNumber.Some? then
      Some(Field(tag, [Num64(p.lastSequenceNumber.value)]))
    else if tag == REDO_LOG_NUMBER && p.redoLogNumber.Some? then Some(Field(tag, [Num64(p.redoLogNumber.value)]))
    else if tag == MAX_COLUMN_FAMILY && p.maxColumnFamily.Some? then Some(Field(tag, [Num32(p.maxColumnFamily.value)]))
    else if tag == ADD_COLUMN_FAMILY && p.addColumnFamily.Some? then
      var (cf, name, comparator) := p.addColumnFamily.value;
      Some(Field(tag, [Num32(cf), Str(name), Str(comparator)]))
    else if tag == DROP_COLUMN_FAMILY && p.dropColumnFamily.Some? then
      Some(Field(tag, [Num32(p.dropColumnFamily.value)]))
    else if tag == COMPACTION_POINT && p.compactionPoint.Some? then
      var (cf, level, key) := p.compactionPoint.value;
      Some(Field(tag, [Num32(cf), Num32(AsWord(level)), Str(key)]))
    else None
  }

  /** The order in which the single fields are written. */
  const SINGLES: seq<Byte> := [PREV_LOG_NUMBER, REDO_LOG, NEXT_FILE_NUMBER, LAST_SEQUENCE_NUMBER, REDO_LOG_NUMBER,
                               MAX_COLUMN_FAMILY, ADD_COLUMN_FAMILY, DROP_COLUMN_FAMILY, COMPACTION_POINT]

  function Singles(p: Patch, n: nat): (fields: seq<Field>)
    requires n <= |SINGLES|
    ensures Typed(fields)
  {
    if n == 0 then []
    else
      match Single(p, SINGLES[n - 1])
      case None => Singles(p, n - 1)
      case Some(f) => Singles(p, n - 1) + [f]
  }

  /** All fields of a patch, in the order in which they are written. */
  function FieldsOf(p: Patch): (fields: seq<Field>)
    ensures Typed(fields)
  {
    Singles(p, |SINGLES|) + Creations(p.creations) + Deletions(p.deletions)
  }

  /** A patch with its first `n` single fields only. */
  ghost function Upto(p: Patch, n: nat): Patch {
    Patch(if n > 0 then p.prevLogNumber else None,
          if n > 1 then p.redoLog else None,
          if n > 2 then p.nextFileNumber else None,
          if n > 3 then p.lastSequenceNumber else None,
          if n > 4 then p.redoLogNumber else None,
          if n > 5 then p.maxColumnFamily else None,
          if n > 6 then p.addColumnFamily else None,
          if n > 7 then p.dropColumnFamily else None,
          if n > 8 then p.compactionPoint else None, [], [])
  }

  ghost predicate SingleIsSet(p: Patch, n: nat)
    requires n < |SINGLES|
  {
    match Single(p, SINGLES[n])
    case None => Upto(p, n + 1) == Upto(p, n)
    case Some(f) => WellFormed(f) && Set(Upto(p, n), f) == Upto(p, n + 1)
  }

  lemma FirstSinglesSet(p: Patch, n: nat)
    requires PatchFits(p) && 0 <= n < 3
    ensures SingleIsSet(p, n)
  {
  }

  lemma MiddleSinglesSet(p: Patch, n: nat)
    requires PatchFits(p) && 3 <= n < 6
    ensures SingleIsSet(p, n)
  {
  }

  lemma SeventhSingleSet(p: Patch)
    requires PatchFits(p)
    ensures SingleIsSet(p, 6)
  {
  }

  lemma EighthSingleSet(p: Patch)
    requires PatchFits(p)
    ensures SingleIsSet(p, 7)
  {
  }

  lemma NinthSingleSet(p: Patch)
    requires PatchFits(p)
    ensures SingleIsSet(p, 8)
  {
  }

  lemma SingleSets(p: Patch, n: nat)
    requires PatchFits(p) && n < |SINGLES|
    ensures SingleIsSet(p, n)
  {
    hide SingleIsSet;
    if n < 3 {
      FirstSinglesSet(p, n);
    } else if n < 6 {
      MiddleSinglesSet(p, n);
    } else if n == 6 {
      SeventhSingleSet(p);
    } else if n == 7 {
      EighthSingleSet(p);
    } else {
      NinthSingleSet(p);
    }
  }

  lemma {:induction false} SinglesSet(p: Patch, n: nat)
    requires PatchFits(p) && n <= |SINGLES|
    ensures forall i :: 0 <= i < |Singles(p, n)| ==> WellFormed(Singles(p, n)[i])
    ensures SetAll(EMPTY, Singles(p, n)) == Upto(p, n)
  {
    hide Single, Set, Upto, WellFormed, PatchFits;
    if n == 0 {
      NoneYet(p);
    } else {
      SinglesSet(p, n - 1);
      SingleSets(p, n - 1);
      match Single(p, SINGLES[n - 1]) {
        case None =>
        case Some(f) =>
          SetBoth(EMPTY, Singles(p, n - 1), [f]);
          assert SetAll(Upto(p, n - 1), [f]) == Set(Upto(p, n - 1), f);
      }
    }
  }

  lemma NoneYet(p: Patch)
    ensures Upto(p, 0) == EMPTY
  {
  }

  /** Setting the fields of a patch, one after the other, gives the patch. */
  lemma FieldsMakePatch(p: Patch)
    requires PatchFits(p)
    ensures forall i :: 0 <= i < |FieldsOf(p)| ==> WellFormed(FieldsOf(p)[i])
    ensures SetAll(EMPTY, FieldsOf(p)) == p
  {
    hide Set, WellFormed, SetAll, Singles, Creations, Deletions;
    var s, c, d := Singles(p, |SINGLES|), Creations(p.creations), Deletions(p.deletions);
    SinglesSet(p, |SINGLES|);
    var q := Upto(p, |SINGLES|);
    CreationsSet(q, p.creations);
    var r := q.(creations := q.creations + p.creations);
    DeletionsSet(r, p.deletions);
    SetBoth(EMPTY, s, c);
    SetBoth(EMPTY, s + c, d);
    assert [] + p.creations == p.creations && [] + p.deletions == p.deletions;
  }

  // ----- the record

  function DecodePatch(buf: Bytes, pos: nat, p: Patch): Option<Patch>
    requires pos <= |buf|
    decreases |buf| - pos
  {
    if pos == |buf| then Some(p)
    else
      match ReadField(buf, pos)
      case None => None
      case Some((f, next)) => DecodePatch(buf, next, Set(p, f))
  }

  lemma PartOfField(f: Field, i: nat)
    requires WellFormed(f) && i < |Schema(f.tag).value|
    ensures |f.parts| == |Schema(f.tag).value| && f.parts[i].KindOf() == Schema(f.tag).value[i] && PartFits(f.parts[i])
  {
  }

  lemma SetWideFits(p: Patch, f: Field)
    requires PatchFits(p) && WellFormed(f) && Schema(f.tag) == Some([Wide])
    ensures PatchFits(Set(p, f))
  {
    hide Matches, CreationFits, DeletionFits;
    PartOfField(f, 0);
  }

  lemma SetNarrowFits(p: Patch, f: Field)
    requires PatchFits(p) && WellFormed(f) && (f.tag == MAX_COLUMN_FAMILY || f.tag == DROP_COLUMN_FAMILY)
    ensures PatchFits(Set(p, f))
  {
    hide Matches, CreationFits, DeletionFits;
    PartOfField(f, 0);
  }

  lemma SetRedoLogFits(p: Patch, f: Field)
    requires PatchFits(p) && WellFormed(f) && f.tag == REDO_LOG
    ensures PatchFits(Set(p, f))
  {
    hide Matches, CreationFits, DeletionFits;
    PartOfField(f, 0);
    PartOfField(f, 1);
  }

  lemma SetTripleFits(p: Patch, f: Field)
    requires PatchFits(p) && WellFormed(f) && (f.tag == COMPACTION_POINT || f.tag == ADD_COLUMN_FAMILY)
    ensures PatchFits(Set(p, f))
  {
    hide Matches, CreationFits, DeletionFits;
    PartOfField(f, 0);
    PartOfField(f, 1);
    PartOfField(f, 2);
  }

  lemma SetDeletionFits(p: Patch, f: Field)
    requires PatchFits(p) && WellFormed(f) && f.tag == DELETION
    ensures PatchFits(Set(p, f))
  {
    hide Matches, CreationFits;
    PartOfField(f, 0);
    PartOfField(f, 1);
    PartOfField(f, 2);
  }

  lemma SetCreationFits(p: Patch, f: Field)
    requires PatchFits(p) && WellFormed(f) && f.tag == CREATION
    ensures PatchFits(Set(p, f))
  {
    hide Matches, DeletionFits;
    PartOfField(f, 0);
    PartOfField(f, 1);
    PartOfField(f, 2);
    PartOfField(f, 3);
    PartOfField(f, 4);
    PartOfField(f, 5);
    PartOfField(f, 6);
  }

  lemma SetKeepsWidths(p: Patch, f: Field)
    requires PatchFits(p) && WellFormed(f)
    ensures PatchFits(Set(p, f))
  {
    hide PatchFits, Set;
    if f.tag == DELETION {
      SetDeletionFits(p, f);
    } else if f.tag == CREATION {
      SetCreationFits(p, f);
    } else if f.tag == COMPACTION_POINT || f.tag == ADD_COLUMN_FAMILY {
      SetTripleFits(p, f);
    } else if f.tag == REDO_LOG {
      SetRedoLogFits(p, f);
    } else if f.tag == MAX_COLUMN_FAMILY || f.tag == DROP_COLUMN_FAMILY {
      SetNarrowFits(p, f);
    } else {
      SetWideFits(p, f);
    }
  }

  /** Whatever the bytes, a patch that is read has fields of the source's widths. */
  lemma {:induction false} DecodedFits(buf: Bytes, pos: nat, p: Patch)
    requires pos <= |buf| && PatchFits(p) && DecodePatch(buf, pos, p).Some?
    ensures PatchFits(DecodePatch(buf, pos, p).value)
    decreases |buf| - pos
  {
    hide ReadField, Set, PatchFits;
    if pos < |buf| {
      var (f, next) := ReadField(buf, pos).value;
      SetKeepsWidths(p, f);
      DecodedFits(buf, next, Set(p, f));
    }
  }

  lemma EmptyFits()
    ensures PatchFits(EMPTY)
  {
  }

  /** `VersionPatch::Decode`. */
  method Decode(buf: Bytes) returns (p: Option<Patch>)
    ensures p == DecodePatch(buf, 0, EMPTY)
    ensures p.Some? ==> PatchFits(p.value)
  {
    hide ReadField, Set, PatchFits;
    EmptyFits();
    if DecodePatch(buf, 0, EMPTY).Some? {
      DecodedFits(buf, 0, EMPTY);
    }
    var pos, patch := 0, EMPTY;
    while pos < |buf|
      invariant pos <= |buf| && DecodePatch(buf, 0, EMPTY) == DecodePatch(buf, pos, patch)
    {
      match ReadField(buf, pos) {
        case None => return None;
        case Some((f, next)) => pos, patch := next, Set(patch, f);
      }
    }
    return Some(patch);
  }

  method AppendPart(buf: Bytes, part: Part) returns (longer: Bytes)
    requires PartFits(part)
    ensures longer == buf + PartBytes(part)
  {
    hide Groups;
    var bytes;
    match part {
      case Num32(n) => bytes := Encode32(n);
      case Num64(n) => bytes := Encode64(n);
      case Str(s) => bytes := Encode64(|s|); bytes := bytes + s;
    }
    longer := buf + bytes;
  }

  method AppendField(buf: Bytes, f: Field) returns (longer: Bytes)
    requires WellFormed(f)
    ensures longer == buf + FieldBytes(f)
  {
    hide PartBytes, PartFits, HasType;
    longer := buf + [f.tag];
    assert f.parts[..0] == [];
    for i := 0 to |f.parts|
      invariant longer == buf + [f.tag] + PartsBytes(f.parts[..i])
    {
      PartsAppended(f.parts[..i], f.parts[i]);
      assert f.parts[..i + 1] == f.parts[..i] + [f.parts[i]];
      longer := AppendPart(longer, f.parts[i]);
    }
    assert f.parts[..|f.parts|] == f.parts;
  }

  lemma {:induction false} PartsAppended(parts: seq<Part>, part: Part)
    ensures PartsBytes(parts + [part]) == PartsBytes(parts) + PartBytes(part)
  {
    hide PartBytes;
    if parts == [] {
      assert (parts + [part])[1..] == [];
    } else {
      assert (parts + [part])[1..] == parts[1..] + [part];
      PartsAppended(parts[1..], part);
    }
  }

  lemma {:induction false} FieldsAppended(fields: seq<Field>, f: Field)
    ensures FieldsBytes(fields + [f]) == FieldsBytes(fields) + FieldBytes(f)
  {
    hide FieldBytes;
    if fields == [] {
      assert (fields + [f])[1..] == [];
    } else {
      assert (fields + [f])[1..] == fields[1..] + [f];
      FieldsAppended(fields[1..], f);
    }
  }

  method AppendSingles(p: Patch) returns (buf: Bytes)
    requires PatchFits(p)
    ensures buf == FieldsBytes(Singles(p, |SINGLES|))
  {
    hide Single, FieldBytes, FieldsBytes, WellFormed, PatchFits, Set, Upto;
    EmptyBytes();
    buf := [];
    for i := 0 to |SINGLES|
      invariant buf == FieldsBytes(Singles(p, i))
    {
      SingleSets(p, i);
      match Single(p, SINGLES[i]) {
        case None =>
        case Some(f) =>
          FieldsAppended(Singles(p, i), f);
          buf := AppendField(buf, f);
      }
    }
  }

  method AppendFields(buf: Bytes, ghost front: seq<Field>, fields: seq<Field>) returns (longer: Bytes)
    requires buf == FieldsBytes(front) && forall i :: 0 <= i < |fields| ==> WellFormed(fields[i])
    ensures longer == FieldsBytes(front + fields)
  {
    hide FieldBytes, FieldsBytes, WellFormed;
    longer := buf;
    assert front + fields[..0] == front;
    for i := 0 to |fields|
      invariant longer == FieldsBytes(front + fields[..i])
    {
      assert front + fields[..i + 1] == front + fields[..i] + [fields[i]];
      FieldsAppended(front + fields[..i], fields[i]);
      longer := AppendField(longer, fields[i]);
    }
    assert fields[..|fields|] == fields;
  }

  // ----- the record, written out

  ghost function NumberBytes(tag: Byte, o: Option<nat>): Bytes {
    if o.None? then [] else [tag] + Groups(o.value)
  }

  ghost function RedoLogBytes(o: Option<(nat, nat)>): Bytes {
    if o.None? then [] else [3] + Groups(o.value.0) + Groups(o.value.1)
  }

  ghost function AddColumnFamilyBytes(o: Option<(nat, Bytes, Bytes)>): Bytes {
    if o.None? then [] else [9] + Groups(o.value.0) + Framed(o.value.1) + Framed(o.value.2)
  }

  ghost function CompactionPointBytes(o: Option<(nat, int, Bytes)>): Bytes {
    if o.None? then [] else [5] + Groups(o.value.0) + Groups(o.value.1 % 0x1_0000_0000) + Framed(o.value.2)
  }

  ghost function CreationsBytes(cs: seq<Creation>): Bytes {
    if cs == [] then []
    else
      var c := cs[0];
      [7] + Groups(c.cf) + Groups(c.level % 0x1_0000_0000) + Groups(c.number) + Framed(c.largest) + Framed(c.smallest)
      + Groups(c.size) + Groups(c.ctime) + CreationsBytes(cs[1..])
  }

  ghost function DeletionsBytes(ds: seq<Deletion>): Bytes {
    if ds == [] then []
    else
      var d := ds[0];
      [6] + Groups(d.cf) + Groups(d.level % 0x1_0000_0000) + Groups(d.number) + DeletionsBytes(ds[1..])
  }

  /** The record of a patch, field by field, as the source writes it. */
  ghost function PatchBytes(p: Patch): Bytes {
    NumberBytes(4, p.prevLogNumber) + RedoLogBytes(p.redoLog) + NumberBytes(1, p.nextFileNumber)
    + NumberBytes(0, p.lastSequenceNumber) + NumberBytes(2, p.redoLogNumber) + NumberBytes(8, p.maxColumnFamily)
    + AddColumnFamilyBytes(p.addColumnFamily) + NumberBytes(10, p.dropColumnFamily)
    + CompactionPointBytes(p.compactionPoint)
    + CreationsBytes(p.creations) + DeletionsBytes(p.deletions)
  }

  ghost function OptionBytes(o: Option<Field>): Bytes {
    if o.None? then [] else FieldBytes(o.value)
  }

  lemma FewParts(a: Part, b: Part, c: Part)
    ensures PartsBytes([a]) == PartBytes(a)
    ensures PartsBytes([a, b]) == PartBytes(a) + PartBytes(b)
    ensures PartsBytes([a, b, c]) == PartBytes(a) + PartBytes(b) + PartBytes(c)
  {
    hide PartBytes;
    PartsPrefixed(a, []);
    PartsPrefixed(b, []);
    PartsPrefixed(c, []);
    PartsPrefixed(a, [b]);
    PartsPrefixed(b, [c]);
    PartsPrefixed(a, [b, c]);
    assert [a] == [a] + [] && [b] == [b] + [] && [c] == [c] + [] && [a, b] == [a] + [b] && [b, c] == [b] + [c];
    assert [a, b, c] == [a] + [b, c];
  }

  lemma PartsPrefixed(a: Part, parts: seq<Part>)
    ensures PartsBytes([]) == [] && PartsBytes([a] + parts) == PartBytes(a) + PartsBytes(parts)
  {
    assert ([a] + parts)[1..] == parts;
  }

  lemma NumberFormat(tag: Byte, n: nat)
    ensures FieldBytes(Field(tag, [Num64(n)])) == FieldBytes(Field(tag, [Num32(n)])) == NumberBytes(tag, Some(n))
  {
    hide PartsBytes, Groups;
    FewParts(Num64(n), Num64(n), Num64(n));
    FewParts(Num32(n), Num32(n), Num32(n));
  }

  lemma FirstNumbersFormat(p: Patch)
    ensures OptionBytes(Single(p, SINGLES[0])) == NumberBytes(4, p.prevLogNumber)
    ensures OptionBytes(Single(p, SINGLES[2])) == NumberBytes(1, p.nextFileNumber)
    ensures OptionBytes(Single(p, SINGLES[3])) == NumberBytes(0, p.lastSequenceNumber)
  {
    hide FieldBytes, Groups;
    if p.prevLogNumber.Some? {
      NumberFormat(4, p.prevLogNumber.value);
    }
    if p.nextFileNumber.Some? {
      NumberFormat(1, p.nextFileNumber.value);
    }
    if p.lastSequenceNumber.Some? {
      NumberFormat(0, p.lastSequenceNumber.value);
    }
  }

  lemma LastNumbersFormat(p: Patch)
    ensures OptionBytes(Single(p, SINGLES[4])) == NumberBytes(2, p.redoLogNumber)
    ensures OptionBytes(Single(p, SINGLES[5])) == NumberBytes(8, p.maxColumnFamily)
    ensures OptionBytes(Single(p, SINGLES[7])) == NumberBytes(10, p.dropColumnFamily)
  {
    hide FieldBytes, Groups;
    if p.redoLogNumber.Some? {
      NumberFormat(2, p.redoLogNumber.value);
    }
    if p.maxColumnFamily.Some? {
      NumberFormat(8, p.maxColumnFamily.value);
    }
    if p.dropColumnFamily.Some? {
      NumberFormat(10, p.dropColumnFamily.value);
    }
  }

  lemma RedoLogFormat(p: Patch)
    ensures OptionBytes(Single(p, SINGLES[1])) == RedoLogBytes(p.redoLog)
  {
    hide PartsBytes, Groups;
    if p.redoLog.Some? {
      FewParts(Num32(p.redoLog.value.0), Num64(p.redoLog.value.1), Num64(0));
    }
  }

  lemma AddColumnFamilyFormat(p: Patch)
    ensures OptionBytes(Single(p, SINGLES[6])) == AddColumnFamilyBytes(p.addColumnFamily)
  {
    hide PartsBytes, Groups, Framed;
    if p.addColumnFamily.Some? {
      var (cf, name, comparator) := p.addColumnFamily.value;
      FewParts(Num32(cf), Str(name), Str(comparator));
    }
  }

  lemma CompactionPointFormat(p: Patch)
    ensures OptionBytes(Single(p, SINGLES[8])) == CompactionPointBytes(p.compactionPoint)
  {
    hide PartsBytes, Groups, Framed;
    if p.compactionPoint.Some? {
      var (cf, level, key) := p.compactionPoint.value;
      FewParts(Num32(cf), Num32(AsWord(level)), Str(key));
    }
  }

  lemma SinglesStep(p: Patch, n: nat)
    requires n < |SINGLES|
    ensures FieldsBytes(Singles(p, 0)) == []
    ensures FieldsBytes(Singles(p, n + 1)) == FieldsBytes(Singles(p, n)) + OptionBytes(Single(p, SINGLES[n]))
  {
    hide Single, FieldBytes;
    match Single(p, SINGLES[n]) {
      case None =>
      case Some(f) => FieldsAppended(Singles(p, n), f);
    }
  }

  lemma CreationFormat(c: Creation)
    ensures FieldBytes(CreationField(c))
         == [7] + Groups(c.cf) + Groups(c.level % 0x1_0000_0000) + Groups(c.number) + Framed(c.largest) + Framed(c.smallest)
            + Groups(c.size) + Groups(c.ctime)
  {
    hide PartsBytes, Groups, Framed;
    SevenParts(Num32(c.cf), Num32(AsWord(c.level)), Num64(c.number), Str(c.largest), Str(c.smallest),
               Num64(c.size), Num64(c.ctime));
  }

  lemma SevenParts(a: Part, b: Part, c: Part, d: Part, e: Part, f: Part, g: Part)
    ensures PartsBytes([a, b, c, d, e, f, g])
         == PartBytes(a) + PartBytes(b) + PartBytes(c) + PartBytes(d) + PartBytes(e) + PartBytes(f) + PartBytes(g)
  {
    hide PartBytes;
    FewParts(e, f, g);
    PartsPrefixed(d, [e, f, g]);
    PartsPrefixed(c, [d, e, f, g]);
    PartsPrefixed(b, [c, d, e, f, g]);
    PartsPrefixed(a, [b, c, d, e, f, g]);
    assert [d, e, f, g] == [d] + [e, f, g] && [c, d, e, f, g] == [c] + [d, e, f, g];
    assert [b, c, d, e, f, g] == [b] + [c, d, e, f, g] && [a, b, c, d, e, f, g] == [a] + [b, c, d, e, f, g];
  }

  lemma DeletionFormat(d: Deletion)
    ensures FieldBytes(DeletionField(d)) == [6] + Groups(d.cf) + Groups(d.level % 0x1_0000_0000) + Groups(d.number)
  {
    hide PartsBytes, Groups;
    FewParts(Num32(d.cf), Num32(AsWord(d.level)), Num64(d.number));
  }

  lemma {:induction false} CreationsFormat(cs: seq<Creation>)
    ensures FieldsBytes(Creations(cs)) == CreationsBytes(cs)
  {
    hide FieldBytes, CreationField, Groups, Framed;
    if cs != [] {
      CreationsFormat(cs[1..]);
      CreationFormat(cs[0]);
      assert Creations(cs)[1..] == Creations(cs[1..]);
    }
  }

  lemma {:induction false} DeletionsFormat(ds: seq<Deletion>)
    ensures FieldsBytes(Deletions(ds)) == DeletionsBytes(ds)
  {
    hide FieldBytes, DeletionField, Groups;
    if ds != [] {
      DeletionsFormat(ds[1..]);
      DeletionFormat(ds[0]);
      assert Deletions(ds)[1..] == Deletions(ds[1..]);
    }
  }

  lemma {:induction false} FieldsOfBoth(a: seq<Field>, b: seq<Field>)
    ensures FieldsBytes(a + b) == FieldsBytes(a) + FieldsBytes(b)
  {
    hide FieldBytes;
    if a == [] {
      assert a + b == b;
    } else {
      assert (a + b)[1..] == a[1..] + b;
      FieldsOfBoth(a[1..], b);
    }
  }

  /** The tagged fields of a patch, in their order, are the record written out. */
  lemma PatchFormat(p: Patch)
    ensures FieldsBytes(FieldsOf(p)) == PatchBytes(p)
  {
    hide FieldsBytes, Singles, Single, OptionBytes, Creations, Deletions, CreationsBytes, DeletionsBytes;
    hide NumberBytes, RedoLogBytes, AddColumnFamilyBytes, CompactionPointBytes;
    SinglesFormat(p);
    var s, c, d := Singles(p, |SINGLES|), Creations(p.creations), Deletions(p.deletions);
    CreationsFormat(p.creations);
    DeletionsFormat(p.deletions);
    FieldsOfBoth(s, c);
    FieldsOfBoth(s + c, d);
  }

  lemma SinglesFormat(p: Patch)
    ensures FieldsBytes(Singles(p, |SINGLES|))
         == NumberBytes(4, p.prevLogNumber) + RedoLogBytes(p.redoLog) + NumberBytes(1, p.nextFileNumber)
            + NumberBytes(0, p.lastSequenceNumber) + NumberBytes(2, p.redoLogNumber) + NumberBytes(8, p.maxColumnFamily)
            + AddColumnFamilyBytes(p.addColumnFamily) + NumberBytes(10, p.dropColumnFamily)
            + CompactionPointBytes(p.compactionPoint)
  {
    hide FieldsBytes, Singles, Single, OptionBytes, NumberBytes, RedoLogBytes, AddColumnFamilyBytes, CompactionPointBytes;
    FirstNumbersFormat(p);
    LastNumbersFormat(p);
    RedoLogFormat(p);
    AddColumnFamilyFormat(p);
    CompactionPointFormat(p);
    SinglesStep(p, 0);
    SinglesStep(p, 1);
    SinglesStep(p, 2);
    SinglesStep(p, 3);
    SinglesStep(p, 4);
    SinglesStep(p, 5);
    SinglesStep(p, 6);
    SinglesStep(p, 7);
    SinglesStep(p, 8);
    assert [] + NumberBytes(4, p.prevLogNumber) == NumberBytes(4, p.prevLogNumber);
  }

  /** `VersionPatch::Encode`: the fields that are set, one after the other. */
  method Encode(p: Patch) returns (buf: Bytes)
    requires PatchFits(p)
    ensures buf == FieldsBytes(FieldsOf(p)) == PatchBytes(p)
  {
    hide PatchBytes, FieldsBytes, Singles, Creations, Deletions, WellFormed, SetAll;
    ghost var s := Singles(p, |SINGLES|);
    CreationsSet(EMPTY, p.creations);
    DeletionsSet(EMPTY, p.deletions);
    PatchFormat(p);
    buf := AppendSingles(p);
    buf := AppendFields(buf, s, Creations(p.creations));
    buf := AppendFields(buf, s + Creations(p.creations), Deletions(p.deletions));
  }

  lemma EmptyBytes()
    ensures FieldsBytes([]) == []
  {
  }

  lemma {:induction false} DecodeUndoesFields(buf: Bytes, pos: nat, fields: seq<Field>, p: Patch)
    requires StandsAt(buf, pos, FieldsBytes(fields)) && pos + |FieldsBytes(fields)| == |buf|
    requires forall i :: 0 <= i < |fields| ==> WellFormed(fields[i])
    ensures Typed(fields) && DecodePatch(buf, pos, p) == Some(SetAll(p, fields))
    decreases |fields|
  {
    hide StandsAt, ReadField, Set, FieldBytes;
    if fields != [] {
      StandsApart(buf, pos, FieldBytes(fields[0]), FieldsBytes(fields[1..]));
      ReadFieldUndoes(buf, pos, fields[0]);
      DecodeUndoesFields(buf, pos + |FieldBytes(fields[0])|, fields[1..], Set(p, fields[0]));
    }
  }

  /** Decoding the record of a patch gives the patch back. */
  lemma DecodeUndoesEncode(p: Patch)
    requires PatchFits(p)
    ensures DecodePatch(FieldsBytes(FieldsOf(p)), 0, EMPTY) == DecodePatch(PatchBytes(p), 0, EMPTY) == Some(p)
  {
    hide FieldsBytes, FieldsOf, SetAll, DecodePatch;
    PatchFormat(p);
    FieldsMakePatch(p);
    DecodeUndoesFields(FieldsBytes(FieldsOf(p)), 0, FieldsOf(p), EMPTY);
  }
}
