/** Pages of the Bw-tree: chains of delta records over a base line.

    The plain reading of a chain replays its records, oldest first, on a copy of the
    base line (`MakeView`).  The fast reading used on the way down looks only at the
    records and at two binary searches of the base line (`InnerFindGreaterOrEqual`). */
module BwPage {
  import opened Common
  import opened SortedEntries

  /** What every record caches about the page below it. */
  datatype Meta = Meta(size: nat, depth: nat, sibling: Pid, smallest: Key, largest: Key)

  datatype Node =
    | BaseLine(meta: Meta, overflow: Pid, entries: seq<Entry>)
    | DeltaKey(meta: Meta, key: Key, base: Node)
    | DeltaIndex(meta: Meta, key: Key, lhs: Pid, rhs: Pid, base: Node)
    | SplitNode(meta: Meta, separator: Key, splited: Pid, base: Node)

  /** The contents of a page: keys in order, the child left of each key, and the child right of all. */
  datatype View = View(entries: seq<Entry>, overflow: Pid)

  function ChildAt(v: View, i: nat): Pid
    requires i <= |v.entries|
  {
    if i < |v.entries| then v.entries[i].child else v.overflow
  }

  /** A separator with the children on its two sides, the right one in front of the next key. */
  function AddIndex(v: View, k: Key, lhs: Pid, rhs: Pid): View {
    var e := Emplace(v.entries, k, lhs);
    var i := Upper(e, k);
    if i == |e| then View(e, rhs) else View(e[i := Entry(e[i].key, rhs)], v.overflow)
  }

  /** One record on top of a view. */
  function Replay(v: View, x: Node): View {
    match x
    case BaseLine(_, _, _) => v
    case DeltaKey(_, k, _) => v.(entries := Emplace(v.entries, k, 0))
    case DeltaIndex(_, k, lhs, rhs, _) => AddIndex(v, k, lhs, rhs)
    case SplitNode(_, sep, _, _) =>
      var i := Lower(v.entries, sep);
      if Has(v.entries, sep) then View(v.entries[..i], v.entries[i].child) else v
  }

  /** The plain reading of a page. */
  function ViewOf(x: Node): View {
    if x.BaseLine? then View(x.entries, x.overflow) else Replay(ViewOf(x.base), x)
  }

  /** Records fit what they are put on: the base line is sorted, added keys are new,
      and a split names a key that is there. */
  ghost predicate Linked(x: Node) {
    match x
    case BaseLine(_, _, entries) => Sorted(entries)
    case DeltaKey(_, k, base) => Linked(base) && !Has(ViewOf(base).entries, k)
    case DeltaIndex(_, k, _, _, base) => Linked(base) && !Has(ViewOf(base).entries, k)
    case SplitNode(_, sep, _, base) => Linked(base) && Has(ViewOf(base).entries, sep)
  }

  ghost function Depth(x: Node): nat {
    if x.BaseLine? then 0 else Depth(x.base) + 1
  }

  /** The cached metadata is what the view says. */
  ghost predicate MetaMatches(x: Node) {
    var e := ViewOf(x).entries;
    && x.meta.size == |e|
    && x.meta.depth == Depth(x)
    && (e != [] ==> x.meta.smallest == e[0].key && x.meta.largest == e[|e| - 1].key)
  }

  ghost predicate Page(x: Node) {
    Linked(x) && MetaMatches(x) && (!x.BaseLine? ==> Page(x.base))
  }

  lemma EmplaceSorted(s: seq<Entry>, k: Key, c: Pid)
    requires Sorted(s) && !Has(s, k)
    ensures Sorted(Emplace(s, k, c)) && Emplace(s, k, c) == Assign(s, k, c)
    ensures Lower(Emplace(s, k, c), k) == Lower(s, k)
    ensures Upper(Emplace(s, k, c), k) == Lower(s, k) + 1
  {
    AssignSorted(s, k, c);
    UpperIs(Emplace(s, k, c), k, Lower(s, k) + 1);
  }

  lemma ReplaySorted(v: View, x: Node)
    requires Sorted(v.entries)
    ensures Sorted(Replay(v, x).entries)
  {
    if x.DeltaKey? && !Has(v.entries, x.key) {
      EmplaceSorted(v.entries, x.key, 0);
    } else if x.DeltaIndex? && !Has(v.entries, x.key) {
      EmplaceSorted(v.entries, x.key, x.lhs);
    }
  }

  lemma {:induction false} ViewSorted(x: Node)
    requires Linked(x)
    ensures Sorted(ViewOf(x).entries)
  {
    if !x.BaseLine? {
      ViewSorted(x.base);
      ReplaySorted(ViewOf(x.base), x);
    }
  }

  // ----- the binary searches of a base line

  /** `LowerBound`: index and child of the first entry not below the key, or the overflow child. */
  method LowerBound(line: Node, key: Key) returns (idx: nat, pid: Pid, found: bool)
    requires line.BaseLine? && Sorted(line.entries)
    ensures idx == Lower(line.entries, key)
    ensures found == (idx < |line.entries|)
    ensures pid == ChildAt(ViewOf(line), idx)
  {
    var first, count := 0, |line.entries|;
    while count > 0
      invariant 0 <= first && 0 <= count && first + count <= |line.entries|
      invariant forall j :: 0 <= j < first ==> line.entries[j].key < key
      invariant forall j :: first + count <= j < |line.entries| ==> line.entries[j].key >= key
    {
      var i, step := first, count / 2;
      i := i + step;
      if line.entries[i].key < key {
        i := i + 1;
        first := i;
        count := count - (step + 1);
      } else {
        count := step;
      }
    }
    LowerIs(line.entries, key, first);
    found := first < |line.entries|;
    if found {
      return first, line.entries[first].child, found;
    }
    return |line.entries|, line.overflow, found;
  }

  /** `UpperBound`: the same for the first entry above the key. */
  method UpperBound(line: Node, key: Key) returns (idx: nat, pid: Pid, found: bool)
    requires line.BaseLine? && Sorted(line.entries)
    ensures idx == Upper(line.entries, key)
    ensures found == (idx < |line.entries|)
    ensures pid == ChildAt(ViewOf(line), idx)
  {
    var first, count := 0, |line.entries|;
    while count > 0
      invariant 0 <= first && 0 <= count && first + count <= |line.entries|
      invariant forall j :: 0 <= j < first ==> line.entries[j].key <= key
      invariant forall j :: first + count <= j < |line.entries| ==> line.entries[j].key > key
    {
      var i, step := first, count / 2;
      i := i + step;
      if !(key < line.entries[i].key) {
        i := i + 1;
        first := i;
        count := count - (step + 1);
      } else {
        count := step;
      }
    }
    UpperIs(line.entries, key, first);
    found := first < |line.entries|;
    if found {
      return first, line.entries[first].child, found;
    }
    return |line.entries|, line.overflow, found;
  }

  // ----- the plain reading

  /** The records of a chain, oldest first. */
  ghost function Records(x: Node): seq<Node> {
    if x.BaseLine? then [] else Records(x.base) + [x]
  }

  function BaseOf(x: Node): (b: Node)
    ensures b.BaseLine?
  {
    if x.BaseLine? then x else BaseOf(x.base)
  }

  ghost function ReplayAll(v: View, records: seq<Node>): View {
    if records == [] then v
    else Replay(ReplayAll(v, records[..|records| - 1]), records[|records| - 1])
  }

  lemma {:induction false} ViewReplaysRecords(x: Node)
    ensures ViewOf(x) == ReplayAll(ViewOf(BaseOf(x)), Records(x))
  {
    if !x.BaseLine? {
      ViewReplaysRecords(x.base);
      assert Records(x)[..|Records(x)| - 1] == Records(x.base);
    }
  }

  lemma {:induction false} LinkedBase(x: Node)
    requires Linked(x)
    ensures Linked(BaseOf(x))
  {
    if !x.BaseLine? {
      LinkedBase(x.base);
    }
  }

  /** Putting the entries of a sorted line into an empty map one by one gives the line back. */
  lemma AppendInOrder(s: seq<Entry>, e: Entry)
    requires Sorted(s) && (s != [] ==> s[|s| - 1].key < e.key)
    ensures Emplace(s, e.key, e.child) == s + [e]
  {
    LowerIs(s, e.key, |s|);
  }

  /** Walks down the chain, pushing each record in front of those above it. */
  method CollectRecords(node: Node) returns (records: seq<Node>, line: Node)
    ensures records == Records(node) && line == BaseOf(node)
  {
    records, line := [], node;
    while !line.BaseLine?
      invariant Records(node) == Records(line) + records && BaseOf(node) == BaseOf(line)
      decreases line
    {
      records := [line] + records;
      line := line.base;
    }
  }

  /** `MakeView`: replays the records, oldest first, on a copy of the base line. */
  method MakeView(node: Node) returns (v: View)
    requires Linked(node)
    ensures v == ViewOf(node)
  {
    var records, x := CollectRecords(node);
    LinkedBase(node);
    var entries: seq<Entry> := [];
    for i := 0 to |x.entries|
      invariant entries == x.entries[..i]
    {
      AppendInOrder(entries, x.entries[i]);
      entries := Emplace(entries, x.entries[i].key, x.entries[i].child);
    }
    assert entries == x.entries;
    v := View(entries, x.overflow);
    for i := 0 to |records|
      invariant v == ReplayAll(ViewOf(x), records[..i])
    {
      assert records[..i + 1][..i] == records[..i];
      v := Replay(v, records[i]);
    }
    assert records[..|records|] == records;
    ViewReplaysRecords(node);
  }

  // ----- the fast reading

  /** What an index record changes: its own key, and the child in front of the next key. */
  lemma IndexEntries(v: View, k: Key, lhs: Pid, rhs: Pid)
    requires Sorted(v.entries) && !Has(v.entries, k)
    ensures var e, w, u := v.entries, AddIndex(v, k, lhs, rhs), Upper(v.entries, k);
      && Sorted(w.entries) && u == Lower(e, k)
      && w.entries == (if u < |e| then Assign(Assign(e, k, lhs), e[u].key, rhs) else Assign(e, k, lhs))
      && w.overflow == (if u < |e| then v.overflow else rhs)
      && (u < |e| ==> e[u].key > k && Has(e, e[u].key))
  {
    var e := v.entries;
    EmplaceSorted(e, k, lhs);
    UpperIsLower(e, k);
    var e1, u := Assign(e, k, lhs), Upper(e, k);
    if u < |e| {
      assert e1[u + 1] == e[u];
      HasAt(e1, u + 1);
      HasAt(e, u);
      AssignSorted(e1, e[u].key, rhs);
    }
  }

  lemma IndexGet(v: View, k: Key, lhs: Pid, rhs: Pid, x: Key)
    requires Sorted(v.entries) && !Has(v.entries, k)
    ensures var e, w, u := v.entries, AddIndex(v, k, lhs, rhs).entries, Upper(v.entries, k);
      && (Has(w, x) <==> x == k || Has(e, x))
      && (Has(w, x) ==> Get(w, x) == if x == k then lhs else if u < |e| && x == e[u].key then rhs else Get(e, x))
  {
    var e, u := v.entries, Upper(v.entries, k);
    IndexEntries(v, k, lhs, rhs);
    AssignSorted(e, k, lhs);
    if x != k {
      AssignElsewhere(e, k, lhs, x);
    }
    if u < |e| {
      AssignSorted(Assign(e, k, lhs), e[u].key, rhs);
      if x != e[u].key {
        AssignElsewhere(Assign(e, k, lhs), e[u].key, rhs, x);
      }
    }
  }

  /** `partial` holds exactly what the records changed on the way from the base line to `v`. */
  ghost predicate TracksEntries(line: seq<Entry>, e: seq<Entry>, partial: seq<Entry>) {
    && UnionOf(e, line, partial)
    && (forall k {:trigger Has(partial, k)} :: Has(partial, k) ==> Get(partial, k) == Get(e, k))
    && (forall k {:trigger Has(e, k)} :: Has(e, k) && !Has(partial, k) ==> Get(e, k) == Get(line, k))
  }

  ghost function LastKey(s: seq<Entry>): Key
    requires s != []
  {
    s[|s| - 1].key
  }

  /** `tail` is the rightmost child if a record went past the base line. */
  ghost predicate TracksTail(line: Node, v: View, tail: Entry)
    requires line.BaseLine? && line.entries != []
  {
    && v.entries != []
    && var last := LastKey(line.entries);
       if LastKey(v.entries) > last
       then tail.key > last && tail.child == v.overflow
       else v.overflow == line.overflow && (tail.key > last ==> tail.child == line.overflow)
  }

  /** The two searches of the fast reading, together, are the search of the full view. */
  lemma SearchBoth(line: seq<Entry>, e: seq<Entry>, partial: seq<Entry>, key: Key)
    requires TracksEntries(line, e, partial)
    ensures var i, j, n := Lower(line, key), Lower(partial, key), Lower(e, key);
      && (n < |e| <==> i < |line| || j < |partial|)
      && (i < |line| && (j == |partial| || line[i].key < partial[j].key) ==> e[n].child == line[i].child)
      && (j < |partial| && (i == |line| || partial[j].key <= line[i].key) ==> e[n].child == partial[j].child)
  {
    LowerOfUnion(e, line, partial, key);
    var i, j, n := Lower(line, key), Lower(partial, key), Lower(e, key);
    if n < |e| {
      HasAt(e, n);
      if i < |line| && (j == |partial| || line[i].key < partial[j].key) {
        HasAt(line, i);
        assert !Has(partial, e[n].key);
      } else {
        HasAt(partial, j);
      }
    }
  }

  /** The partial map after one record, as the loop of the fast reading updates it. */
  function PartialAfter(line: Node, partial: seq<Entry>, rd: Node): seq<Entry>
    requires line.BaseLine? && rd.DeltaIndex?
  {
    var p := Assign(partial, rd.key, rd.lhs);
    var i, j := Upper(line.entries, rd.key), Upper(p, rd.key);
    if i < |line.entries| && (j == |p| || line.entries[i].key < p[j].key) then
      Assign(p, line.entries[i].key, rd.rhs)
    else if j < |p| then Assign(p, p[j].key, rd.rhs)
    else p
  }

  function TailAfter(partial: seq<Entry>, tail: Entry, rd: Node): Entry
    requires rd.DeltaIndex?
  {
    var p := Assign(partial, rd.key, rd.lhs);
    if Upper(p, rd.key) < |p| then tail else Entry(rd.key, rd.rhs)
  }

  lemma UpperAfterAssign(s: seq<Entry>, k: Key, c: Pid)
    requires Sorted(s) && !Has(s, k)
    ensures var p := Assign(s, k, c);
      Upper(p, k) - Upper(s, k) == 1 && p[Upper(p, k)..] == s[Upper(s, k)..]
  {
    AssignSorted(s, k, c);
    UpperIs(s, k, Lower(s, k));
    UpperIs(Assign(s, k, c), k, Lower(s, k) + 1);
  }

  /** The partial map after one record in terms of the next key of the full view. */
  lemma PartialIs(line: Node, e: seq<Entry>, partial: seq<Entry>, rd: Node)
    requires line.BaseLine? && TracksEntries(line.entries, e, partial)
    requires rd.DeltaIndex? && !Has(e, rd.key)
    ensures !Has(partial, rd.key) && !Has(line.entries, rd.key)
    ensures var p, u := Assign(partial, rd.key, rd.lhs), Upper(e, rd.key);
      PartialAfter(line, partial, rd) == if u < |e| then Assign(p, e[u].key, rd.rhs) else p
    ensures Upper(e, rd.key) < |e| <==> Upper(line.entries, rd.key) < |line.entries| || Upper(partial, rd.key) < |partial|
  {
    var k := rd.key;
    assert !Has(partial, k) && !Has(line.entries, k) by { assert !Has(e, k); }
    UpperAfterAssign(partial, k, rd.lhs);
    UpperIsLower(e, k);
    UpperIsLower(partial, k);
    UpperIsLower(line.entries, k);
    LowerOfUnion(e, line.entries, partial, k);
    var p := Assign(partial, k, rd.lhs);
    if Upper(partial, k) < |partial| {
      assert p[Upper(p, k)] == p[Upper(p, k)..][0] == partial[Upper(partial, k)..][0];
    }
  }

  lemma PartialGet(line: Node, e: seq<Entry>, partial: seq<Entry>, rd: Node, x: Key)
    requires line.BaseLine? && TracksEntries(line.entries, e, partial)
    requires rd.DeltaIndex? && !Has(e, rd.key)
    ensures var p, u := PartialAfter(line, partial, rd), Upper(e, rd.key);
      && Sorted(p)
      && (Has(p, x) <==> x == rd.key || Has(partial, x) || (u < |e| && x == e[u].key))
      && (Has(p, x) ==> Get(p, x) == if x == rd.key then rd.lhs
                                     else if u < |e| && x == e[u].key then rd.rhs
                                     else Get(partial, x))
  {
    PartialIs(line, e, partial, rd);
    var k, u := rd.key, Upper(e, rd.key);
    var p1 := Assign(partial, k, rd.lhs);
    AssignSorted(partial, k, rd.lhs);
    if x != k {
      AssignElsewhere(partial, k, rd.lhs, x);
    }
    if u < |e| {
      AssignSorted(p1, e[u].key, rd.rhs);
      if x != e[u].key {
        AssignElsewhere(p1, e[u].key, rd.rhs, x);
      }
    }
  }

  lemma AbsorbEntries(line: Node, v: View, partial: seq<Entry>, rd: Node)
    requires line.BaseLine? && TracksEntries(line.entries, v.entries, partial)
    requires rd.DeltaIndex? && !Has(v.entries, rd.key)
    ensures TracksEntries(line.entries, Replay(v, rd).entries, PartialAfter(line, partial, rd))
  {
    var e, e', p' := v.entries, Replay(v, rd).entries, PartialAfter(line, partial, rd);
    IndexEntries(v, rd.key, rd.lhs, rd.rhs);
    PartialGet(line, e, partial, rd, rd.key);
    forall k
      ensures Has(e', k) <==> Has(line.entries, k) || Has(p', k)
      ensures Has(p', k) ==> Has(e', k) && Get(p', k) == Get(e', k)
      ensures Has(e', k) && !Has(p', k) ==> Has(line.entries, k) && Get(e', k) == Get(line.entries, k)
    {
      IndexGet(v, rd.key, rd.lhs, rd.rhs, k);
      PartialGet(line, e, partial, rd, k);
      assert Has(e, k) <==> Has(line.entries, k) || Has(partial, k);
    }
  }

  lemma LastAfterIndex(v: View, rd: Node)
    requires Sorted(v.entries) && v.entries != [] && rd.DeltaIndex? && !Has(v.entries, rd.key)
    ensures var e := Replay(v, rd).entries;
      e != [] && LastKey(e) == if rd.key > LastKey(v.entries) then rd.key else LastKey(v.entries)
    ensures Upper(v.entries, rd.key) < |v.entries| <==> rd.key < LastKey(v.entries)
  {
    EmplaceSorted(v.entries, rd.key, rd.lhs);
    HasAt(v.entries, |v.entries| - 1);
  }

  lemma LastOfUnion(e: seq<Entry>, a: seq<Entry>, b: seq<Entry>)
    requires UnionOf(e, a, b) && a != [] && e != []
    ensures LastKey(a) <= LastKey(e)
    ensures LastKey(e) == LastKey(a) || (b != [] && LastKey(e) == LastKey(b))
  {
    HasAt(a, |a| - 1);
    HasAt(e, |e| - 1);
    assert Has(e, LastKey(a)) && Has(e, LastKey(e));
    if b != [] {
      HasAt(b, |b| - 1);
      assert Has(e, LastKey(b));
    }
  }

  lemma AbsorbTail(line: Node, v: View, partial: seq<Entry>, tail: Entry, rd: Node)
    requires line.BaseLine? && line.entries != [] && rd.DeltaIndex? && !Has(v.entries, rd.key)
    requires TracksEntries(line.entries, v.entries, partial) && TracksTail(line, v, tail)
    ensures TracksTail(line, Replay(v, rd), TailAfter(partial, tail, rd))
  {
    var k := rd.key;
    IndexEntries(v, k, rd.lhs, rd.rhs);
    LastAfterIndex(v, rd);
    PartialIs(line, v.entries, partial, rd);
    UpperAfterAssign(partial, k, rd.lhs);
    LastOfUnion(v.entries, line.entries, partial);
    HasAt(line.entries, |line.entries| - 1);
    if partial != [] {
      HasAt(partial, |partial| - 1);
    }
  }

  /** Each record of a chain finds its key absent from what lies below it. */
  lemma {:induction false} RecordFits(node: Node, i: nat)
    requires Linked(node) && i < |Records(node)|
    ensures var rd, v := Records(node)[i], ReplayAll(ViewOf(BaseOf(node)), Records(node)[..i]);
      rd.DeltaIndex? ==> !Has(v.entries, rd.key)
  {
    var records := Records(node.base);
    if i < |records| {
      RecordFits(node.base, i);
      assert Records(node)[..i] == records[..i];
    } else {
      assert Records(node)[..i] == records;
      ViewReplaysRecords(node.base);
    }
  }

  /** `FindGreaterOrEqual` on one page, by way of the plain reading. */
  method FindGreaterOrEqual(node: Node, key: Key) returns (idx: nat, pid: Pid, found: bool)
    requires Linked(node)
    ensures idx == Lower(ViewOf(node).entries, key)
    ensures found == (idx < |ViewOf(node).entries|)
    ensures pid == ChildAt(ViewOf(node), idx)
  {
    if node.BaseLine? {
      idx, pid, found := LowerBound(node, key);
      return;
    }
    var v := MakeView(node);
    idx := Lower(v.entries, key);
    found := idx < |v.entries|;
    pid := if found then v.entries[idx].child else v.overflow;
  }

  /** One round of the loop of the fast reading over the records. */
  method Absorb(line: Node, ghost v: View, partial: seq<Entry>, tail: Entry, rd: Node)
    returns (p: seq<Entry>, t: Entry)
    requires line.BaseLine? && line.entries != [] && rd.DeltaIndex? && !Has(v.entries, rd.key)
    requires TracksEntries(line.entries, v.entries, partial) && TracksTail(line, v, tail)
    ensures TracksEntries(line.entries, Replay(v, rd).entries, p) && TracksTail(line, Replay(v, rd), t)
  {
    AbsorbEntries(line, v, partial, rd);
    AbsorbTail(line, v, partial, tail, rd);
    p, t := Assign(partial, rd.key, rd.lhs), tail;
    var idx, _, innerFound := UpperBound(line, rd.key);
    var iter := Upper(p, rd.key);
    if iter != |p| {
      if innerFound && line.entries[idx].key < p[iter].key {
        p := Assign(p, line.entries[idx].key, rd.rhs);
      } else {
        p := Assign(p, p[iter].key, rd.rhs);
      }
    } else {
      if innerFound {
        p := Assign(p, line.entries[idx].key, rd.rhs);
      }
      t := Entry(rd.key, rd.rhs);
    }
  }

  /** Before any record nothing is tracked. */
  lemma TracksNothing(line: Node, tail: Entry)
    requires line.BaseLine? && Sorted(line.entries) && line.entries != [] && tail.child == line.overflow
    ensures TracksEntries(line.entries, ViewOf(line).entries, []) && TracksTail(line, ViewOf(line), tail)
  {
    assert forall k :: !Has([], k);
  }

  /** The view below the i-th record, and that the record fits it. */
  lemma RecordStep(node: Node, i: nat)
    requires Linked(node) && i < |Records(node)| && Records(node)[i].DeltaIndex?
    ensures var v, rd := ReplayAll(ViewOf(BaseOf(node)), Records(node)[..i]), Records(node)[i];
      && !Has(v.entries, rd.key)
      && ReplayAll(ViewOf(BaseOf(node)), Records(node)[..i + 1]) == Replay(v, rd)
  {
    RecordFits(node, i);
    assert Records(node)[..i + 1][..i] == Records(node)[..i];
  }

  /** The whole loop: what a chain of index records changed, and its rightmost child. */
  method PartialView(ghost node: Node, line: Node, records: seq<Node>) returns (partial: seq<Entry>, tail: Entry)
    requires Linked(node) && line == BaseOf(node) && line.entries != []
    requires records == Records(node) && forall i :: 0 <= i < |records| ==> records[i].DeltaIndex?
    ensures TracksEntries(line.entries, ViewOf(node).entries, partial)
    ensures TracksTail(line, ViewOf(node), tail)
  {
    LinkedBase(node);
    partial, tail := [], Entry(0.0, line.overflow);
    TracksNothing(line, tail);
    for i := 0 to |records|
      invariant var v := ReplayAll(ViewOf(line), records[..i]);
        TracksEntries(line.entries, v.entries, partial) && TracksTail(line, v, tail)
    {
      RecordStep(node, i);
      partial, tail := Absorb(line, ReplayAll(ViewOf(line), records[..i]), partial, tail, records[i]);
    }
    assert records[..|records|] == records;
    ViewReplaysRecords(node);
  }

  /** The searches that end the fast reading. */
  method SearchPartial(line: Node, ghost v: View, partial: seq<Entry>, tail: Entry, key: Key)
    returns (pid: Pid, found: bool)
    requires line.BaseLine? && line.entries != [] && line.meta.largest == LastKey(line.entries)
    requires TracksEntries(line.entries, v.entries, partial) && TracksTail(line, v, tail)
    ensures var n := Lower(v.entries, key);
      pid == ChildAt(v, n) && found == (n < |v.entries|)
  {
    SearchBoth(line.entries, v.entries, partial, key);
    LastOfUnion(v.entries, line.entries, partial);
    var idx, p, innerFound := LowerBound(line, key);
    var iter := Lower(partial, key);
    if innerFound && iter != |partial| {
      found := true;
      pid := if line.entries[idx].key < partial[iter].key then p else partial[iter].child;
    } else if innerFound {
      found, pid := true, p;
    } else if iter != |partial| {
      found, pid := true, partial[iter].child;
    } else {
      found := false;
      pid := if tail.key > line.meta.largest then tail.child else line.overflow;
    }
  }

  /** The walk of the fast reading: it only works if every record is an index record. */
  method CollectIndexRecords(node: Node) returns (ok: bool, records: seq<Node>, line: Node)
    ensures ok ==> records == Records(node) && line == BaseOf(node)
    ensures ok ==> forall i :: 0 <= i < |records| ==> records[i].DeltaIndex?
    ensures ok ==> node.BaseLine? || node.DeltaIndex?
  {
    records, line := [], node;
    while !line.BaseLine?
      invariant Records(node) == Records(line) + records && BaseOf(node) == BaseOf(line)
      invariant forall i :: 0 <= i < |records| ==> records[i].DeltaIndex?
      invariant if records == [] then line == node else node.DeltaIndex?
      decreases line
    {
      if !line.DeltaIndex? {
        return false, records, line;
      }
      records := [line] + records;
      line := line.base;
    }
    ok := true;
  }

  lemma {:induction false} PageBase(x: Node)
    requires Page(x)
    ensures Page(BaseOf(x))
  {
    if !x.BaseLine? {
      PageBase(x.base);
    }
  }

  /** `InnerFindGreaterOrEqual`: on every inner page the fast reading gives the child and
      the found flag that the search of the full view gives. */
  method InnerFindGreaterOrEqual(node: Node, key: Key) returns (pid: Pid, found: bool)
    requires Page(node) && (node.DeltaIndex? ==> BaseOf(node).entries != [])
    ensures node.DeltaKey? ==> pid == 0 && !found
    ensures !node.DeltaKey? ==>
      var n := Lower(ViewOf(node).entries, key);
      pid == ChildAt(ViewOf(node), n) && found == (n < |ViewOf(node).entries|)
  {
    if node.DeltaKey? {
      return 0, false;
    }
    if node.BaseLine? {
      var _, p, f := LowerBound(node, key);
      return p, f;
    }
    var ok, records, line := CollectIndexRecords(node);
    if !ok {
      var _, p, f := FindGreaterOrEqual(node, key);
      return p, f;
    }
    assert line.meta.largest == LastKey(line.entries) by { PageBase(node); }
    var partial, tail := PartialView(node, line, records);
    pid, found := SearchPartial(line, ViewOf(node), partial, tail, key);
  }

  // ----- building records

  /** `UpdateByBase`: bounds and depth of a record from those of the page it is put on. */
  function OnTopOf(size: nat, smallest: Key, largest: Key, base: Meta): Meta {
    Meta(size, base.depth + 1, base.sibling,
         if base.size > 0 && smallest > base.smallest then base.smallest else smallest,
         if base.size > 0 && largest < base.largest then base.largest else largest)
  }

  function NewDeltaKey(key: Key, base: Node): Node {
    DeltaKey(OnTopOf(base.meta.size + 1, key, key, base.meta), key, base)
  }

  function NewDeltaIndex(key: Key, lhs: Pid, rhs: Pid, base: Node): Node {
    DeltaIndex(OnTopOf(base.meta.size + 1, key, key, base.meta), key, lhs, rhs, base)
  }

  /** `NewSplitNode`, with the two corrections that `SplitInner` makes to it. */
  function NewSplitNode(size: nat, separator: Key, splited: Pid, beforeSeparator: Key, base: Node): Node {
    var meta := OnTopOf(size, base.meta.smallest, separator, base.meta);
    SplitNode(meta.(sibling := splited, largest := beforeSeparator), separator, splited, base)
  }

  /** `NewBaseLine`, filled with a view, after `UpdateBound`. */
  function NewBaseLine(v: View, sibling: Pid): Node
    requires v.entries != []
  {
    var e := v.entries;
    BaseLine(Meta(|e|, 0, sibling, e[0].key, e[|e| - 1].key), v.overflow, e)
  }

  lemma EmplaceEnds(s: seq<Entry>, k: Key, c: Pid)
    requires Sorted(s) && !Has(s, k)
    ensures var e := Emplace(s, k, c);
      && |e| == |s| + 1
      && e[0].key == (if s == [] || k < s[0].key then k else s[0].key)
      && e[|s|].key == (if s == [] || k > s[|s| - 1].key then k else s[|s| - 1].key)
  {
    EmplaceSorted(s, k, c);
    if s != [] {
      HasAt(s, 0);
      HasAt(s, |s| - 1);
    }
  }

  lemma DeltaKeyIsPage(key: Key, base: Node)
    requires Page(base) && !Has(ViewOf(base).entries, key)
    ensures Page(NewDeltaKey(key, base))
    ensures ViewOf(NewDeltaKey(key, base)) == ViewOf(base).(entries := Emplace(ViewOf(base).entries, key, 0))
  {
    ViewSorted(base);
    EmplaceEnds(ViewOf(base).entries, key, 0);
  }

  lemma DeltaIndexIsPage(key: Key, lhs: Pid, rhs: Pid, base: Node)
    requires Page(base) && !Has(ViewOf(base).entries, key)
    ensures Page(NewDeltaIndex(key, lhs, rhs, base))
    ensures ViewOf(NewDeltaIndex(key, lhs, rhs, base)) == AddIndex(ViewOf(base), key, lhs, rhs)
  {
    ViewSorted(base);
    EmplaceEnds(ViewOf(base).entries, key, lhs);
  }

  lemma SplitIsPage(base: Node, s: nat, q: Pid)
    requires Page(base) && 0 < s < |ViewOf(base).entries|
    ensures var v := ViewOf(base);
      var x := NewSplitNode(s, v.entries[s].key, q, v.entries[s - 1].key, base);
      Page(x) && ViewOf(x) == View(v.entries[..s], v.entries[s].child)
  {
    ViewSorted(base);
    HasAt(ViewOf(base).entries, s);
  }

  lemma LineIsPage(v: View, sibling: Pid)
    requires Sorted(v.entries) && v.entries != []
    ensures Page(NewBaseLine(v, sibling)) && ViewOf(NewBaseLine(v, sibling)) == v
  {
  }
}
