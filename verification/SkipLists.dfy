/** The skip list of the ordered memory table: searches, insertion store by store, cursors. */
module SkipLists {

  import opened Common
  import opened Cursors
  import opened SkipShape

  // ----- searching

  /** What a search looks for: a key, or the end of the list. */
  datatype Target = Of(entry: Entry) | End

  /** `KeyIsAfterNode`: no node sorts after all keys, and the end after all nodes. */
  predicate KeyIsAfterNode(s: State, key: Target, n: int) {
    0 <= n < |s.keys| && (key.End? || Before(s.keys[n], key.entry))
  }

  /** A search has come to a node of a level: the head, or one before the key. */
  ghost predicate OnPath(p: Snap, key: Target, x: int, level: int) {
    && 0 <= level < |p.levels|
    && (x == HEAD || (x in p.levels[level] && KeyIsAfterNode(p.s, key, x)))
  }

  /** Where a key belongs in the list of a level. */
  ghost function Place(p: Snap, key: Target, level: nat): (r: nat)
    requires Inv(p) && level < MAX_HEIGHT
    ensures r <= |p.levels[level]|
  {
    assert IsLevel(p.s, level, p.levels[level]);
    match key
    case Of(entry) => FirstNotBefore(Entries(p.s, p.levels[level]), entry)
    case End => |p.levels[level]|
  }

  /** The last node of a level before a key, or the head. */
  ghost function LastBefore(p: Snap, key: Target, level: nat): int
    requires Inv(p) && level < MAX_HEIGHT
  {
    NodeAt(p.levels[level], Place(p, key, level) - 1)
  }

  /** The first node of a level not before a key, if any. */
  ghost function FirstFrom(p: Snap, key: Target, level: nat): int
    requires Inv(p) && level < MAX_HEIGHT
  {
    NodeAt(p.levels[level], Place(p, key, level))
  }

  lemma PositionOf(p: Snap, key: Target, x: int, level: nat) returns (i: int)
    requires Inv(p) && OnPath(p, key, x, level)
    ensures -1 <= i < |p.levels[level]| && NodeAt(p.levels[level], i) == x && HasLevel(p.s, x, level)
    ensures i < Place(p, key, level)
  {
    var list := p.levels[level];
    assert IsLevel(p.s, level, list);
    if x == HEAD {
      i := -1;
    } else {
      i :| 0 <= i < |list| && list[i] == x;
      var e, r := Entries(p.s, list), Place(p, key, level);
      assert forall j :: 0 <= j < i ==> Before(e[j], e[i]);
    }
    assert HasLevel(p.s, NodeAt(list, i), level);
  }

  /** One step of a search at a node of its path: go on, or stop at the place of the key and go down. */
  lemma SearchStays(p: Snap, key: Target, x: int, level: nat)
    requires Inv(p) && OnPath(p, key, x, level)
    ensures HasLevel(p.s, x, level)
    ensures var next := p.s.next[x][level];
      if KeyIsAfterNode(p.s, key, next) then OnPath(p, key, next, level)
      else x == LastBefore(p, key, level) && next == FirstFrom(p, key, level) && (level > 0 ==> OnPath(p, key, x, level - 1))
  {
    var i := PositionOf(p, key, x, level);
    var list, r := p.levels[level], Place(p, key, level);
    assert IsLevel(p.s, level, list);
    var e := Entries(p.s, list);
    assert p.s.next[NodeAt(list, i)][level] == NodeAt(list, i + 1);
    if i + 1 < r {
      assert KeyIsAfterNode(p.s, key, list[i + 1]);
    } else if r < |list| {
      assert !KeyIsAfterNode(p.s, key, list[r]);
    }
  }

  datatype Search = Looking(x: int, level: nat) | Found(before: int, node: int)

  /** One turn of the loop of `FindGreaterOrEqual`, `FindLessThan` or `FindLast`: a single load of a
      pointer. The first returns the node it ends before, the others the one they end at. */
  function SearchStep(s: State, key: Target, at: Search): Search
    requires at.Looking? && HasLevel(s, at.x, at.level)
  {
    var next := s.next[at.x][at.level];
    if KeyIsAfterNode(s, key, next) then Looking(next, at.level)
    else if at.level == 0 then Found(at.x, next)
    else Looking(at.x, at.level - 1)
  }

  // ----- what the writer does, store by store

  /** Nothing a reader may stand on goes away. */
  ghost predicate Grows(p: Snap, q: Snap) {
    && p.s.keys <= q.s.keys && |p.levels| == |q.levels|
    && forall l, x :: 0 <= l < |p.levels| && x in p.levels[l] ==> x in q.levels[l]
  }

  /** A single store: the height, a pointer, or the contents of a node nobody knows yet. */
  ghost predicate OneStore(a: State, b: State) {
    || b == a.(height := b.height)
    || (exists entry, height :: b == AddNode(a, entry, height))
    || exists x, l, y :: HasLevel(a, x, l) && b == SetNext(a, x, l, y)
  }

  /** A run of stores, each between states that keep the invariant. */
  ghost predicate IsTrace(trace: seq<Snap>) {
    var n := |trace|;
    && n > 0 && Inv(trace[n - 1])
    && (n > 1 ==>
          && OneStore(trace[n - 2].s, trace[n - 1].s) && Grows(trace[n - 2], trace[n - 1])
          && IsTrace(trace[..n - 1]))
  }

  ghost predicate LeadsTo(trace: seq<Snap>, p: Snap) {
    IsTrace(trace) && trace[|trace| - 1] == p
  }

  lemma TraceGoesOn(trace: seq<Snap>, p: Snap, q: Snap)
    requires LeadsTo(trace, p) && Inv(q) && OneStore(p.s, q.s) && Grows(p, q)
    ensures LeadsTo(trace + [q], q)
  {
    assert (trace + [q])[..|trace|] == trace;
  }

  // ----- searches among the stores of a writer

  datatype Moment = Moment(snap: Snap, search: Search)

  /** A search that makes its loads while a writer makes its stores. */
  ghost predicate Interleaved(key: Target, run: seq<Moment>) {
    var n := |run|;
    && n > 0 && Inv(run[n - 1].snap)
    && if n == 1 then run[0].search == Looking(HEAD, run[0].snap.s.height - 1)
       else
         && Interleaved(key, run[..n - 1])
         && (ReaderMoves(key, run[n - 2], run[n - 1]) || WriterMoves(run[n - 2], run[n - 1]))
  }

  ghost predicate ReaderMoves(key: Target, a: Moment, b: Moment) {
    && b.snap == a.snap && a.search.Looking? && HasLevel(a.snap.s, a.search.x, a.search.level)
    && b.search == SearchStep(a.snap.s, key, a.search)
  }

  ghost predicate WriterMoves(a: Moment, b: Moment) {
    b.search == a.search && Grows(a.snap, b.snap)
  }

  lemma GrowsKeepsPath(p: Snap, q: Snap, key: Target, x: int, level: nat)
    requires OnPath(p, key, x, level) && Grows(p, q)
    ensures OnPath(q, key, x, level)
  {
  }

  /** A search that has not ended stands on its path, whatever the writer has done meanwhile, and
      the node it stands on has the level it looks at next. */
  lemma {:induction false} SearchOnPath(key: Target, run: seq<Moment>)
    requires Interleaved(key, run) && run[|run| - 1].search.Looking?
    ensures var m := run[|run| - 1];
      OnPath(m.snap, key, m.search.x, m.search.level) && HasLevel(m.snap.s, m.search.x, m.search.level)
  {
    var n := |run|;
    var m := run[n - 1];
    if n > 1 {
      var before := run[n - 2];
      SearchOnPath(key, run[..n - 1]);
      if ReaderMoves(key, before, m) {
        SearchStays(before.snap, key, before.search.x, before.search.level);
      } else {
        GrowsKeepsPath(before.snap, m.snap, key, m.search.x, m.search.level);
      }
    }
    SearchStays(m.snap, key, m.search.x, m.search.level);
  }

  /** Every search among the stores of a writer finds what the sorted list of level 0 held at one
      moment of the search, the one of its last load: the first node not before the key, and the
      one in front of it. */
  lemma {:induction false} SearchIsAtomic(key: Target, run: seq<Moment>) returns (m: nat)
    requires Interleaved(key, run) && run[|run| - 1].search.Found?
    ensures 0 < m < |run| && run[m - 1].search.Looking? && run[m].search == run[|run| - 1].search
    ensures Inv(run[m].snap)
    ensures run[m].search == Found(LastBefore(run[m].snap, key, 0), FirstFrom(run[m].snap, key, 0))
  {
    var n := |run|;
    var before := run[n - 2];
    if before.search.Found? {
      m := SearchIsAtomic(key, run[..n - 1]);
    } else {
      m := n - 1;
      SearchOnPath(key, run[..n - 1]);
      SearchStays(before.snap, key, before.search.x, before.search.level);
    }
  }

  // ----- linking a new node

  /** No entry of a level has the user key and the sequence number of the new one. */
  ghost predicate IsNewAt(p: Snap, entry: Entry, m: nat) {
    && m < |p.levels| && InArena(p.s, p.levels[m])
    && forall i :: 0 <= i < |p.levels[m]| ==>
         var e := p.s.keys[p.levels[m][i]]; e.user != entry.user || e.seqNo != entry.seqNo
  }

  lemma IsNewAtAll(p: Snap, entry: Entry, m: nat)
    requires Inv(p) && IsNewAt(p, entry, 0) && m < MAX_HEIGHT
    ensures IsNewAt(p, entry, m)
  {
    assert IsLevel(p.s, m, p.levels[m]);
    forall i | 0 <= i < |p.levels[m]|
      ensures var e := p.s.keys[p.levels[m][i]]; e.user != entry.user || e.seqNo != entry.seqNo
    {
      assert m > 0 ==> p.levels[m][i] in p.levels[0];
    }
  }

  /** A node that the levels below `m` lead to and the levels from `m` on do not. */
  ghost predicate Linkable(p: Snap, x: int, m: nat) {
    && m < p.s.height <= |p.levels| == MAX_HEIGHT && HasLevel(p.s, x, m) && x > HEAD
    && x !in p.levels[m] && (m > 0 ==> x in p.levels[m - 1])
    && IsNewAt(p, p.s.keys[x], m)
  }

  ghost function Prepared(p: Snap, x: int, m: nat): Snap
    requires Inv(p) && Linkable(p, x, m)
  {
    p.(s := SetNext(p.s, x, m, FirstFrom(p, Of(p.s.keys[x]), m)))
  }

  ghost function Published(p: Snap, x: int, m: nat): Snap
    requires Inv(p) && Linkable(p, x, m)
    requires HasLevel(p.s, LastBefore(p, Of(p.s.keys[x]), m), m)
  {
    var prev, at := LastBefore(p, Of(p.s.keys[x]), m), Place(p, Of(p.s.keys[x]), m);
    Snap(SetNext(p.s, prev, m, x), p.levels[m := Inserted(p.levels[m], at, x)])
  }

  lemma PlaceStays(p: Snap, q: Snap, key: Target, m: nat)
    requires Inv(p) && Inv(q) && m < MAX_HEIGHT && q.levels[m] == p.levels[m] && p.s.keys <= q.s.keys
    ensures Place(q, key, m) == Place(p, key, m) && LastBefore(q, key, m) == LastBefore(p, key, m)
  {
    assert IsLevel(p.s, m, p.levels[m]);
    assert Entries(q.s, p.levels[m]) == Entries(p.s, p.levels[m]);
  }

  lemma PrepareStep(p: Snap, x: int, m: nat)
    requires Inv(p) && Linkable(p, x, m)
    ensures var q := Prepared(p, x, m);
      && Inv(q) && Linkable(q, x, m) && OneStore(p.s, q.s) && Grows(p, q)
      && q.s.next[x][m] == FirstFrom(q, Of(q.s.keys[x]), m)
      && Place(q, Of(q.s.keys[x]), m) == Place(p, Of(p.s.keys[x]), m)
  {
    hide Inv, Place;
    PrepareKeeps(p, x, m, FirstFrom(p, Of(p.s.keys[x]), m));
    PlaceStays(p, Prepared(p, x, m), Of(p.s.keys[x]), m);
  }

  /** A new entry stands strictly between its neighbours. */
  lemma Between(p: Snap, x: int, m: nat)
    requires Inv(p) && Linkable(p, x, m)
    ensures var list, at := p.levels[m], Place(p, Of(p.s.keys[x]), m);
      && InArena(p.s, list)
      && (at > 0 ==> Before(p.s.keys[list[at - 1]], p.s.keys[x]))
      && (at < |list| ==> Before(p.s.keys[x], p.s.keys[list[at]]))
  {
    var list, at := p.levels[m], Place(p, Of(p.s.keys[x]), m);
    assert IsLevel(p.s, m, list);
    var e := Entries(p.s, list);
    assert at > 0 ==> Before(e[at - 1], p.s.keys[x]);
    assert at < |list| ==> !Before(e[at], p.s.keys[x]);
  }

  lemma PublishStep(p: Snap, x: int, m: nat)
    requires Inv(p) && Linkable(p, x, m) && p.s.next[x][m] == FirstFrom(p, Of(p.s.keys[x]), m)
    ensures HasLevel(p.s, LastBefore(p, Of(p.s.keys[x]), m), m)
    ensures var q := Published(p, x, m); Inv(q) && OneStore(p.s, q.s) && Grows(p, q)
  {
    hide Inv, Place, IsNewAt;
    var list, at := p.levels[m], Place(p, Of(p.s.keys[x]), m);
    Between(p, x, m);
    PublishKeeps(p, m, at, x);
    PublishGrows(p, m, at, x);
  }

  lemma PublishGrows(p: Snap, m: nat, at: nat, x: int)
    requires m < |p.levels| && at <= |p.levels[m]| && HasLevel(p.s, NodeAt(p.levels[m], at - 1), m)
    ensures Grows(p, Snap(SetNext(p.s, NodeAt(p.levels[m], at - 1), m, x), p.levels[m := Inserted(p.levels[m], at, x)]))
  {
    var list := p.levels[m];
    forall y | y in list
      ensures y in Inserted(list, at, x)
    {
      assert list == list[..at] + list[at..];
    }
  }

  // ----- the list

  class SkipList {
    var keys: seq<Entry>
    var next: seq<seq<int>>
    var maxHeight: nat
    ghost var levels: seq<seq<int>>

    ghost function Now(): Snap
      reads this
    {
      Snap(State(keys, next, maxHeight), levels)
    }

    ghost predicate Valid()
      reads this
    {
      Inv(Now())
    }

    /** The abstract list: the entries of level 0. */
    ghost function Contents(): (r: seq<Entry>)
      requires Valid()
      reads this
      ensures InOrder(r) && |r| == |levels[0]|
    {
      assert IsLevel(Now().s, 0, levels[0]);
      Entries(Now().s, levels[0])
    }

    constructor (any: Entry)
      ensures Valid() && Contents() == []
    {
      keys, next, maxHeight := [any], [seq(MAX_HEIGHT, _ => NULL)], 1;
      levels := seq(MAX_HEIGHT, _ => []);
    }

    /** The common loop: down the levels to the place of the key, noting where each level was left. */
    method Find(key: Target) returns (x: int, node: int, prev: seq<int>)
      requires Valid()
      ensures x == LastBefore(Now(), key, 0) && node == FirstFrom(Now(), key, 0)
      ensures |prev| == MAX_HEIGHT
      ensures forall l :: 0 <= l < maxHeight ==> prev[l] == LastBefore(Now(), key, l)
    {
      hide Inv, OnPath, LastBefore, FirstFrom;
      x, prev := HEAD, seq(MAX_HEIGHT, _ => HEAD);
      var level := maxHeight - 1;
      ghost var i := -1;
      Starts(Now(), key);
      while true
        invariant 0 <= level < maxHeight <= MAX_HEIGHT && |levels| == MAX_HEIGHT == |prev|
        invariant OnPath(Now(), key, x, level) && -1 <= i < |levels[level]| && x == NodeAt(levels[level], i)
        invariant forall l :: level < l < maxHeight ==> prev[l] == LastBefore(Now(), key, l)
        decreases level, |levels[level]| - i
      {
        SearchStays(Now(), key, x, level);
        PointsOn(Now(), level, i);
        var n := next[x][level];
        if KeyIsAfterNode(State(keys, next, maxHeight), key, n) {
          x, i := n, i + 1;
        } else {
          prev := prev[level := x];
          if level == 0 {
            node := n;
            return;
          }
          level := level - 1;
          i := PositionOf(Now(), key, x, level);
        }
      }
    }

    method FindGreaterOrEqual(key: Entry) returns (node: int, prev: seq<int>)
      requires Valid()
      ensures node == FirstFrom(Now(), Of(key), 0)
      ensures |prev| == MAX_HEIGHT
      ensures forall l :: 0 <= l < maxHeight ==> prev[l] == LastBefore(Now(), Of(key), l)
    {
      var x;
      x, node, prev := Find(Of(key));
    }

    method FindLessThan(key: Entry) returns (x: int)
      requires Valid()
      ensures x == LastBefore(Now(), Of(key), 0)
    {
      var node, prev;
      x, node, prev := Find(Of(key));
    }

    method FindLast() returns (x: int)
      requires Valid()
      ensures x == NodeAt(levels[0], |levels[0]| - 1)
    {
      var node, prev;
      x, node, prev := Find(End);
    }

    /** The two stores that link a node into a level. */
    method Link(x: int, m: nat, prev: int, ghost trace: seq<Snap>) returns (ghost longer: seq<Snap>)
      requires Valid() && Linkable(Now(), x, m) && prev == LastBefore(Now(), Of(keys[x]), m)
      requires LeadsTo(trace, Now())
      modifies this`next, this`levels
      ensures Valid() && |next| == old(|next|) && |next[x]| == old(|next[x]|)
      ensures levels == old(levels)[m := Inserted(old(levels[m]), Place(old(Now()), Of(keys[x]), m), x)]
      ensures trace <= longer && LeadsTo(longer, Now())
    {
      hide Inv, LeadsTo, Grows, OneStore, Place;
      ghost var key, p := Of(keys[x]), Now();
      Neighbours(p, key, m);
      next := next[x := next[x][m := next[prev][m]]];
      PrepareStep(p, x, m);
      assert Now() == Prepared(p, x, m);
      TraceGoesOn(trace, p, Now());
      ghost var q := Now();
      PublishStep(q, x, m);
      next := next[prev := next[prev][m := x]];
      levels := levels[m := Inserted(levels[m], Place(q, key, m), x)];
      assert Now() == Published(q, x, m);
      TraceGoesOn(trace + [q], q, Now());
      longer := trace + [q] + [Now()];
    }

    /** Links a node that no level leads to yet into its levels, from the lowest up. */
    method LinkAll(x: int, height: nat, prev: seq<int>, ghost trace: seq<Snap>) returns (ghost longer: seq<Snap>)
      requires Valid() && IsUnlinked(Now(), x, height)
      requires |prev| == MAX_HEIGHT && forall l :: 0 <= l < height ==> prev[l] == LastBefore(Now(), Of(keys[x]), l)
      requires LeadsTo(trace, Now())
      modifies this`next, this`levels
      ensures Valid()
      ensures forall l :: 0 <= l < height ==> levels[l] == Inserted(old(levels)[l], Place(old(Now()), Of(keys[x]), l), x)
      ensures forall l :: height <= l < MAX_HEIGHT ==> levels[l] == old(levels)[l]
      ensures trace <= longer && LeadsTo(longer, Now())
    {
      hide Inv, LeadsTo, Place, LastBefore, IsNewAt;
      ghost var p := Now();
      longer := trace;
      var i := 0;
      while i < height
        invariant 0 <= i <= height && Valid() && |levels| == MAX_HEIGHT
        invariant |next| == |p.s.next| && |next[x]| == height
        invariant forall l :: i <= l < MAX_HEIGHT ==> levels[l] == p.levels[l]
        invariant i > 0 ==> x in levels[i - 1]
        invariant forall l :: 0 <= l < i ==> levels[l] == Inserted(p.levels[l], Place(p, Of(keys[x]), l), x)
        invariant trace <= longer && LeadsTo(longer, Now())
      {
        NextLevel(p, Now(), x, height, i);
        longer := Link(x, i, prev[i], longer);
        i := i + 1;
      }
    }

    /** The store of the height, when the new node is higher than all before. */
    method Raise(height: nat, ghost key: Target, prev: seq<int>, ghost trace: seq<Snap>)
      returns (raised: seq<int>, ghost longer: seq<Snap>)
      requires Valid() && height <= MAX_HEIGHT && LeadsTo(trace, Now()) && |prev| == MAX_HEIGHT
      requires forall l :: 0 <= l < maxHeight ==> prev[l] == LastBefore(Now(), key, l)
      modifies this`maxHeight
      ensures Valid() && maxHeight == (if old(maxHeight) < height then height else old(maxHeight))
      ensures trace <= longer && LeadsTo(longer, Now())
      ensures |raised| == MAX_HEIGHT && forall l :: 0 <= l < height ==> raised[l] == LastBefore(Now(), key, l)
    {
      hide LeadsTo, Place, LastBefore, IsLevel, OneStore, Grows;
      raised, longer := prev, trace;
      if height > maxHeight {
        ghost var p := Now();
        for i := maxHeight to height
          invariant |raised| == MAX_HEIGHT && raised[..maxHeight] == prev[..maxHeight]
          invariant forall l :: maxHeight <= l < i ==> raised[l] == HEAD
        {
          raised := raised[i := HEAD];
        }
        maxHeight := height;
        RaiseStep(p, height);
        TraceGoesOn(trace, p, Now());
        longer := trace + [Now()];
        forall l | 0 <= l < height
          ensures raised[l] == LastBefore(Now(), key, l)
        {
          PlaceStays(p, Now(), key, l);
          if l < p.s.height {
            assert raised[l] == raised[..p.s.height][l] == prev[l];
          } else {
            EmptyAbove(p, key, l);
          }
        }
      }
    }

    /** `SkipList::NewNode`: a node of the arena that no level leads to. */
    method NewNode(entry: Entry, height: nat, ghost prev: seq<int>, ghost trace: seq<Snap>)
      returns (x: int, ghost longer: seq<Snap>)
      requires Valid() && 1 <= height <= maxHeight && IsNewAt(Now(), entry, 0) && LeadsTo(trace, Now())
      requires |prev| == MAX_HEIGHT && forall l :: 0 <= l < height ==> prev[l] == LastBefore(Now(), Of(entry), l)
      modifies this`keys, this`next
      ensures Valid() && x == |old(keys)| && keys == old(keys) + [entry] && IsUnlinked(Now(), x, height)
      ensures trace <= longer && LeadsTo(longer, Now())
      ensures forall l :: 0 <= l < height ==> prev[l] == LastBefore(Now(), Of(entry), l)
    {
      hide LeadsTo, Inv, IsUnlinked, Place, LastBefore, OneStore, Grows;
      ghost var q := Now();
      x := |keys|;
      keys, next := keys + [entry], next + [seq(height, _ => NULL)];
      AddNodeStep(q, entry, height);
      TraceGoesOn(trace, q, Now());
      longer := trace + [Now()];
      AddedIsUnlinked(q, entry, height);
      forall l | 0 <= l < height
        ensures prev[l] == LastBefore(Now(), Of(entry), l)
      {
        PlaceStays(q, Now(), Of(entry), l);
      }
    }

    /** `SkipList::Put` with the height that `RandomHeight` gives. */
    method Put(entry: Entry, height: nat) returns (ghost trace: seq<Snap>)
      requires Valid() && 1 <= height <= MAX_HEIGHT && IsNewAt(Now(), entry, 0)
      modifies this
      ensures Valid()
      ensures var before, at := old(Contents()), FirstNotBefore(old(Contents()), entry);
        Contents() == before[..at] + [entry] + before[at..]
      ensures maxHeight == (if old(maxHeight) < height then height else old(maxHeight)) && keys == old(keys) + [entry]
      ensures forall l :: 0 <= l < height ==>
        levels[l] == Inserted(old(levels)[l], Place(old(Now()), Of(entry), l), |old(keys)|)
      ensures forall l :: height <= l < MAX_HEIGHT ==> levels[l] == old(levels)[l]
      ensures IsTrace(trace) && trace[0] == old(Now()) && trace[|trace| - 1] == Now()
    {
      hide IsTrace, Inv, IsUnlinked, Place, LastBefore, OneStore, Grows, IsNewAt, Inserted;
      ghost var key, p := Of(entry), Now();
      var node, prev := FindGreaterOrEqual(entry);
      TraceStarts(p);
      prev, trace := Raise(height, key, prev, [p]);
      NewStays(p, Now(), entry);
      var x;
      x, trace := NewNode(entry, height, prev, trace);
      ghost var r := Now();
      forall l | 0 <= l < height
        ensures Place(r, key, l) == Place(p, key, l)
      {
        PlaceStays(p, r, key, l);
      }
      trace := LinkAll(x, height, prev, trace);
      ContentsInserted(p, r, Now(), entry);
    }
  }

  lemma NewStays(p: Snap, q: Snap, entry: Entry)
    requires Inv(p) && Inv(q) && q.s.keys == p.s.keys && q.levels == p.levels && IsNewAt(p, entry, 0)
    ensures IsNewAt(q, entry, 0)
  {
  }

  lemma AddedIsUnlinked(p: Snap, entry: Entry, height: nat)
    requires Inv(p) && 1 <= height <= p.s.height && IsNewAt(p, entry, 0)
    ensures IsUnlinked(p.(s := AddNode(p.s, entry, height)), |p.s.keys|, height)
  {
    forall l | 0 <= l < MAX_HEIGHT
      ensures |p.s.keys| !in p.levels[l] && IsNewAt(p.(s := AddNode(p.s, entry, height)), entry, l)
    {
      assert IsLevel(p.s, l, p.levels[l]);
      IsNewAtAll(p, entry, l);
    }
  }

  /** What the insertion means for the entries of level 0. */
  lemma ContentsInserted(p: Snap, r: Snap, q: Snap, entry: Entry)
    requires Inv(p) && Inv(r) && Inv(q) && r.levels == p.levels
    requires r.s.keys == p.s.keys + [entry] && q.s.keys == r.s.keys
    requires q.levels[0] == Inserted(p.levels[0], Place(r, Of(entry), 0), |p.s.keys|)
    ensures InArena(p.s, p.levels[0]) && InArena(q.s, q.levels[0])
    ensures var before := Entries(p.s, p.levels[0]);
      var at := FirstNotBefore(before, entry);
      Entries(q.s, q.levels[0]) == before[..at] + [entry] + before[at..]
  {
    assert IsLevel(p.s, 0, p.levels[0]) && IsLevel(q.s, 0, q.levels[0]);
    PlaceStays(p, r, Of(entry), 0);
  }

  lemma TraceStarts(p: Snap)
    requires Inv(p)
    ensures LeadsTo([p], p)
  {
  }

  lemma RaiseStep(p: Snap, height: nat)
    requires Inv(p) && p.s.height <= height <= MAX_HEIGHT
    ensures var q := p.(s := p.s.(height := height)); Inv(q) && OneStore(p.s, q.s) && Grows(p, q)
  {
    RaiseKeeps(p, height);
  }

  lemma AddNodeStep(p: Snap, entry: Entry, height: nat)
    requires Inv(p)
    ensures var q := p.(s := AddNode(p.s, entry, height)); Inv(q) && OneStore(p.s, q.s) && Grows(p, q)
  {
    AddNodeKeeps(p, entry, height);
  }

  lemma EmptyAbove(p: Snap, key: Target, l: nat)
    requires Inv(p) && p.s.height <= l < MAX_HEIGHT
    ensures LastBefore(p, key, l) == HEAD
  {
  }

  /** A node of the arena that no level leads to. */
  ghost predicate IsUnlinked(p: Snap, x: int, height: nat) {
    && 1 <= height <= p.s.height <= |p.levels| == MAX_HEIGHT
    && HEAD < x < |p.s.keys| == |p.s.next| && |p.s.next[x]| == height
    && forall l :: 0 <= l < MAX_HEIGHT ==> x !in p.levels[l] && IsNewAt(p, p.s.keys[x], l)
  }

  lemma NextLevel(p: Snap, q: Snap, x: int, height: nat, i: nat)
    requires Inv(p) && Inv(q) && IsUnlinked(p, x, height) && i < height
    requires q.s.keys == p.s.keys && q.s.height == p.s.height && |q.s.next| == |p.s.next| && |q.s.next[x]| == height
    requires q.levels[i] == p.levels[i] && (i > 0 ==> x in q.levels[i - 1])
    ensures Linkable(q, x, i) && Place(q, Of(q.s.keys[x]), i) == Place(p, Of(p.s.keys[x]), i)
    ensures LastBefore(q, Of(q.s.keys[x]), i) == LastBefore(p, Of(p.s.keys[x]), i)
  {
    PlaceStays(p, q, Of(p.s.keys[x]), i);
  }

  /** The pointer behind the last node before a key is the first node not before it. */
  lemma Neighbours(p: Snap, key: Target, m: nat)
    requires Inv(p) && m < MAX_HEIGHT
    ensures HasLevel(p.s, LastBefore(p, key, m), m)
    ensures p.s.next[LastBefore(p, key, m)][m] == FirstFrom(p, key, m)
  {
    PointsOn(p, m, Place(p, key, m) - 1);
  }

  lemma Starts(p: Snap, key: Target)
    requires Inv(p)
    ensures 1 <= p.s.height <= MAX_HEIGHT == |p.levels| && OnPath(p, key, HEAD, p.s.height - 1)
  {
  }

  lemma PointsOn(p: Snap, level: nat, i: int)
    requires Inv(p) && level < MAX_HEIGHT && -1 <= i < |p.levels[level]|
    ensures HasLevel(p.s, NodeAt(p.levels[level], i), level)
    ensures p.s.next[NodeAt(p.levels[level], i)][level] == NodeAt(p.levels[level], i + 1)
    ensures i + 1 == |p.levels[level]| || NodeAt(p.levels[level], i + 1) > HEAD
  {
    assert IsLevel(p.s, level, p.levels[level]);
  }

  // ----- the iterator

  class Iterator {
    const list: SkipList
    var node: int
    ghost var at: int

    ghost predicate Valid()
      reads this, list
    {
      && list.Valid() && -1 <= at < |list.levels[0]|
      && node == if at == -1 then NULL else list.levels[0][at]
    }

    /** The abstract cursor. */
    ghost function View(): (c: Cursor<Entry>)
      requires Valid()
      reads this, list
      ensures c.Wf()
    {
      Cursor(list.Contents(), at)
    }

    constructor (list: SkipList)
      requires list.Valid()
      ensures Valid() && this.list == list && at == -1
    {
      this.list, node, at := list, NULL, -1;
    }

    method AtEntry() returns (b: bool)
      requires Valid()
      ensures b == View().Valid()
    {
      assert IsLevel(list.Now().s, 0, list.levels[0]);
      b := node != NULL;
    }

    method Key() returns (entry: Entry)
      requires Valid() && View().Valid()
      ensures entry == View().Current()
    {
      assert IsLevel(list.Now().s, 0, list.levels[0]);
      entry := list.keys[node];
    }

    method Seek(target: Entry)
      requires Valid()
      modifies this
      ensures Valid() && View() == old(View()).To(FirstNotBefore(list.Contents(), target))
    {
      ghost var r := Place(list.Now(), Of(target), 0);
      var prev;
      node, prev := list.FindGreaterOrEqual(target);
      at := if r < |list.levels[0]| then r else -1;
    }

    method SeekToFirst()
      requires Valid()
      modifies this
      ensures Valid() && View() == old(View()).First()
    {
      PointsOn(list.Now(), 0, -1);
      node := list.next[HEAD][0];
      at := if list.levels[0] == [] then -1 else 0;
    }

    method SeekToLast()
      requires Valid()
      modifies this
      ensures Valid() && View() == old(View()).Last()
    {
      node := list.FindLast();
      at := |list.levels[0]| - 1;
      OffHead(list.Now(), at);
      if node == HEAD {
        node := NULL;
      }
    }

    method Next()
      requires Valid() && View().Valid()
      modifies this
      ensures Valid() && View() == old(View()).Next()
    {
      PointsOn(list.Now(), 0, at);
      node := list.next[node][0];
      at := if at + 1 < |list.levels[0]| then at + 1 else -1;
    }

    method Prev()
      requires Valid() && View().Valid()
      modifies this
      ensures Valid() && View() == old(View()).Prev()
    {
      PointsOn(list.Now(), 0, at - 1);
      ghost var e := list.Contents();
      FirstNotBeforeIs(e, e[at], at);
      node := list.FindLessThan(list.keys[node]);
      at := at - 1;
      OffHead(list.Now(), at);
      if node == HEAD {
        node := NULL;
      }
    }
  }

  lemma OffHead(p: Snap, i: int)
    requires Inv(p) && -1 <= i < |p.levels[0]|
    ensures NodeAt(p.levels[0], i) == HEAD <==> i == -1
  {
    assert IsLevel(p.s, 0, p.levels[0]);
  }
}
