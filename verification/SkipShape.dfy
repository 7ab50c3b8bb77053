/** The shape of a skip list: sorted lists of nodes, each a sublist of the one below. */
module SkipShape {

  import opened Common
  import opened Cursors

  const MAX_HEIGHT: nat := 12
  const HEAD: int := 0
  const NULL: int := -1

  /** The nodes of the arena by number, the head first: their keys and their pointers per level. */
  datatype State = State(keys: seq<Entry>, next: seq<seq<int>>, height: nat)

  /** A state with the lists that its levels are meant to be, without the head. */
  datatype Snap = Snap(s: State, levels: seq<seq<int>>)

  predicate HasLevel(s: State, x: int, l: nat) {
    0 <= x < |s.keys| && x < |s.next| && l < |s.next[x]|
  }

  /** The nodes of a list by position, with the head before and nothing behind. */
  function NodeAt(list: seq<int>, i: int): int
    requires -1 <= i <= |list|
  {
    if i == -1 then HEAD else if i == |list| then NULL else list[i]
  }

  ghost predicate InArena(s: State, list: seq<int>) {
    forall i :: 0 <= i < |list| ==> HEAD < list[i] < |s.keys|
  }

  ghost function Entries(s: State, list: seq<int>): (r: seq<Entry>)
    requires InArena(s, list)
    ensures |r| == |list| && forall i :: 0 <= i < |list| ==> r[i] == s.keys[list[i]]
  {
    seq(|list|, i requires 0 <= i < |list| => s.keys[list[i]])
  }

  /** The pointers of a level lead through a list. */
  ghost predicate Chained(s: State, l: nat, list: seq<int>) {
    forall i :: -1 <= i < |list| ==>
      HasLevel(s, NodeAt(list, i), l) && s.next[NodeAt(list, i)][l] == NodeAt(list, i + 1)
  }

  ghost predicate IsLevel(s: State, l: nat, list: seq<int>) {
    InArena(s, list) && Chained(s, l, list) && InOrder(Entries(s, list))
  }

  ghost predicate Nested(levels: seq<seq<int>>) {
    forall l, m, x :: 0 <= l < m < |levels| && x in levels[m] ==> x in levels[l]
  }

  /** What holds before and after every single store. */
  ghost predicate Inv(p: Snap) {
    && |p.s.keys| == |p.s.next| >= 1
    && 1 <= p.s.height <= MAX_HEIGHT && |p.levels| == MAX_HEIGHT
    && (forall l :: 0 <= l < MAX_HEIGHT ==> IsLevel(p.s, l, p.levels[l]))
    && Nested(p.levels)
    && forall l :: p.s.height <= l < MAX_HEIGHT ==> p.levels[l] == []
  }

  // ----- the stores

  function SetNext(s: State, x: int, l: nat, y: int): State
    requires HasLevel(s, x, l)
  {
    s.(next := s.next[x := s.next[x][l := y]])
  }

  function AddNode(s: State, key: Entry, height: nat): State {
    s.(keys := s.keys + [key], next := s.next + [seq(height, _ => NULL)])
  }

  function Inserted(list: seq<int>, at: nat, x: int): seq<int>
    requires at <= |list|
  {
    list[..at] + [x] + list[at..]
  }

  lemma RaiseKeeps(p: Snap, height: nat)
    requires Inv(p) && p.s.height <= height <= MAX_HEIGHT
    ensures Inv(p.(s := p.s.(height := height)))
  {
    var q := p.(s := p.s.(height := height));
    forall l | 0 <= l < MAX_HEIGHT
      ensures IsLevel(q.s, l, q.levels[l])
    {
      assert IsLevel(p.s, l, p.levels[l]);
      assert Entries(q.s, q.levels[l]) == Entries(p.s, p.levels[l]);
    }
  }

  lemma AddNodeKeepsLevel(s: State, key: Entry, height: nat, l: nat, list: seq<int>)
    requires |s.keys| == |s.next| && IsLevel(s, l, list)
    ensures IsLevel(AddNode(s, key, height), l, list)
  {
    var t := AddNode(s, key, height);
    assert Entries(t, list) == Entries(s, list);
  }

  lemma AddNodeKeeps(p: Snap, key: Entry, height: nat)
    requires Inv(p)
    ensures Inv(p.(s := AddNode(p.s, key, height)))
  {
    hide IsLevel;
    forall l | 0 <= l < MAX_HEIGHT
      ensures IsLevel(AddNode(p.s, key, height), l, p.levels[l])
    {
      AddNodeKeepsLevel(p.s, key, height, l, p.levels[l]);
    }
  }

  /** A store at another level, or into a node that the level does not lead to. */
  lemma StoreKeepsLevel(s: State, x: int, m: nat, y: int, l: nat, list: seq<int>)
    requires HasLevel(s, x, m) && IsLevel(s, l, list)
    requires l != m || (x != HEAD && x !in list)
    ensures IsLevel(SetNext(s, x, m, y), l, list)
  {
    var t := SetNext(s, x, m, y);
    assert Entries(t, list) == Entries(s, list);
    forall i | -1 <= i < |list|
      ensures HasLevel(t, NodeAt(list, i), l) && t.next[NodeAt(list, i)][l] == NodeAt(list, i + 1)
    {
      assert HasLevel(s, NodeAt(list, i), l);
      assert l == m ==> NodeAt(list, i) != x;
    }
  }

  /** The new node's own pointer is set while no list of that level leads to it. */
  lemma PrepareKeeps(p: Snap, x: int, m: nat, y: int)
    requires Inv(p) && HasLevel(p.s, x, m) && m < MAX_HEIGHT && x != HEAD && x !in p.levels[m]
    ensures Inv(p.(s := SetNext(p.s, x, m, y)))
  {
    hide IsLevel;
    forall l | 0 <= l < MAX_HEIGHT
      ensures IsLevel(SetNext(p.s, x, m, y), l, p.levels[l])
    {
      StoreKeepsLevel(p.s, x, m, y, l, p.levels[l]);
    }
  }

  lemma NodesDiffer(s: State, list: seq<int>, i: int, j: int)
    requires InArena(s, list) && InOrder(Entries(s, list)) && -1 <= i < j < |list|
    ensures NodeAt(list, i) != NodeAt(list, j)
  {
    if i >= 0 {
      assert Before(Entries(s, list)[i], Entries(s, list)[j]);
    }
  }

  /** The store that makes a node visible: the list of that level gains the node. */
  lemma PublishLevel(s: State, m: nat, list: seq<int>, at: nat, x: int)
    requires IsLevel(s, m, list) && at <= |list| && HasLevel(s, x, m) && x > HEAD && x !in list
    requires s.next[x][m] == NodeAt(list, at)
    requires at > 0 ==> Before(s.keys[list[at - 1]], s.keys[x])
    requires at < |list| ==> Before(s.keys[x], s.keys[list[at]])
    ensures HasLevel(s, NodeAt(list, at - 1), m)
    ensures IsLevel(SetNext(s, NodeAt(list, at - 1), m, x), m, Inserted(list, at, x))
  {
    var prev := NodeAt(list, at - 1);
    assert HasLevel(s, prev, m);
    var t, longer := SetNext(s, prev, m, x), Inserted(list, at, x);
    InsertedChain(s, m, list, at, x);
    InsertedOrder(s, list, at, x);
    assert Entries(t, longer) == Entries(s, longer);
  }

  lemma InsertedOrder(s: State, list: seq<int>, at: nat, x: int)
    requires InArena(s, list) && InOrder(Entries(s, list)) && at <= |list| && HEAD < x < |s.keys|
    requires at > 0 ==> Before(s.keys[list[at - 1]], s.keys[x])
    requires at < |list| ==> Before(s.keys[x], s.keys[list[at]])
    ensures InArena(s, Inserted(list, at, x))
    ensures var e := Entries(s, list);
      Entries(s, Inserted(list, at, x)) == e[..at] + [s.keys[x]] + e[at..] && InOrder(Entries(s, Inserted(list, at, x)))
  {
    var e, longer := Entries(s, list), Inserted(list, at, x);
    var f := Entries(s, longer);
    assert f == e[..at] + [s.keys[x]] + e[at..];
    forall i, j | 0 <= i < j < |f|
      ensures Before(f[i], f[j])
    {
      if i < at - 1 { assert Before(e[i], e[at - 1]); }
      if j > at + 1 { assert Before(e[at], e[j - 1]); }
      if i < at && j > at { assert Before(e[i], e[j - 1]); }
      if i > at { assert Before(e[i - 1], e[j - 1]); }
      if j < at { assert Before(e[i], e[j]); }
    }
  }

  lemma InsertedChain(s: State, m: nat, list: seq<int>, at: nat, x: int)
    requires InArena(s, list) && InOrder(Entries(s, list)) && Chained(s, m, list)
    requires at <= |list| && HasLevel(s, x, m) && x > HEAD && x !in list && s.next[x][m] == NodeAt(list, at)
    requires HasLevel(s, NodeAt(list, at - 1), m)
    ensures Chained(SetNext(s, NodeAt(list, at - 1), m, x), m, Inserted(list, at, x))
  {
    var prev, longer := NodeAt(list, at - 1), Inserted(list, at, x);
    var t := SetNext(s, prev, m, x);
    forall i | -1 <= i < |longer|
      ensures HasLevel(t, NodeAt(longer, i), m) && t.next[NodeAt(longer, i)][m] == NodeAt(longer, i + 1)
    {
      if i < at {
        assert NodeAt(longer, i) == NodeAt(list, i);
        assert HasLevel(s, NodeAt(list, i), m);
        if i < at - 1 {
          NodesDiffer(s, list, i, at - 1);
          assert NodeAt(longer, i + 1) == NodeAt(list, i + 1);
        }
      } else if i == at {
        assert NodeAt(longer, i) == x && NodeAt(longer, i + 1) == NodeAt(list, at);
      } else {
        assert NodeAt(longer, i) == NodeAt(list, i - 1) && NodeAt(longer, i + 1) == NodeAt(list, i);
        assert HasLevel(s, NodeAt(list, i - 1), m);
        NodesDiffer(s, list, at - 1, i - 1);
      }
    }
  }

  lemma PublishKeeps(p: Snap, m: nat, at: nat, x: int)
    requires Inv(p) && m < p.s.height && at <= |p.levels[m]|
    requires HasLevel(p.s, x, m) && x > HEAD && x !in p.levels[m] && (m > 0 ==> x in p.levels[m - 1])
    requires p.s.next[x][m] == NodeAt(p.levels[m], at)
    requires at > 0 ==> HEAD < p.levels[m][at - 1] < |p.s.keys| && Before(p.s.keys[p.levels[m][at - 1]], p.s.keys[x])
    requires at < |p.levels[m]| ==> HEAD < p.levels[m][at] < |p.s.keys| && Before(p.s.keys[x], p.s.keys[p.levels[m][at]])
    ensures HasLevel(p.s, NodeAt(p.levels[m], at - 1), m)
    ensures Inv(Snap(SetNext(p.s, NodeAt(p.levels[m], at - 1), m, x), p.levels[m := Inserted(p.levels[m], at, x)]))
  {
    assert IsLevel(p.s, m, p.levels[m]);
    PublishLevel(p.s, m, p.levels[m], at, x);
    var prev := NodeAt(p.levels[m], at - 1);
    var q := Snap(SetNext(p.s, prev, m, x), p.levels[m := Inserted(p.levels[m], at, x)]);
    forall l | 0 <= l < MAX_HEIGHT
      ensures IsLevel(q.s, l, q.levels[l])
    {
      if l != m {
        StoreKeepsLevel(p.s, prev, m, x, l, p.levels[l]);
      }
    }
    PublishNested(p.levels, m, at, x);
  }

  lemma PublishNested(levels: seq<seq<int>>, m: nat, at: nat, x: int)
    requires Nested(levels) && m < |levels| && at <= |levels[m]| && (m > 0 ==> x in levels[m - 1])
    ensures Nested(levels[m := Inserted(levels[m], at, x)])
  {
    var list := levels[m];
    forall y
      ensures y in Inserted(list, at, x) <==> y == x || y in list
    {
      assert list == list[..at] + list[at..];
    }
  }
}
