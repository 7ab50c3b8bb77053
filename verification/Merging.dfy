/** `MergingIterator`: a cursor over the sorted union of its children. */
module Merging {
  import opened Common
  import opened Cursors

  /** The sorted union of two sorted sequences. */
  function Merge(a: seq<Entry>, b: seq<Entry>): seq<Entry> {
    if a == [] then b
    else if b == [] then a
    else if Before(a[0], b[0]) then [a[0]] + Merge(a[1..], b)
    else [b[0]] + Merge(a, b[1..])
  }

  function MergeAll(lists: seq<seq<Entry>>): seq<Entry> {
    if lists == [] then [] else Merge(lists[0], MergeAll(lists[1..]))
  }

  /** No internal key occurs in two lists. */
  ghost predicate Distinct(lists: seq<seq<Entry>>) {
    forall i, j, x, y {:trigger lists[i][x], lists[j][y]} ::
      0 <= i < j < |lists| && 0 <= x < |lists[i]| && 0 <= y < |lists[j]| ==>
        Before(lists[i][x], lists[j][y]) || Before(lists[j][y], lists[i][x])
  }

  ghost predicate AllSorted(lists: seq<seq<Entry>>) {
    forall i :: 0 <= i < |lists| ==> InOrder(lists[i])
  }

  ghost predicate InSome(lists: seq<seq<Entry>>, e: Entry) {
    exists i :: 0 <= i < |lists| && e in lists[i]
  }

  lemma {:induction false} MergeMembers(a: seq<Entry>, b: seq<Entry>, e: Entry)
    ensures e in Merge(a, b) <==> e in a || e in b
  {
    if a != [] && b != [] {
      if Before(a[0], b[0]) {
        MergeMembers(a[1..], b, e);
        assert a == [a[0]] + a[1..];
      } else {
        MergeMembers(a, b[1..], e);
        assert b == [b[0]] + b[1..];
      }
    }
  }

  /** Everything in `b` is ordered against everything in `a`. */
  ghost predicate Comparable(a: seq<Entry>, b: seq<Entry>) {
    forall x, y :: x in a && y in b ==> Before(x, y) || Before(y, x)
  }

  lemma {:induction false} MergeSorted(a: seq<Entry>, b: seq<Entry>)
    requires InOrder(a) && InOrder(b) && Comparable(a, b)
    ensures InOrder(Merge(a, b))
  {
    if a != [] && b != [] {
      if Before(a[0], b[0]) {
        MergeSorted(a[1..], b);
        PrependSorted(a[0], Merge(a[1..], b), a[1..], b);
      } else {
        assert Before(b[0], a[0]);
        MergeSorted(a, b[1..]);
        PrependSorted(b[0], Merge(a, b[1..]), a, b[1..]);
      }
    }
  }

  lemma PrependSorted(h: Entry, m: seq<Entry>, a: seq<Entry>, b: seq<Entry>)
    requires InOrder(m) && m == Merge(a, b)
    requires forall x :: x in a ==> Before(h, x)
    requires forall x :: x in b ==> Before(h, x)
    ensures InOrder([h] + m)
  {
    forall j | 0 <= j < |m|
      ensures Before(h, m[j])
    {
      MergeMembers(a, b, m[j]);
    }
  }

  /** The union is sorted and has exactly the entries of the lists. */
  lemma {:induction false} MergeAllIsUnion(lists: seq<seq<Entry>>)
    requires AllSorted(lists) && Distinct(lists)
    ensures InOrder(MergeAll(lists))
    ensures forall e :: e in MergeAll(lists) <==> InSome(lists, e)
  {
    if lists != [] {
      var rest := lists[1..];
      assert forall i :: 0 <= i < |rest| ==> rest[i] == lists[i + 1];
      MergeAllIsUnion(rest);
      forall x, y | x in lists[0] && y in MergeAll(rest)
        ensures Before(x, y) || Before(y, x)
      {
        var i :| 0 <= i < |rest| && y in rest[i];
        var p :| 0 <= p < |lists[0]| && lists[0][p] == x;
        var q :| 0 <= q < |lists[i + 1]| && lists[i + 1][q] == y;
      }
      MergeSorted(lists[0], MergeAll(rest));
      forall e
        ensures e in MergeAll(lists) <==> InSome(lists, e)
      {
        MergeMembers(lists[0], MergeAll(rest), e);
        if InSome(rest, e) {
          var i :| 0 <= i < |rest| && e in rest[i];
          assert e in lists[i + 1];
        }
        if InSome(lists, e) && e !in lists[0] {
          var i :| 0 <= i < |lists| && e in lists[i];
          assert e in rest[i - 1];
        }
      }
    }
  }

  // ----- where the children stand

  /** Children as cursors over their lists. */
  ghost predicate Over(cs: seq<Cursor<Entry>>, lists: seq<seq<Entry>>) {
    && |cs| == |lists|
    && forall j :: 0 <= j < |cs| ==> cs[j].items == lists[j] && cs[j].Wf()
  }

  /** An upper part of the order, and a lower part. */
  ghost predicate Upper(above: Entry -> bool) {
    forall x, y :: above(x) && Before(x, y) ==> above(y)
  }

  ghost predicate Lower(below: Entry -> bool) {
    forall x, y :: below(y) && Before(x, y) ==> below(x)
  }

  /** The cursor stands at the first item of an upper part. */
  ghost predicate FirstIn(c: Cursor<Entry>, above: Entry -> bool) {
    && c.Wf()
    && (c.Valid() ==> above(c.Current()) && forall i :: 0 <= i < c.at ==> !above(c.items[i]))
    && (!c.Valid() ==> forall i :: 0 <= i < |c.items| ==> !above(c.items[i]))
  }

  /** The cursor stands at the last item of a lower part. */
  ghost predicate LastIn(c: Cursor<Entry>, below: Entry -> bool) {
    && c.Wf()
    && (c.Valid() ==> below(c.Current()) && forall i :: c.at < i < |c.items| ==> !below(c.items[i]))
    && (!c.Valid() ==> forall i :: 0 <= i < |c.items| ==> !below(c.items[i]))
  }

  function Everything(): Entry -> bool { x => true }

  function After(e: Entry): Entry -> bool { x => Before(e, x) }

  function Preceding(e: Entry): Entry -> bool { x => Before(x, e) }

  function NotBefore(e: Entry): Entry -> bool { x => !Before(x, e) }

  /** What `FindSmallest` picks: none if no child is valid, and a smallest head otherwise. */
  ghost predicate Smallest(cs: seq<Cursor<Entry>>, i: int) {
    && -1 <= i < |cs|
    && (i == -1 ==> forall j :: 0 <= j < |cs| ==> !cs[j].Valid())
    && (i >= 0 ==> cs[i].Valid() && forall j :: 0 <= j < |cs| && cs[j].Valid() ==> !Before(cs[j].Current(), cs[i].Current()))
  }

  ghost predicate Largest(cs: seq<Cursor<Entry>>, i: int) {
    && -1 <= i < |cs|
    && (i == -1 ==> forall j :: 0 <= j < |cs| ==> !cs[j].Valid())
    && (i >= 0 ==> cs[i].Valid() && forall j :: 0 <= j < |cs| && cs[j].Valid() ==> !Before(cs[i].Current(), cs[j].Current()))
  }

  /** Where entry `e` is in the union. */
  function Rank(lists: seq<seq<Entry>>, e: Entry): nat {
    FirstNotBefore(MergeAll(lists), e)
  }

  lemma RankOf(lists: seq<seq<Entry>>, j: nat, x: nat)
    requires AllSorted(lists) && Distinct(lists) && j < |lists| && x < |lists[j]|
    ensures var m, p := MergeAll(lists), Rank(lists, lists[j][x]);
      p < |m| && m[p] == lists[j][x] && InOrder(m)
  {
    MergeAllIsUnion(lists);
    var e, m := lists[j][x], MergeAll(lists);
    assert e in lists[j] && InSome(lists, e);
    var q :| 0 <= q < |m| && m[q] == e;
    FirstNotBeforeIs(m, e, q);
  }

  /** Every other child then stands at its first item after the chosen one. */
  lemma OthersAfter(lists: seq<seq<Entry>>, cs: seq<Cursor<Entry>>, above: Entry -> bool, i: int, j: int)
    requires AllSorted(lists) && Distinct(lists) && Over(cs, lists) && Upper(above) && Smallest(cs, i)
    requires 0 <= i < |cs| && 0 <= j < |cs| && j != i && FirstIn(cs[i], above) && FirstIn(cs[j], above)
    ensures FirstIn(cs[j], After(cs[i].Current()))
  {
    var c, e := cs[j], cs[i].Current();
    assert lists[i][cs[i].at] == e;
    forall x | 0 <= x < |c.items| && !above(c.items[x])
      ensures !Before(e, c.items[x])
    {
    }
    if c.Valid() {
      assert lists[j][c.at] == c.Current();
    }
  }

  lemma OthersPreceding(lists: seq<seq<Entry>>, cs: seq<Cursor<Entry>>, below: Entry -> bool, i: int, j: int)
    requires AllSorted(lists) && Distinct(lists) && Over(cs, lists) && Lower(below) && Largest(cs, i)
    requires 0 <= i < |cs| && 0 <= j < |cs| && j != i && LastIn(cs[i], below) && LastIn(cs[j], below)
    ensures LastIn(cs[j], Preceding(cs[i].Current()))
  {
    var c, e := cs[j], cs[i].Current();
    assert lists[i][cs[i].at] == e;
    forall x | 0 <= x < |c.items| && !below(c.items[x])
      ensures !Before(c.items[x], e)
    {
    }
    if c.Valid() {
      assert lists[j][c.at] == c.Current();
    }
  }

  /** The smallest of the first items above a line is the first item of the union above it. */
  /** An entry of the part comes from a child that stands at or before it. */
  lemma NoneSmaller(lists: seq<seq<Entry>>, cs: seq<Cursor<Entry>>, above: Entry -> bool, i: int, e: Entry)
    requires AllSorted(lists) && Over(cs, lists) && InSome(lists, e) && above(e)
    requires (forall j :: 0 <= j < |cs| ==> FirstIn(cs[j], above)) && Smallest(cs, i)
    ensures i != -1 && !Before(e, cs[i].Current())
  {
    var j :| 0 <= j < |lists| && e in lists[j];
    var x :| 0 <= x < |lists[j]| && lists[j][x] == e;
    assert FirstIn(cs[j], above);
    assert cs[j].Valid() && cs[j].at <= x;
    if cs[j].at != x {
      assert InOrder(lists[j]);
    }
  }

  lemma LandFirst(lists: seq<seq<Entry>>, cs: seq<Cursor<Entry>>, above: Entry -> bool, i: int)
    requires AllSorted(lists) && Distinct(lists) && Over(cs, lists) && Upper(above)
    requires (forall j :: 0 <= j < |cs| ==> FirstIn(cs[j], above)) && Smallest(cs, i)
    ensures FirstIn(Cursor(MergeAll(lists), if i == -1 then -1 else Rank(lists, cs[i].Current())), above)
  {
    hide Over, Distinct, AllSorted, InSome, Rank;
    var m := MergeAll(lists);
    MergeAllIsUnion(lists);
    forall q | 0 <= q < |m| && above(m[q])
      ensures i != -1 && !Before(m[q], cs[i].Current())
    {
      assert m[q] in m;
      NoneSmaller(lists, cs, above, i, m[q]);
    }
    if i != -1 {
      CurrentFirst(lists, cs, above, i);
    }
  }

  lemma CurrentFirst(lists: seq<seq<Entry>>, cs: seq<Cursor<Entry>>, above: Entry -> bool, i: nat)
    requires AllSorted(lists) && Distinct(lists) && Over(cs, lists)
    requires (forall j :: 0 <= j < |cs| ==> FirstIn(cs[j], above)) && Smallest(cs, i)
    ensures i < |cs| && cs[i].Valid() && above(cs[i].Current())
    ensures var m, p := MergeAll(lists), Rank(lists, cs[i].Current());
      p < |m| && m[p] == cs[i].Current() && InOrder(m)
  {
    RankOf(lists, i, cs[i].at);
  }

  /** An entry of the part comes from a child that stands at or behind it. */
  lemma NoneLarger(lists: seq<seq<Entry>>, cs: seq<Cursor<Entry>>, below: Entry -> bool, i: int, e: Entry)
    requires AllSorted(lists) && Over(cs, lists) && InSome(lists, e) && below(e)
    requires (forall j :: 0 <= j < |cs| ==> LastIn(cs[j], below)) && Largest(cs, i)
    ensures i != -1 && !Before(cs[i].Current(), e)
  {
    var j :| 0 <= j < |lists| && e in lists[j];
    var x :| 0 <= x < |lists[j]| && lists[j][x] == e;
    assert LastIn(cs[j], below);
    assert cs[j].Valid() && cs[j].at >= x;
    if cs[j].at != x {
      assert InOrder(lists[j]);
    }
  }

  lemma LandLast(lists: seq<seq<Entry>>, cs: seq<Cursor<Entry>>, below: Entry -> bool, i: int)
    requires AllSorted(lists) && Distinct(lists) && Over(cs, lists) && Lower(below)
    requires (forall j :: 0 <= j < |cs| ==> LastIn(cs[j], below)) && Largest(cs, i)
    ensures LastIn(Cursor(MergeAll(lists), if i == -1 then -1 else Rank(lists, cs[i].Current())), below)
  {
    hide Over, Distinct, AllSorted, InSome, Rank;
    var m := MergeAll(lists);
    MergeAllIsUnion(lists);
    forall q | 0 <= q < |m| && below(m[q])
      ensures i != -1 && !Before(cs[i].Current(), m[q])
    {
      assert m[q] in m;
      NoneLarger(lists, cs, below, i, m[q]);
    }
    if i != -1 {
      CurrentLast(lists, cs, below, i);
    }
  }

  lemma CurrentLast(lists: seq<seq<Entry>>, cs: seq<Cursor<Entry>>, below: Entry -> bool, i: nat)
    requires AllSorted(lists) && Distinct(lists) && Over(cs, lists)
    requires (forall j :: 0 <= j < |cs| ==> LastIn(cs[j], below)) && Largest(cs, i)
    ensures i < |cs| && cs[i].Valid() && below(cs[i].Current())
    ensures var m, p := MergeAll(lists), Rank(lists, cs[i].Current());
      p < |m| && m[p] == cs[i].Current() && InOrder(m)
  {
    RankOf(lists, i, cs[i].at);
  }

  // ----- single children

  lemma NextIsFirstAfter(c: Cursor<Entry>)
    requires InOrder(c.items) && c.Valid()
    ensures FirstIn(c.Next(), After(c.Current()))
  {
  }

  lemma PrevIsLastPreceding(c: Cursor<Entry>)
    requires InOrder(c.items) && c.Valid()
    ensures LastIn(c.Prev(), Preceding(c.Current()))
  {
  }

  lemma SeekIsFirst(c: Cursor<Entry>, e: Entry)
    requires InOrder(c.items)
    ensures FirstIn(c.To(FirstNotBefore(c.items, e)), NotBefore(e))
  {
  }

  /** There is one such place in a sequence. */
  lemma FirstInUnique(c: Cursor<Entry>, d: Cursor<Entry>, above: Entry -> bool)
    requires c.items == d.items && FirstIn(c, above) && FirstIn(d, above)
    ensures c == d
  {
  }

  lemma LastInUnique(c: Cursor<Entry>, d: Cursor<Entry>, below: Entry -> bool)
    requires c.items == d.items && LastIn(c, below) && LastIn(d, below)
    ensures c == d
  {
  }

  /** How a child is put right above a key: seek it, and step over it if it is there. */
  method SeekPast(c: Cursor<Entry>, e: Entry) returns (d: Cursor<Entry>)
    requires InOrder(c.items)
    ensures d.items == c.items && FirstIn(d, After(e))
  {
    d := c.To(FirstNotBefore(c.items, e));
    if d.Valid() && !Before(e, d.Current()) && !Before(d.Current(), e) {
      d := d.Next();
    }
  }

  /** How a child is put right below a key. */
  method SeekBelow(c: Cursor<Entry>, e: Entry) returns (d: Cursor<Entry>)
    requires InOrder(c.items)
    ensures d.items == c.items && LastIn(d, Preceding(e))
  {
    d := c.To(FirstNotBefore(c.items, e));
    if d.Valid() {
      d := d.Prev();
    } else {
      d := d.Last();
    }
  }

  class MergingIterator {
    const children: array<Cursor<Entry>>
    var current: int        // -1 stands for no child
    var direction: Direction
    ghost const lists: seq<seq<Entry>>

    /** Sorted children without a common key. */
    ghost predicate Set()
      reads this, children
    {
      && AllSorted(lists) && Distinct(lists) && Over(children[..], lists)
      && -1 <= current < children.Length
    }

    /** The children other than the current one stand at their first key above it when the
        iterator runs forward, and at their last key below it when it runs backward. */
    ghost predicate Standing()
      reads this, children
      requires Set()
    {
      current >= 0 ==>
        && children[current].Valid()
        && forall j :: 0 <= j < children.Length && j != current ==>
             if direction == Forward then FirstIn(children[j], After(children[current].Current()))
             else LastIn(children[j], Preceding(children[current].Current()))
    }

    ghost predicate Wf()
      reads this, children
    {
      Set() && Standing()
    }

    /** The cursor over the sorted union that this iterator is. */
    ghost function View(): Cursor<Entry>
      reads this, children
      requires Wf()
    {
      Cursor(MergeAll(lists), if current < 0 then -1 else Rank(lists, children[current].Current()))
    }

    constructor (iters: array<Cursor<Entry>>, ghost lists: seq<seq<Entry>>)
      requires AllSorted(lists) && Distinct(lists) && Over(iters[..], lists)
      ensures Wf() && children == iters && this.lists == lists
      ensures View() == Cursor(MergeAll(lists), -1)
    {
      children, current, direction := iters, -1, Forward;
      this.lists := lists;
    }

    /** `Valid`. */
    method AtEntry() returns (b: bool)
      requires Wf()
      ensures b == View().Valid()
    {
      b := current >= 0;
      if b {
        RankOf(lists, current, children[current].at);
      }
    }

    /** `key` and `value`: the entry of the current child. */
    method Current() returns (e: Entry)
      requires Wf() && View().Valid()
      ensures e == View().Current()
    {
      e := children[current].Current();
      RankOf(lists, current, children[current].at);
    }

    /** `FindSmallest`: the first child with the smallest key. */
    method FindSmallest()
      requires Set()
      modifies this`current
      ensures Set() && Smallest(children[..], current)
    {
      var smallest := -1;
      for i := 0 to children.Length
        invariant -1 <= smallest < i
        invariant smallest == -1 ==> forall j :: 0 <= j < i ==> !children[j].Valid()
        invariant smallest >= 0 ==> children[smallest].Valid()
        invariant forall j :: smallest >= 0 && 0 <= j < i && children[j].Valid() ==>
          !Before(children[j].Current(), children[smallest].Current())
      {
        if children[i].Valid() {
          if smallest == -1 {
            smallest := i;
          } else if Before(children[i].Current(), children[smallest].Current()) {
            smallest := i;
          }
        }
      }
      current := smallest;
    }

    /** `FindLargest`: the last child with the largest key. */
    method FindLargest()
      requires Set()
      modifies this`current
      ensures Set() && Largest(children[..], current)
    {
      var largest := -1;
      for i := children.Length downto 0
        invariant largest == -1 || i <= largest < children.Length
        invariant largest == -1 ==> forall j :: i <= j < children.Length ==> !children[j].Valid()
        invariant largest >= 0 ==> children[largest].Valid()
        invariant forall j :: largest >= 0 && i <= j < children.Length && children[j].Valid() ==>
          !Before(children[largest].Current(), children[j].Current())
      {
        if children[i].Valid() {
          if largest == -1 {
            largest := i;
          } else if Before(children[largest].Current(), children[i].Current()) {
            largest := i;
          }
        }
      }
      current := largest;
    }

    /** Every child stands at its first item of an upper part: choose the smallest. */
    method LandForward(ghost above: Entry -> bool)
      requires Set() && Upper(above) && forall j :: 0 <= j < children.Length ==> FirstIn(children[j], above)
      modifies this`current, this`direction
      ensures Wf() && FirstIn(View(), above)
    {
      hide FirstIn, LastIn, Rank;
      FindSmallest();
      direction := Forward;
      LandFirst(lists, children[..], above, current);
      if current >= 0 {
        forall j | 0 <= j < children.Length && j != current
          ensures FirstIn(children[j], After(children[current].Current()))
        {
          OthersAfter(lists, children[..], above, current, j);
        }
      }
      assert View() == Cursor(MergeAll(lists), if current == -1 then -1 else Rank(lists, children[..][current].Current()));
    }

    method LandBackward(ghost below: Entry -> bool)
      requires Set() && Lower(below) && forall j :: 0 <= j < children.Length ==> LastIn(children[j], below)
      modifies this`current, this`direction
      ensures Wf() && LastIn(View(), below)
    {
      hide FirstIn, LastIn, Rank;
      FindLargest();
      direction := Reverse;
      LandLast(lists, children[..], below, current);
      if current >= 0 {
        forall j | 0 <= j < children.Length && j != current
          ensures LastIn(children[j], Preceding(children[current].Current()))
        {
          OthersPreceding(lists, children[..], below, current, j);
        }
      }
      assert View() == Cursor(MergeAll(lists), if current == -1 then -1 else Rank(lists, children[..][current].Current()));
    }

    method SeekToFirst()
      requires Wf()
      modifies this`current, this`direction, children
      ensures Wf() && View() == old(View()).First()
    {
      for i := 0 to children.Length
        invariant Set() && forall j :: 0 <= j < i ==> FirstIn(children[j], Everything())
      {
        children[i] := children[i].First();
      }
      LandForward(Everything());
      FirstInUnique(View(), old(View()).First(), Everything());
    }

    method SeekToLast()
      requires Wf()
      modifies this`current, this`direction, children
      ensures Wf() && View() == old(View()).Last()
    {
      for i := 0 to children.Length
        invariant Set() && forall j :: 0 <= j < i ==> LastIn(children[j], Everything())
      {
        children[i] := children[i].Last();
      }
      LandBackward(Everything());
      LastInUnique(View(), old(View()).Last(), Everything());
    }

    method Seek(target: Entry)
      requires Wf()
      modifies this`current, this`direction, children
      ensures Wf() && View() == old(View()).To(FirstNotBefore(MergeAll(lists), target))
    {
      for i := 0 to children.Length
        invariant Set() && forall j :: 0 <= j < i ==> FirstIn(children[j], NotBefore(target))
      {
        SeekIsFirst(children[i], target);
        children[i] := children[i].To(FirstNotBefore(children[i].items, target));
      }
      LandForward(NotBefore(target));
      MergeAllIsUnion(lists);
      SeekIsFirst(View(), target);
      FirstInUnique(View(), View().To(FirstNotBefore(MergeAll(lists), target)), NotBefore(target));
    }

    /** What a change of direction does to the other children. */
    method TurnForward()
      requires Wf() && current >= 0
      modifies children
      ensures Set() && children[current] == old(children[current]) && children[current].Valid()
      ensures forall j :: 0 <= j < children.Length && j != current ==> FirstIn(children[j], After(children[current].Current()))
    {
      var e := children[current].Current();
      for i := 0 to children.Length
        invariant Set() && children[current] == old(children[current])
        invariant forall j :: 0 <= j < i && j != current ==> FirstIn(children[j], After(e))
      {
        if i != current {
          assert children[i] == children[..][i];
          children[i] := SeekPast(children[i], e);
        }
      }
    }

    method TurnBackward()
      requires Wf() && current >= 0
      modifies children
      ensures Set() && children[current] == old(children[current]) && children[current].Valid()
      ensures forall j :: 0 <= j < children.Length && j != current ==> LastIn(children[j], Preceding(children[current].Current()))
    {
      var e := children[current].Current();
      for i := 0 to children.Length
        invariant Set() && children[current] == old(children[current])
        invariant forall j :: 0 <= j < i && j != current ==> LastIn(children[j], Preceding(e))
      {
        if i != current {
          assert children[i] == children[..][i];
          children[i] := SeekBelow(children[i], e);
        }
      }
    }

    /** Past the current entry, with all other children already past it. */
    method LeaveForward(ghost e: Entry)
      requires Set() && current >= 0 && children[current].Valid() && children[current].Current() == e
      requires forall j :: 0 <= j < children.Length && j != current ==> FirstIn(children[j], After(e))
      modifies this`current, this`direction, children
      ensures Wf() && FirstIn(View(), After(e))
    {
      hide FirstIn, LastIn, Rank, Distinct;
      assert children[current] == children[..][current];
      NextIsFirstAfter(children[current]);
      children[current] := children[current].Next();
      LandForward(After(e));
    }

    method Next()
      requires Wf() && View().Valid()
      modifies this`current, this`direction, children
      ensures Wf() && View() == old(View()).Next()
    {
      hide FirstIn, LastIn, Distinct, AllSorted, Over;
      ghost var e, was := children[current].Current(), View();
      CurrentInUnion(children[..], lists, current);
      NextIsFirstAfter(was);
      if direction != Forward {
        TurnForward();
        direction := Forward;
      }
      LeaveForward(e);
      FirstInUnique(View(), was.Next(), After(e));
    }

    /** Below the current entry, with all other children already below it. */
    method LeaveBackward(ghost e: Entry)
      requires Set() && current >= 0 && children[current].Valid() && children[current].Current() == e
      requires forall j :: 0 <= j < children.Length && j != current ==> LastIn(children[j], Preceding(e))
      modifies this`current, this`direction, children
      ensures Wf() && LastIn(View(), Preceding(e))
    {
      hide FirstIn, LastIn, Rank, Distinct;
      assert children[current] == children[..][current];
      PrevIsLastPreceding(children[current]);
      children[current] := children[current].Prev();
      LandBackward(Preceding(e));
    }

    method Prev()
      requires Wf() && View().Valid()
      modifies this`current, this`direction, children
      ensures Wf() && View() == old(View()).Prev()
    {
      hide FirstIn, LastIn, Distinct, AllSorted, Over;
      ghost var e, was := children[current].Current(), View();
      CurrentInUnion(children[..], lists, current);
      PrevIsLastPreceding(was);
      if direction != Reverse {
        TurnBackward();
        direction := Reverse;
      }
      LeaveBackward(e);
      LastInUnique(View(), was.Prev(), Preceding(e));
    }
  }

  lemma CurrentInUnion(cs: seq<Cursor<Entry>>, lists: seq<seq<Entry>>, i: nat)
    requires AllSorted(lists) && Distinct(lists) && Over(cs, lists) && i < |cs| && cs[i].Valid()
    ensures var m, p := MergeAll(lists), Rank(lists, cs[i].Current());
      p < |m| && m[p] == cs[i].Current() && InOrder(m)
  {
    RankOf(lists, i, cs[i].at);
  }
}
