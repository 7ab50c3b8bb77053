/** The whole read path of a transaction: changes over a snapshot over a merge. */
module CursorStack {
  import opened Common
  import opened Cursors
  import opened Snapshot
  import opened Overlay
  import opened DbIterator
  import opened DeltaAmend
  import Merging

  /** `e` is the newest entry of its user key at or below the snapshot in any of the lists. */
  ghost predicate NewestVisible(lists: seq<seq<Entry>>, snap: nat, e: Entry) {
    && Merging.InSome(lists, e) && e.seqNo <= snap
    && forall f :: Merging.InSome(lists, f) && f.user == e.user && f.seqNo <= snap ==> f.seqNo <= e.seqNo
  }

  /** An item that the read path shows: the uncommitted value if there is one, nothing if the key
      is deleted there, and otherwise the newest committed version at or below the snapshot, over
      all memory tables and files, if that is a value. */
  ghost predicate IsShown(lists: seq<seq<Entry>>, snap: nat, delta: seq<Change>, it: Item) {
    Writes(delta, it) ||
    (!Changed(delta, it.user) &&
     exists e :: NewestVisible(lists, snap, e) && e.flag == IsValue && e.user == it.user && e.value == it.value)
  }

  /** What the sequence shows that the topmost iterator of the stack is a cursor in. */
  lemma StackShows(lists: seq<seq<Entry>>, snap: nat, delta: seq<Change>, it: Item)
    requires Merging.AllSorted(lists) && Merging.Distinct(lists) && Ascending(ChangeKeys(delta))
    ensures Ascending(Keys(Overlaid(All(Merging.MergeAll(lists), snap), delta)))
    ensures it in Overlaid(All(Merging.MergeAll(lists), snap), delta) <==> IsShown(lists, snap, delta, it)
  {
    var m := Merging.MergeAll(lists);
    Merging.MergeAllIsUnion(lists);
    SnapshotIsNewestValues(m, snap, it);
    OverlaidAscending(All(m, snap), delta);
    OverlaidMembers(All(m, snap), delta, it);
    if it in All(m, snap) {
      var e :| && e in m && e.user == it.user && e.value == it.value && e.flag == IsValue && e.seqNo <= snap
               && forall f :: f in m && f.user == e.user && f.seqNo <= snap ==> f.seqNo <= e.seqNo;
      assert NewestVisible(lists, snap, e);
    }
    if e :| NewestVisible(lists, snap, e) && e.flag == IsValue && e.user == it.user && e.value == it.value {
      assert e in m;
    }
  }

  /** The three iterators on top of each other. */
  method Open(children: array<Cursor<Entry>>, ghost lists: seq<seq<Entry>>, snap: nat, delta: seq<Change>)
    returns (it: DeltaAmendIterator)
    requires Merging.AllSorted(lists) && Merging.Distinct(lists) && Merging.Over(children[..], lists)
    requires Ascending(ChangeKeys(delta))
    ensures it.Wf() && it.View() == Cursor(Overlaid(All(Merging.MergeAll(lists), snap), delta), -1)
    ensures fresh(it) && fresh(it.baseIter) && fresh(it.baseIter.inner) && it.baseIter.inner.children == children
  {
    var merging := new Merging.MergingIterator(children, lists);
    var db := new DBIterator(merging, snap);
    it := new DeltaAmendIterator(db, Cursor(delta, -1));
  }

  /** `SeekToFirst`, and `Next` as long as there is an item. */
  method ListForward(it: DeltaAmendIterator) returns (s: seq<Item>)
    requires it.Wf()
    modifies it, it.baseIter, it.baseIter.inner, it.baseIter.inner.children
    ensures it.Wf() && s == it.View().items == old(it.View()).items
  {
    hide DeltaAmendIterator.Wf, DeltaAmendIterator.View, DeltaAmendIterator.Valid;
    ghost var items := it.View().items;
    it.SeekToEnd(Forward);
    s := [];
    var more := it.AtItem();
    while more
      invariant it.Wf() && it.View().items == items && more == it.Valid() == it.View().Valid() && s <= items
      invariant if more then it.View().at == |s| else s == items
      decreases |items| - |s|, more
    {
      var item := it.Current();
      s := s + [item];
      it.Next();
      more := it.AtItem();
    }
  }

  /** `SeekToLast`, and `Prev` as long as there is an item; the list is built from its end. */
  method ListBackward(it: DeltaAmendIterator) returns (s: seq<Item>)
    requires it.Wf()
    modifies it, it.baseIter, it.baseIter.inner, it.baseIter.inner.children
    ensures it.Wf() && s == it.View().items == old(it.View()).items
  {
    hide DeltaAmendIterator.Wf, DeltaAmendIterator.View, DeltaAmendIterator.Valid;
    ghost var items := it.View().items;
    it.SeekToEnd(Reverse);
    s := [];
    var more := it.AtItem();
    while more
      invariant it.Wf() && it.View().items == items && more == it.Valid() == it.View().Valid()
      invariant if more then s == items[it.View().at + 1..] else s == items
      decreases |items| - |s|, more
    {
      var item := it.Current();
      ghost var at := it.View().at;
      assert items[at..] == [item] + items[at + 1..];
      s := [item] + s;
      it.Prev();
      more := it.AtItem();
    }
  }

  /** A full scan of the stack, either way: exactly what is shown, in key order. */
  method ScanStack(children: array<Cursor<Entry>>, ghost lists: seq<seq<Entry>>, snap: nat, delta: seq<Change>)
    returns (forward: seq<Item>, backward: seq<Item>)
    requires Merging.AllSorted(lists) && Merging.Distinct(lists) && Merging.Over(children[..], lists)
    requires Ascending(ChangeKeys(delta))
    modifies children
    ensures forward == backward && Ascending(Keys(forward))
    ensures forall it :: it in forward <==> IsShown(lists, snap, delta, it)
  {
    var stack := Open(children, lists, snap, delta);
    forward := ListForward(stack);
    backward := ListBackward(stack);
    StackShows(lists, snap, delta, Item(0.0, ""));
    forall it
      ensures it in forward <==> IsShown(lists, snap, delta, it)
    {
      StackShows(lists, snap, delta, it);
    }
  }
}
