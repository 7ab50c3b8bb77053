/** Walking the keys of a Bw-tree in order, in both directions. */
module BwIterator {
  import opened Common
  import opened SortedEntries
  import opened BwPage
  import opened BwShape
  import opened BwTree

  /** `r` is the first key above `k`. */
  ghost predicate IsSuccessor(keys: iset<Key>, k: Key, r: Key) {
    r in keys && r > k && forall x :: x in keys && x > k ==> x >= r
  }

  /** `r` is the last key below `k`. */
  ghost predicate IsPredecessor(keys: iset<Key>, k: Key, r: Key) {
    r in keys && r < k && forall x :: x in keys && x < k ==> x <= r
  }

  /** No key is above, or below, `k`. */
  ghost predicate IsGreatest(keys: iset<Key>, k: Key) {
    forall x :: x in keys ==> x <= k
  }

  ghost predicate IsLeast(keys: iset<Key>, k: Key) {
    forall x :: x in keys ==> x >= k
  }

  /** No key of the tree lies strictly between `k` and the end of the interval. */
  ghost predicate NothingUpTo(views: Views, k: Key, hi: Bound) {
    forall x {:trigger InTree(views, x)} :: InTree(views, x) && x > k ==> hi.At? && x >= hi.key
  }

  /** No key of the tree lies strictly between the start of the interval and `k`. */
  ghost predicate NothingDownTo(views: Views, k: Key, lo: Bound) {
    forall x {:trigger InTree(views, x)} :: InTree(views, x) && x < k ==> lo.At? && x <= lo.key
  }

  /** A key inside the interval of a leaf is in that leaf or nowhere. */
  lemma OnlyInLeaf(views: Views, ranges: Ranges, root: Pid, level: nat, a: Pid, k: Key)
    requires TreeInv(views, ranges, root, level) && a in views && ranges[a].level == 0
    requires Inside(ranges[a], k) && InTree(views, k)
    ensures Has(views[a].entries, k)
  {
    var b :| b in views && Has(views[b].entries, k);
    KeyIsAtOrBelow(views, ranges, root, level, a, b, k);
  }

  lemma PageKeyInTree(views: Views, ranges: Ranges, root: Pid, level: nat, a: Pid, i: nat)
    requires TreeInv(views, ranges, root, level) && a in views && i < |views[a].entries|
    ensures a in ranges && InTree(views, views[a].entries[i].key) && Inside(ranges[a], views[a].entries[i].key)
    ensures Sorted(views[a].entries)
  {
    assert Fits(views[a], ranges[a], ranges);
    HasAt(views[a].entries, i);
  }

  lemma WithinLeaf(views: Views, ranges: Ranges, root: Pid, level: nat, a: Pid, i: nat)
    requires TreeInv(views, ranges, root, level) && a in views && ranges[a].level == 0 && i + 1 < |views[a].entries|
    ensures IsSuccessor(KeySet(views), views[a].entries[i].key, views[a].entries[i + 1].key)
    ensures IsPredecessor(KeySet(views), views[a].entries[i + 1].key, views[a].entries[i].key)
  {
    hide TreeInv;
    var e := views[a].entries;
    PageKeyInTree(views, ranges, root, level, a, i);
    PageKeyInTree(views, ranges, root, level, a, i + 1);
    forall x | InTree(views, x) && e[i].key < x < e[i + 1].key
      ensures false
    {
      OnlyInLeaf(views, ranges, root, level, a, x);
    }
  }

  lemma LeafEnd(views: Views, ranges: Ranges, root: Pid, level: nat, a: Pid)
    requires TreeInv(views, ranges, root, level) && a in views && ranges[a].level == 0 && views[a].entries != []
    ensures NothingUpTo(views, views[a].entries[|views[a].entries| - 1].key, ranges[a].hi)
    ensures NothingDownTo(views, views[a].entries[0].key, ranges[a].lo)
  {
    hide TreeInv;
    var e := views[a].entries;
    PageKeyInTree(views, ranges, root, level, a, |e| - 1);
    PageKeyInTree(views, ranges, root, level, a, 0);
    forall x | InTree(views, x) && x > e[|e| - 1].key
      ensures ranges[a].hi.At? && x >= ranges[a].hi.key
    {
      if Inside(ranges[a], x) {
        OnlyInLeaf(views, ranges, root, level, a, x);
      }
    }
    forall x | InTree(views, x) && x < e[0].key
      ensures ranges[a].lo.At? && x <= ranges[a].lo.key
    {
      if Inside(ranges[a], x) {
        OnlyInLeaf(views, ranges, root, level, a, x);
      }
    }
  }

  /** Climbing from a page to its parent: either the parent's next separator is the answer,
      or the parent's interval ends where the page's does. */
  lemma ClimbUp(views: Views, ranges: Ranges, root: Pid, level: nat, p: Pid, par: Pid, k: Key)
    requires TreeInv(views, ranges, root, level) && p in views && Inside(ranges[p], k)
    requires ParentOf(views, ranges, p, par) && NothingUpTo(views, k, ranges[p].hi)
    ensures par in views && Inside(ranges[par], k) && ranges[par].level == ranges[p].level + 1
    ensures var e, i := views[par].entries, Lower(views[par].entries, k);
      if i < |e| then IsSuccessor(KeySet(views), k, e[i].key) else NothingUpTo(views, k, ranges[par].hi)
  {
    var i: nat :| HangsAt(views, ranges, p, par, i);
    assert Fits(views[par], ranges[par], ranges);
    ChildInside(views[par], ranges[par], ranges, i, k);
    if i < |views[par].entries| {
      PageKeyInTree(views, ranges, root, level, par, i);
    }
  }

  lemma ClimbDown(views: Views, ranges: Ranges, root: Pid, level: nat, p: Pid, par: Pid, k: Key)
    requires TreeInv(views, ranges, root, level) && p in views && Inside(ranges[p], k)
    requires ParentOf(views, ranges, p, par) && NothingDownTo(views, k, ranges[p].lo)
    ensures par in views && Inside(ranges[par], k) && ranges[par].level == ranges[p].level + 1
    ensures var e, i := views[par].entries, Lower(views[par].entries, k);
      if i > 0 then IsPredecessor(KeySet(views), k, e[i - 1].key) else NothingDownTo(views, k, ranges[par].lo)
  {
    var i: nat :| HangsAt(views, ranges, p, par, i);
    assert Fits(views[par], ranges[par], ranges);
    ChildInside(views[par], ranges[par], ranges, i, k);
    if i > 0 {
      PageKeyInTree(views, ranges, root, level, par, i - 1);
    }
  }

  /** The first key of a leaf follows the key that its interval starts at, and dually. */
  lemma LeafNeighbours(views: Views, ranges: Ranges, root: Pid, level: nat, a: Pid, k: Key)
    requires TreeInv(views, ranges, root, level) && a in views && ranges[a].level == 0 && views[a].entries != []
    ensures ranges[a].lo == At(k) ==> IsSuccessor(KeySet(views), k, views[a].entries[0].key)
    ensures ranges[a].hi == At(k) ==> IsPredecessor(KeySet(views), k, views[a].entries[|views[a].entries| - 1].key)
  {
    hide TreeInv;
    PageKeyInTree(views, ranges, root, level, a, 0);
    PageKeyInTree(views, ranges, root, level, a, |views[a].entries| - 1);
    LeafEnd(views, ranges, root, level, a);
  }

  /** The children of an inner page are pages, never empty, and own their share of its interval. */
  lemma InnerChild(views: Views, ranges: Ranges, root: Pid, level: nat, a: Pid, i: nat)
    requires TreeInv(views, ranges, root, level) && a in views && i <= |views[a].entries|
    ensures a in ranges && (ranges[a].level == 0 <==> ChildAt(views[a], i) == 0)
    ensures var c := ChildAt(views[a], i);
      ranges[a].level > 0 ==>
        && c in views && c in ranges && ranges[c] == ChildRange(ranges[a], views[a].entries, i)
        && views[c].entries != []
  {
    assert Fits(views[a], ranges[a], ranges);
    if ranges[a].level > 0 {
      assert ranges[ChildAt(views[a], i)] == ChildRange(ranges[a], views[a].entries, i);
      assert ranges[ChildAt(views[a], i)].level < level;
    }
  }

  /** `NodeAt`: a key of a page and the child in front of it. */
  method NodeAt(node: Node, idx: nat) returns (key: Key, pid: Pid)
    requires Linked(node) && idx <= |ViewOf(node).entries|
    ensures idx < |ViewOf(node).entries| ==> key == ViewOf(node).entries[idx].key
    ensures pid == ChildAt(ViewOf(node), idx)
  {
    var v := MakeView(node);
    if idx == |v.entries| {
      return 0.0, v.overflow;
    }
    return v.entries[idx].key, v.entries[idx].child;
  }

  lemma PageFacts(pages: Pages, ranges: Ranges, root: Pid, level: nat, nextPid: Pid, a: Pid)
    requires TreeOk(pages, ranges, root, level, nextPid) && a in pages
    ensures a in ranges && Linked(pages[a]) && pages[a].meta.size == |ViewOf(pages[a]).entries|
    ensures a in ViewsOf(pages) && ViewsOf(pages)[a] == ViewOf(pages[a])
    ensures pages[a].meta.size > 0 ==>
      pages[a].meta.largest == ViewOf(pages[a]).entries[|ViewOf(pages[a]).entries| - 1].key
  {
  }

  /** `FindSmallestChild` / `FindLargestChild`: down the leftmost or the rightmost children. */
  method FindEdgeLeaf(tree: Tree, x: Pid, leftmost: bool) returns (leaf: Pid)
    requires tree.Ok() && x in tree.pages && ViewOf(tree.pages[x]).entries != []
    ensures leaf in tree.pages && ViewOf(tree.pages[leaf]).entries != []
    ensures leaf in tree.ranges && x in tree.ranges && tree.ranges[leaf].level == 0
    ensures if leftmost then tree.ranges[leaf].lo == tree.ranges[x].lo else tree.ranges[leaf].hi == tree.ranges[x].hi
  {
    hide TreeInv, NodeOk;
    leaf := x;
    PageFacts(tree.pages, tree.ranges, tree.root, tree.level, tree.nextPid, x);
    while true
      invariant leaf in tree.pages && ViewOf(tree.pages[leaf]).entries != [] && leaf in tree.ranges
      invariant if leftmost then tree.ranges[leaf].lo == tree.ranges[x].lo else tree.ranges[leaf].hi == tree.ranges[x].hi
      decreases tree.ranges[leaf].level
    {
      PageFacts(tree.pages, tree.ranges, tree.root, tree.level, tree.nextPid, leaf);
      var idx := if leftmost then 0 else tree.pages[leaf].meta.size;
      InnerChild(ViewsOf(tree.pages), tree.ranges, tree.root, tree.level, leaf, idx);
      var _, pid := NodeAt(tree.pages[leaf], idx);
      if pid == 0 {
        return;
      }
      leaf := pid;
    }
  }

  /** Every key of the tree that is inside the interval of `x` is at most `r`, and `r` is such a key. */
  ghost predicate IsLargestIn(views: Views, r: Range, k: Key) {
    InTree(views, k) && Inside(r, k) && forall x {:trigger InTree(views, x)} :: InTree(views, x) && Inside(r, x) ==> x <= k
  }

  lemma LargestInLeaf(views: Views, ranges: Ranges, root: Pid, level: nat, leaf: Pid, r: Range)
    requires TreeInv(views, ranges, root, level) && leaf in views && ranges[leaf].level == 0 && views[leaf].entries != []
    requires ranges[leaf].hi == r.hi && forall k :: Inside(ranges[leaf], k) ==> Inside(r, k)
    ensures IsLargestIn(views, r, views[leaf].entries[|views[leaf].entries| - 1].key)
  {
    hide TreeInv;
    PageKeyInTree(views, ranges, root, level, leaf, |views[leaf].entries| - 1);
    LeafEnd(views, ranges, root, level, leaf);
  }

  lemma LastChildInside(views: Views, ranges: Ranges, root: Pid, level: nat, a: Pid, k: Key)
    requires TreeInv(views, ranges, root, level) && a in views && ranges[a].level > 0
    ensures var c := ChildAt(views[a], |views[a].entries|);
      c in ranges && (Inside(ranges[c], k) ==> Inside(ranges[a], k))
  {
    InnerChild(views, ranges, root, level, a, |views[a].entries|);
    assert Fits(views[a], ranges[a], ranges);
    if Inside(ranges[ChildAt(views[a], |views[a].entries|)], k) {
      ChildInside(views[a], ranges[a], ranges, |views[a].entries|, k);
    }
  }

  /** `GetLargestKey`: the last key below a page, consolidating the pages it passes. */
  method GetLargestKey(tree: Tree, x: Pid, trigger: bool) returns (r: Key)
    requires tree.Ok() && x in tree.pages && x in tree.ranges && ViewOf(tree.pages[x]).entries != []
    modifies tree`pages
    ensures tree.Ok() && ViewsOf(tree.pages) == old(ViewsOf(tree.pages))
    ensures old(tree.Valid()) ==> tree.Valid()
    ensures IsLargestIn(ViewsOf(tree.pages), tree.ranges[x], r)
  {
    hide TreeInv, NodeOk, IsLargestIn, ViewOf, SmallBut, BriefBut, NoneLonger;
    ghost var views := ViewsOf(tree.pages);
    var t := x;
    PageFacts(tree.pages, tree.ranges, tree.root, tree.level, tree.nextPid, x);
    while true
      invariant tree.Ok() && ViewsOf(tree.pages) == views && (old(tree.Valid()) ==> tree.Valid())
      invariant t in tree.pages && t in views && views[t].entries != [] && t in tree.ranges
      invariant tree.ranges[t].hi == tree.ranges[x].hi
      invariant forall k :: Inside(tree.ranges[t], k) ==> Inside(tree.ranges[x], k)
      decreases tree.ranges[t].level
    {
      PageFacts(tree.pages, tree.ranges, tree.root, tree.level, tree.nextPid, t);
      InnerChild(views, tree.ranges, tree.root, tree.level, t, |views[t].entries|);
      var node := tree.pages[t];
      var _, child := NodeAt(node, node.meta.size);
      if trigger || node.meta.depth > tree.consolidateTrigger {
        NodePage(node, tree.ranges[t].level);
        ghost var was := tree.pages;
        tree.Consolidate(t, node);
        if old(tree.Valid()) {
          NoneLongerKeeps(was, tree.pages, tree.ranges, tree.consolidateTrigger, tree.splitTrigger, 0);
        }
      }
      if child == 0 {
        LargestInLeaf(views, tree.ranges, tree.root, tree.level, t, tree.ranges[x]);
        return node.meta.largest;
      }
      forall k {
        LastChildInside(views, tree.ranges, tree.root, tree.level, t, k);
      }
      t := child;
    }
  }

  lemma NodePage(x: Node, level: nat)
    requires NodeOk(x, level)
    ensures Page(x)
  {
  }

  /** `r` is the first key that is not below `k`. */
  ghost predicate IsFirstFrom(keys: iset<Key>, k: Key, r: Key) {
    r in keys && r >= k && forall x :: x in keys && x >= k ==> x >= r
  }

  /** The search for `key` may go on in this interval: it holds the key, and an answer, if
      there is one anywhere. */
  ghost predicate SeekMayGoOn(views: Views, r: Range, key: Key) {
    Inside(r, key) && (r.hi == Unbounded || exists k :: InTree(views, k) && Inside(r, k) && k >= key)
  }

  lemma MayGoOnInside(views: Views, r: Range, key: Key)
    requires SeekMayGoOn(views, r, key)
    ensures Inside(r, key)
  {
  }

  lemma EmptyRoot(views: Views, ranges: Ranges, root: Pid, level: nat)
    requires TreeInv(views, ranges, root, level) && views[root].entries == []
    ensures KeySet(views) == iset{}
  {
    assert Fits(views[root], ranges[root], ranges);
    forall k | InTree(views, k)
      ensures false
    {
      OnlyInLeaf(views, ranges, root, level, root, k);
    }
  }

  lemma PageSorted(views: Views, ranges: Ranges, root: Pid, level: nat, a: Pid)
    requires TreeInv(views, ranges, root, level) && a in views
    ensures a in ranges && Sorted(views[a].entries)
    ensures forall i :: 0 <= i < |views[a].entries| ==> Inside(ranges[a], views[a].entries[i].key)
  {
    assert Fits(views[a], ranges[a], ranges);
  }

  lemma SeekAtLeaf(views: Views, ranges: Ranges, root: Pid, level: nat, a: Pid, key: Key)
    requires TreeInv(views, ranges, root, level) && a in views && ranges[a].level == 0
    requires SeekMayGoOn(views, ranges[a], key)
    ensures var e, i := views[a].entries, Lower(views[a].entries, key);
      if i < |e| then IsFirstFrom(KeySet(views), key, e[i].key)
      else forall x :: x in KeySet(views) ==> x < key
  {
    hide TreeInv;
    var e, i := views[a].entries, Lower(views[a].entries, key);
    PageSorted(views, ranges, root, level, a);
    if i < |e| {
      PageKeyInTree(views, ranges, root, level, a, i);
      forall x | InTree(views, x) && key <= x < e[i].key
        ensures false
      {
        OnlyInLeaf(views, ranges, root, level, a, x);
      }
    } else {
      forall x | InTree(views, x) && x >= key
        ensures false
      {
        var y :| InTree(views, y) && Inside(ranges[a], y) && y >= key;
        OnlyInLeaf(views, ranges, root, level, a, y);
      }
    }
  }

  lemma SeekAtInner(views: Views, ranges: Ranges, root: Pid, level: nat, a: Pid, key: Key, largest: Key)
    requires TreeInv(views, ranges, root, level) && a in views && ranges[a].level > 0 && Inside(ranges[a], key)
    requires Lower(views[a].entries, key) < |views[a].entries|
    requires var c := ChildAt(views[a], Lower(views[a].entries, key));
      c in ranges && IsLargestIn(views, ranges[c], largest)
    ensures var e, i := views[a].entries, Lower(views[a].entries, key);
      if key > largest then IsFirstFrom(KeySet(views), key, e[i].key)
      else SeekMayGoOn(views, ranges[ChildAt(views[a], i)], key)
  {
    var e, i := views[a].entries, Lower(views[a].entries, key);
    InnerChild(views, ranges, root, level, a, i);
    PageKeyInTree(views, ranges, root, level, a, i);
    var r := ranges[ChildAt(views[a], i)];
    assert forall x :: key <= x < e[i].key ==> Inside(r, x);
  }

  lemma SeekOverflow(views: Views, ranges: Ranges, root: Pid, level: nat, a: Pid, key: Key)
    requires TreeInv(views, ranges, root, level) && a in views && ranges[a].level > 0
    requires SeekMayGoOn(views, ranges[a], key) && Lower(views[a].entries, key) == |views[a].entries|
    ensures var c := ChildAt(views[a], |views[a].entries|);
      c in ranges && SeekMayGoOn(views, ranges[c], key)
  {
    InnerChild(views, ranges, root, level, a, |views[a].entries|);
    var r, c := ranges[a], ranges[ChildAt(views[a], |views[a].entries|)];
    assert forall x :: x >= key && Inside(r, x) ==> Inside(c, x);
  }

  class Iterator {
    const tree: Tree
    var node: Pid      // 0 stands for no page
    var current: int

    /** Positioned on some page of the tree, or on none. */
    ghost predicate Wf()
      reads this, tree
    {
      tree.Ok() && (node != 0 ==> node in tree.pages)
    }

    ghost predicate Valid()
      reads this, tree
    {
      Wf() && node != 0 && 0 <= current < |ViewOf(tree.pages[node]).entries|
    }

    ghost function KeyNow(): Key
      reads this, tree
      requires Valid()
    {
      ViewOf(tree.pages[node]).entries[current].key
    }

    constructor (tree: Tree)
      requires tree.Ok()
      ensures Wf() && !Valid() && this.tree == tree
    {
      this.tree, node, current := tree, 0, -1;
    }

    /** `Valid`, by the size the page records. */
    method AtKey() returns (b: bool)
      requires Wf()
      ensures b == Valid()
    {
      hide TreeInv, NodeOk;
      if node == 0 {
        return false;
      }
      PageFacts(tree.pages, tree.ranges, tree.root, tree.level, tree.nextPid, node);
      return 0 <= current < tree.pages[node].meta.size;
    }

    method CurrentKey() returns (k: Key)
      requires Valid()
      ensures k == KeyNow()
    {
      hide TreeInv, NodeOk;
      PageFacts(tree.pages, tree.ranges, tree.root, tree.level, tree.nextPid, node);
      var x, _ := NodeAt(tree.pages[node], current);
      return x;
    }

    /** Climbs from a page to the first page above it with a separator above the key. */
    method ClimbForNext(prevKey: Key)
      requires Wf() && node != 0 && node in tree.ranges && Inside(tree.ranges[node], prevKey)
      requires NothingUpTo(ViewsOf(tree.pages), prevKey, tree.ranges[node].hi)
      modifies this`node, this`current
      ensures Wf()
      ensures if Valid() then IsSuccessor(tree.Keys(), prevKey, KeyNow())
              else IsGreatest(tree.Keys(), prevKey)
    {
      hide TreeInv, NodeOk, InTree, IsSuccessor, ParentOf;
      RootHolds(tree.pages, tree.ranges, tree.root, tree.level, tree.nextPid, prevKey);
      while true
        invariant Wf() && node != 0 && node in tree.ranges && Inside(tree.ranges[node], prevKey)
        invariant NothingUpTo(ViewsOf(tree.pages), prevKey, tree.ranges[node].hi)
        invariant tree.ranges[node].level <= tree.level
        decreases tree.level - tree.ranges[node].level
      {
        var pid := tree.FindParent(node, prevKey);
        if pid == 0 {
          node := 0;
          return;
        }
        ClimbUp(ViewsOf(tree.pages), tree.ranges, tree.root, tree.level, node, pid, prevKey);
        PageFacts(tree.pages, tree.ranges, tree.root, tree.level, tree.nextPid, pid);
        node := pid;
        var idx, _, found := FindGreaterOrEqual(tree.pages[node], prevKey);
        current := idx;
        if found {
          return;
        }
      }
    }

    method ClimbForPrev(nextKey: Key)
      requires Wf() && node != 0 && node in tree.ranges && Inside(tree.ranges[node], nextKey)
      requires NothingDownTo(ViewsOf(tree.pages), nextKey, tree.ranges[node].lo)
      modifies this`node, this`current
      ensures Wf()
      ensures if Valid() then IsPredecessor(tree.Keys(), nextKey, KeyNow())
              else IsLeast(tree.Keys(), nextKey)
    {
      hide TreeInv, NodeOk, InTree, IsPredecessor, ParentOf;
      RootHolds(tree.pages, tree.ranges, tree.root, tree.level, tree.nextPid, nextKey);
      while true
        invariant Wf() && node != 0 && node in tree.ranges && Inside(tree.ranges[node], nextKey)
        invariant NothingDownTo(ViewsOf(tree.pages), nextKey, tree.ranges[node].lo)
        invariant tree.ranges[node].level <= tree.level
        decreases tree.level - tree.ranges[node].level
      {
        var pid := tree.FindParent(node, nextKey);
        if pid == 0 {
          node := 0;
          return;
        }
        ClimbDown(ViewsOf(tree.pages), tree.ranges, tree.root, tree.level, node, pid, nextKey);
        PageFacts(tree.pages, tree.ranges, tree.root, tree.level, tree.nextPid, pid);
        node := pid;
        var idx, _, _ := FindGreaterOrEqual(tree.pages[node], nextKey);
        current := idx;
        if current != 0 {
          current := current - 1;
          return;
        }
      }
    }

    /** Whether the current page is a leaf: its first child is the null page. */
    method AtLeaf() returns (leaf: bool)
      requires Valid()
      ensures node in tree.ranges && leaf == (tree.ranges[node].level == 0)
    {
      hide TreeInv, NodeOk;
      PageFacts(tree.pages, tree.ranges, tree.root, tree.level, tree.nextPid, node);
      InnerChild(ViewsOf(tree.pages), tree.ranges, tree.root, tree.level, node, 0);
      var _, first := NodeAt(tree.pages[node], 0);
      leaf := first == 0;
    }

    method NextInLeaf()
      requires Valid() && node in tree.ranges && tree.ranges[node].level == 0
      modifies this`node, this`current
      ensures Wf()
      ensures if Valid() then IsSuccessor(tree.Keys(), old(KeyNow()), KeyNow())
              else IsGreatest(tree.Keys(), old(KeyNow()))
    {
      hide TreeInv, NodeOk, InTree, IsSuccessor, IsPredecessor, NothingUpTo, NothingDownTo, ViewOf, ViewsOf, KeySet;
      PageFacts(tree.pages, tree.ranges, tree.root, tree.level, tree.nextPid, node);
      if current < tree.pages[node].meta.size - 1 {
        WithinLeaf(ViewsOf(tree.pages), tree.ranges, tree.root, tree.level, node, current);
        current := current + 1;
      } else {
        PageKeyInTree(ViewsOf(tree.pages), tree.ranges, tree.root, tree.level, node, current);
        LeafEnd(ViewsOf(tree.pages), tree.ranges, tree.root, tree.level, node);
        var prevKey := CurrentKey();
        ClimbForNext(prevKey);
      }
    }

    method PrevInLeaf()
      requires Valid() && node in tree.ranges && tree.ranges[node].level == 0
      modifies this`node, this`current
      ensures Wf()
      ensures if Valid() then IsPredecessor(tree.Keys(), old(KeyNow()), KeyNow())
              else IsLeast(tree.Keys(), old(KeyNow()))
    {
      hide TreeInv, NodeOk, InTree, IsSuccessor, IsPredecessor, NothingUpTo, NothingDownTo, ViewOf, ViewsOf, KeySet;
      if current > 0 {
        PageFacts(tree.pages, tree.ranges, tree.root, tree.level, tree.nextPid, node);
        WithinLeaf(ViewsOf(tree.pages), tree.ranges, tree.root, tree.level, node, current - 1);
        current := current - 1;
      } else {
        PageFacts(tree.pages, tree.ranges, tree.root, tree.level, tree.nextPid, node);
        PageKeyInTree(ViewsOf(tree.pages), tree.ranges, tree.root, tree.level, node, current);
        LeafEnd(ViewsOf(tree.pages), tree.ranges, tree.root, tree.level, node);
        var nextKey := CurrentKey();
        ClimbForPrev(nextKey);
      }
    }

    /** `Next`: to the first key above the current one, across leaves and inner pages. */
    method Next()
      requires Valid()
      modifies this`node, this`current
      ensures Wf()
      ensures if Valid() then IsSuccessor(tree.Keys(), old(KeyNow()), KeyNow())
              else IsGreatest(tree.Keys(), old(KeyNow()))
    {
      hide TreeInv, NodeOk, InTree, IsSuccessor, IsPredecessor, ViewOf, KeySet;
      var leaf := AtLeaf();
      if leaf {
        NextInLeaf();
      } else {
        ghost var views := ViewsOf(tree.pages);
        PageFacts(tree.pages, tree.ranges, tree.root, tree.level, tree.nextPid, node);
        InnerChild(views, tree.ranges, tree.root, tree.level, node, current + 1);
        var _, pid := NodeAt(tree.pages[node], current + 1);
        ghost var prevKey := KeyNow();
        node := FindEdgeLeaf(tree, pid, true);
        LeafNeighbours(views, tree.ranges, tree.root, tree.level, node, prevKey);
        current := 0;
      }
    }

    /** `Prev`: to the last key below the current one. */
    method Prev()
      requires Valid()
      modifies this`node, this`current
      ensures Wf()
      ensures if Valid() then IsPredecessor(tree.Keys(), old(KeyNow()), KeyNow())
              else IsLeast(tree.Keys(), old(KeyNow()))
    {
      hide TreeInv, NodeOk, InTree, IsSuccessor, IsPredecessor, ViewOf, KeySet;
      var leaf := AtLeaf();
      if leaf {
        PrevInLeaf();
      } else {
        ghost var views := ViewsOf(tree.pages);
        PageFacts(tree.pages, tree.ranges, tree.root, tree.level, tree.nextPid, node);
        InnerChild(views, tree.ranges, tree.root, tree.level, node, current);
        var _, pid := NodeAt(tree.pages[node], current);
        ghost var nextKey := KeyNow();
        node := FindEdgeLeaf(tree, pid, false);
        PageFacts(tree.pages, tree.ranges, tree.root, tree.level, tree.nextPid, node);
        LeafNeighbours(views, tree.ranges, tree.root, tree.level, node, nextKey);
        current := tree.pages[node].meta.size - 1;
      }
    }

    /** One level of `FindGreaterOrEqual`: stop here, or go on in a child. */
    method SeekStep(key: Key) returns (pid: Pid)
      requires Wf() && node != 0 && node in tree.ranges && SeekMayGoOn(ViewsOf(tree.pages), tree.ranges[node], key)
      modifies this`current, tree`pages
      ensures Wf() && node in tree.ranges && ViewsOf(tree.pages) == old(ViewsOf(tree.pages))
      ensures pid != 0 ==>
        && pid in tree.pages && pid in tree.ranges && tree.ranges[pid].level < tree.ranges[node].level
        && SeekMayGoOn(ViewsOf(tree.pages), tree.ranges[pid], key)
      ensures pid == 0 ==>
        if Valid() then IsFirstFrom(tree.Keys(), key, KeyNow()) else forall x :: x in tree.Keys() ==> x < key
    {
      hide TreeInv, NodeOk, InTree, IsFirstFrom, SeekMayGoOn, IsLargestIn, ViewOf, KeySet;
      ghost var views := ViewsOf(tree.pages);
      PageFacts(tree.pages, tree.ranges, tree.root, tree.level, tree.nextPid, node);
      assert Inside(tree.ranges[node], key) by { MayGoOnInside(views, tree.ranges[node], key); }
      var idx, child, found := FindGreaterOrEqual(tree.pages[node], key);
      InnerChild(views, tree.ranges, tree.root, tree.level, node, idx);
      current, pid := idx, child;
      if pid == 0 {
        SeekAtLeaf(views, tree.ranges, tree.root, tree.level, node, key);
        return;
      }
      PageFacts(tree.pages, tree.ranges, tree.root, tree.level, tree.nextPid, pid);
      if found {
        var largest := GetLargestKey(tree, pid, true);
        SeekAtInner(views, tree.ranges, tree.root, tree.level, node, key, largest);
        PageFacts(tree.pages, tree.ranges, tree.root, tree.level, tree.nextPid, node);
        if key > largest {
          return 0;
        }
      } else {
        SeekOverflow(views, tree.ranges, tree.root, tree.level, node, key);
      }
      NodePage(tree.pages[node], tree.ranges[node].level);
      InnerNotEmpty(tree.pages, tree.ranges, tree.root, tree.level, tree.nextPid, node);
      tree.Consolidate(node, tree.pages[node]);
    }

    /** `Seek`: to the first key that is not below the target, if there is one. */
    method Seek(key: Key)
      requires Wf()
      modifies this`node, this`current, tree`pages
      ensures Wf() && ViewsOf(tree.pages) == old(ViewsOf(tree.pages))
      ensures if Valid() then IsFirstFrom(tree.Keys(), key, KeyNow()) else forall x :: x in tree.Keys() ==> x < key
    {
      hide TreeInv, NodeOk, InTree, IsFirstFrom, ViewOf, KeySet;
      RootHolds(tree.pages, tree.ranges, tree.root, tree.level, tree.nextPid, key);
      node := tree.root;
      while true
        invariant Wf() && node != 0 && node in tree.ranges && ViewsOf(tree.pages) == old(ViewsOf(tree.pages))
        invariant SeekMayGoOn(ViewsOf(tree.pages), tree.ranges[node], key)
        decreases tree.ranges[node].level
      {
        var pid := SeekStep(key);
        if pid == 0 {
          return;
        }
        node := pid;
      }
    }

    /** `SeekToFirst`: to the smallest key. */
    method SeekToFirst()
      requires Wf()
      modifies this`node, this`current
      ensures Wf()
      ensures if Valid() then KeyNow() in tree.Keys() && IsLeast(tree.Keys(), KeyNow())
              else tree.Keys() == iset{}
    {
      hide TreeInv, NodeOk, ViewOf;
      RootHolds(tree.pages, tree.ranges, tree.root, tree.level, tree.nextPid, 0.0);
      PageFacts(tree.pages, tree.ranges, tree.root, tree.level, tree.nextPid, tree.root);
      node, current := 0, -1;
      if tree.pages[tree.root].meta.size == 0 {
        EmptyRoot(ViewsOf(tree.pages), tree.ranges, tree.root, tree.level);
        return;
      }
      var leaf := FindEdgeLeaf(tree, tree.root, true);
      PageFacts(tree.pages, tree.ranges, tree.root, tree.level, tree.nextPid, leaf);
      LeafEnd(ViewsOf(tree.pages), tree.ranges, tree.root, tree.level, leaf);
      PageKeyInTree(ViewsOf(tree.pages), tree.ranges, tree.root, tree.level, leaf, 0);
      node, current := leaf, 0;
    }

    /** `SeekToLast`: to the largest key. */
    method SeekToLast()
      requires Wf()
      modifies this`node, this`current
      ensures Wf()
      ensures if Valid() then KeyNow() in tree.Keys() && IsGreatest(tree.Keys(), KeyNow())
              else tree.Keys() == iset{}
    {
      hide TreeInv, NodeOk, ViewOf;
      RootHolds(tree.pages, tree.ranges, tree.root, tree.level, tree.nextPid, 0.0);
      PageFacts(tree.pages, tree.ranges, tree.root, tree.level, tree.nextPid, tree.root);
      node, current := tree.root, -1;
      if tree.pages[node].meta.size == 0 {
        EmptyRoot(ViewsOf(tree.pages), tree.ranges, tree.root, tree.level);
        return;
      }
      node := FindEdgeLeaf(tree, node, false);
      PageFacts(tree.pages, tree.ranges, tree.root, tree.level, tree.nextPid, node);
      LeafEnd(ViewsOf(tree.pages), tree.ranges, tree.root, tree.level, node);
      current := tree.pages[node].meta.size - 1;
      PageKeyInTree(ViewsOf(tree.pages), tree.ranges, tree.root, tree.level, node, current);
    }
  }

  // ----- full scans

  /** The keys of a tree from one of them on, or down to it. */
  ghost function KeysFrom(views: Views, k: Key): set<Key> {
    set a, i | a in views && 0 <= i < |views[a].entries| && views[a].entries[i].key >= k :: views[a].entries[i].key
  }

  ghost function KeysDownFrom(views: Views, k: Key): set<Key> {
    set a, i | a in views && 0 <= i < |views[a].entries| && views[a].entries[i].key <= k :: views[a].entries[i].key
  }

  ghost predicate Ascends(s: seq<Key>) {
    forall i, j :: 0 <= i < j < |s| ==> s[i] < s[j]
  }

  /** A list has visited exactly the keys below `k`. */
  ghost predicate VisitedBelow(keys: iset<Key>, s: seq<Key>, k: Key) {
    Ascends(s) && forall x :: x in s <==> x in keys && x < k
  }

  /** A list, built from its end, has visited exactly the keys above `k`. */
  ghost predicate VisitedAbove(keys: iset<Key>, s: seq<Key>, k: Key) {
    Ascends(s) && forall x :: x in s <==> x in keys && x > k
  }

  /** A list is all the keys, each once, in order. */
  ghost predicate ListsAll(keys: iset<Key>, s: seq<Key>) {
    Ascends(s) && forall x :: x in s <==> x in keys
  }

  lemma VisitForward(keys: iset<Key>, s: seq<Key>, k: Key)
    requires VisitedBelow(keys, s, k) && k in keys
    ensures forall r :: IsSuccessor(keys, k, r) ==> VisitedBelow(keys, s + [k], r)
    ensures IsGreatest(keys, k) ==> ListsAll(keys, s + [k])
  {
    assert forall x :: x in s + [k] <==> x in s || x == k;
    assert forall i :: 0 <= i < |s| ==> s[i] in s;
    assert Ascends(s + [k]);
  }

  lemma VisitBackward(keys: iset<Key>, s: seq<Key>, k: Key)
    requires VisitedAbove(keys, s, k) && k in keys
    ensures forall r :: IsPredecessor(keys, k, r) ==> VisitedAbove(keys, [k] + s, r)
    ensures IsLeast(keys, k) ==> ListsAll(keys, [k] + s)
  {
    assert forall x :: x in [k] + s <==> x in s || x == k;
    assert forall i :: 0 <= i < |s| ==> s[i] in s;
    assert Ascends([k] + s);
  }

  /** A step to the successor leaves one key fewer ahead. */
  lemma FewerAhead(views: Views, a: Pid, i: nat, r: Key)
    requires a in views && i < |views[a].entries|
    ensures r > views[a].entries[i].key ==> KeysFrom(views, r) < KeysFrom(views, views[a].entries[i].key)
    ensures r < views[a].entries[i].key ==> KeysDownFrom(views, r) < KeysDownFrom(views, views[a].entries[i].key)
  {
    var k := views[a].entries[i].key;
    assert k in KeysFrom(views, k) && k in KeysDownFrom(views, k);
  }

  /** `SeekToFirst`, and `Next` as long as there is a key: lists the whole key set, in order. */
  method ScanForward(it: Iterator) returns (s: seq<Key>)
    requires it.Wf()
    modifies it`node, it`current
    ensures it.Wf() && ListsAll(it.tree.Keys(), s)
  {
    hide Tree.Ok, VisitedBelow, ListsAll, KeySet, KeysFrom, IsLeast, IsGreatest;
    ghost var keys, views := it.tree.Keys(), ViewsOf(it.tree.pages);
    it.SeekToFirst();
    s := [];
    NothingVisited(keys);
    var more := it.AtKey();
    while more
      invariant it.Wf() && more == it.Valid()
      invariant if more then it.KeyNow() in keys && VisitedBelow(keys, s, it.KeyNow()) else ListsAll(keys, s)
      decreases more, if it.Valid() then KeysFrom(views, it.KeyNow()) else {}
    {
      var k := it.CurrentKey();
      VisitForward(keys, s, k);
      ghost var a, i := it.node, it.current;
      PageOf(it.tree, a);
      s := s + [k];
      it.Next();
      more := it.AtKey();
      if more {
        FewerAhead(views, a, i, it.KeyNow());
      }
    }
  }

  /** `SeekToLast`, and `Prev` as long as there is a key; the list is built from its end. */
  method ScanBackward(it: Iterator) returns (s: seq<Key>)
    requires it.Wf()
    modifies it`node, it`current
    ensures it.Wf() && ListsAll(it.tree.Keys(), s)
  {
    hide Tree.Ok, VisitedAbove, ListsAll, KeySet, KeysDownFrom, IsLeast, IsGreatest;
    ghost var keys, views := it.tree.Keys(), ViewsOf(it.tree.pages);
    it.SeekToLast();
    s := [];
    NothingVisited(keys);
    var more := it.AtKey();
    while more
      invariant it.Wf() && more == it.Valid()
      invariant if more then it.KeyNow() in keys && VisitedAbove(keys, s, it.KeyNow()) else ListsAll(keys, s)
      decreases more, if it.Valid() then KeysDownFrom(views, it.KeyNow()) else {}
    {
      var k := it.CurrentKey();
      VisitBackward(keys, s, k);
      ghost var a, i := it.node, it.current;
      PageOf(it.tree, a);
      s := [k] + s;
      it.Prev();
      more := it.AtKey();
      if more {
        FewerAhead(views, a, i, it.KeyNow());
      }
    }
  }

  lemma PageOf(tree: Tree, a: Pid)
    requires tree.Ok() && a in tree.pages
    ensures a in ViewsOf(tree.pages) && ViewsOf(tree.pages)[a] == ViewOf(tree.pages[a])
  {
  }

  lemma NothingVisited(keys: iset<Key>)
    ensures keys == iset{} ==> ListsAll(keys, [])
    ensures forall k :: IsLeast(keys, k) ==> VisitedBelow(keys, [], k)
    ensures forall k :: IsGreatest(keys, k) ==> VisitedAbove(keys, [], k)
  {
  }
}
