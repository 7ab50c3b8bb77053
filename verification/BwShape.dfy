/** The tree that the pages of a Bw-tree form, seen through their views.

    Every page owns an open interval of keys and a level.  The invariant is flat: it
    relates each page to its children and any two pages to each other, and never walks
    the tree.  Separators live in the inner pages (a B-tree, not a B+-tree). */
module BwShape {
  import opened Common
  import opened SortedEntries
  import opened BwPage

  datatype Bound = Unbounded | At(key: Key)
  datatype Range = Range(level: nat, lo: Bound, hi: Bound)

  predicate Inside(r: Range, k: Key) {
    (r.lo.At? ==> r.lo.key < k) && (r.hi.At? ==> k < r.hi.key)
  }

  /** The interval of the i-th child of a page. */
  function ChildRange(r: Range, e: seq<Entry>, i: nat): Range
    requires r.level > 0 && i <= |e|
  {
    Range(r.level - 1,
          if i == 0 then r.lo else At(e[i - 1].key),
          if i < |e| then At(e[i].key) else r.hi)
  }

  /** The page keeps its keys in order inside its interval, and its children split the
      interval between them; leaves have no children. */
  ghost predicate Fits(v: View, r: Range, ranges: map<Pid, Range>) {
    && Sorted(v.entries)
    && (forall i :: 0 <= i < |v.entries| ==> Inside(r, v.entries[i].key))
    && (r.level == 0 ==> forall i :: 0 <= i <= |v.entries| ==> ChildAt(v, i) == 0)
    && (r.level > 0 ==>
          && v.entries != []
          && forall i :: 0 <= i <= |v.entries| ==>
               ChildAt(v, i) in ranges && ranges[ChildAt(v, i)] == ChildRange(r, v.entries, i))
  }

  type Views = map<Pid, View>
  type Ranges = map<Pid, Range>

  /** Pages of one level own disjoint intervals. */
  ghost predicate Apart(ranges: Ranges) {
    forall a, b, k {:trigger Inside(ranges[a], k), Inside(ranges[b], k)} ::
      (&& a in ranges && b in ranges && ranges[a].level == ranges[b].level
       && Inside(ranges[a], k) && Inside(ranges[b], k)) ==> a == b
  }

  /** No key of a page lies inside the interval of a page further down. */
  ghost predicate Separated(views: Views, ranges: Ranges) {
    forall a, b, k {:trigger Inside(ranges[a], k), Has(views[b].entries, k)} ::
      (&& a in ranges && b in ranges && b in views
       && Has(views[b].entries, k) && Inside(ranges[a], k)) ==> ranges[a].level >= ranges[b].level
  }

  ghost predicate Rooted(views: Views, ranges: Ranges, root: Pid, level: nat) {
    && views.Keys == ranges.Keys && 0 !in ranges
    && root in ranges && ranges[root] == Range(level, Unbounded, Unbounded)
    && (forall a :: a in ranges ==> ranges[a].level <= level)
    && (forall a :: a in views && a != root ==> views[a].entries != [])
  }

  ghost predicate AllFit(views: Views, ranges: Ranges) {
    forall a :: a in views ==> a in ranges && Fits(views[a], ranges[a], ranges)
  }

  ghost predicate TreeInv(views: Views, ranges: Ranges, root: Pid, level: nat) {
    && Rooted(views, ranges, root, level)
    && AllFit(views, ranges)
    && Apart(ranges)
    && Separated(views, ranges)
  }

  ghost predicate InTree(views: Views, k: Key) {
    exists a :: a in views && Has(views[a].entries, k)
  }

  /** The keys of the tree. */
  ghost function KeySet(views: Views): iset<Key> {
    iset k | InTree(views, k)
  }

  // ----- searching

  lemma ChildInside(v: View, r: Range, ranges: Ranges, i: nat, k: Key)
    requires Fits(v, r, ranges) && r.level > 0 && i <= |v.entries|
    requires Inside(ChildRange(r, v.entries, i), k)
    ensures Inside(r, k) && Lower(v.entries, k) == i && !Has(v.entries, k)
  {
    LowerIs(v.entries, k, i);
  }

  /** The search goes to the child whose interval holds the key. */
  lemma SearchStep(views: Views, ranges: Ranges, root: Pid, level: nat, a: Pid, k: Key)
    requires TreeInv(views, ranges, root, level) && a in views && ranges[a].level > 0
    requires Inside(ranges[a], k) && !Has(views[a].entries, k)
    ensures var c := ChildAt(views[a], Lower(views[a].entries, k));
      c in views && c != 0 && Inside(ranges[c], k) && ranges[c].level == ranges[a].level - 1
  {
    var v := views[a];
    var i := Lower(v.entries, k);
    assert Fits(v, ranges[a], ranges);
    assert i > 0 ==> v.entries[i - 1].key < k;
    assert i < |v.entries| ==> v.entries[i].key > k;
    assert ranges[ChildAt(v, i)] == ChildRange(ranges[a], v.entries, i);
  }

  /** A key is in at most one page: if a page's interval holds it, it is in that page or below. */
  lemma KeyIsAtOrBelow(views: Views, ranges: Ranges, root: Pid, level: nat, a: Pid, b: Pid, k: Key)
    requires TreeInv(views, ranges, root, level) && a in views && b in views
    requires Inside(ranges[a], k) && Has(views[b].entries, k)
    ensures ranges[b].level <= ranges[a].level
    ensures ranges[b].level == ranges[a].level ==> a == b
    ensures Has(views[a].entries, k) ==> a == b
  {
    assert Fits(views[b], ranges[b], ranges);
    assert Inside(ranges[b], k);
    if Has(views[a].entries, k) {
      assert ranges[b].level >= ranges[a].level;
    }
  }

  // ----- adding a key to a leaf

  lemma AddToLeafFits(v: View, r: Range, ranges: Ranges, k: Key)
    requires Fits(v, r, ranges) && r.level == 0 && Inside(r, k) && !Has(v.entries, k)
    ensures Fits(v.(entries := Emplace(v.entries, k, 0)), r, ranges)
  {
    EmplaceSorted(v.entries, k, 0);
    var w := v.(entries := Emplace(v.entries, k, 0));
    forall i | 0 <= i <= |w.entries|
      ensures ChildAt(w, i) == 0
    {
      var j := Lower(v.entries, k);
      if i < j {
        assert ChildAt(v, i) == 0;
      } else if i > j {
        assert ChildAt(v, i - 1) == 0;
      }
    }
  }

  /** `w` has the keys of `v` and `k`. */
  ghost predicate GainsKey(v: View, w: View, k: Key) {
    forall x {:trigger Has(w.entries, x)} :: Has(w.entries, x) <==> Has(v.entries, x) || x == k
  }

  lemma EmplaceGainsKey(v: View, w: View, k: Key)
    requires Sorted(v.entries) && !Has(v.entries, k) && w.entries == Emplace(v.entries, k, 0)
    ensures GainsKey(v, w, k)
  {
    EmplaceSorted(v.entries, k, 0);
    AssignSorted(v.entries, k, 0);
    forall x | x != k
      ensures Has(w.entries, x) <==> Has(v.entries, x)
    {
      AssignElsewhere(v.entries, k, 0, x);
    }
  }

  lemma PageGainsKey(views: Views, a: Pid, w: View, k: Key)
    requires a in views && GainsKey(views[a], w, k)
    ensures KeySet(views[a := w]) == KeySet(views) + iset{k}
  {
    var views' := views[a := w];
    forall x
      ensures InTree(views', x) <==> InTree(views, x) || x == k
    {
      if x == k {
        assert a in views' && Has(views'[a].entries, k);
      } else if InTree(views, x) {
        var b :| b in views && Has(views[b].entries, x);
        assert b in views' && Has(views'[b].entries, x);
      }
    }
  }

  lemma EmplaceNotEmpty(e: seq<Entry>, k: Key)
    ensures Emplace(e, k, 0) != []
  {
  }

  lemma LeafLacks(views: Views, ranges: Ranges, leaf: Pid, k: Key)
    requires AllFit(views, ranges) && views.Keys == ranges.Keys && leaf in views && !InTree(views, k)
    ensures Sorted(views[leaf].entries) && !Has(views[leaf].entries, k) && Fits(views[leaf], ranges[leaf], ranges)
  {
    assert Fits(views[leaf], ranges[leaf], ranges);
  }

  /** A new key in the leaf whose interval holds it: the tree gains that key and nothing else. */
  lemma AddToLeaf(views: Views, ranges: Ranges, root: Pid, level: nat, leaf: Pid, k: Key)
    requires TreeInv(views, ranges, root, level) && leaf in views && ranges[leaf].level == 0
    requires Inside(ranges[leaf], k) && !InTree(views, k)
    ensures var v := views[leaf];
      var views' := views[leaf := v.(entries := Emplace(v.entries, k, 0))];
      && TreeInv(views', ranges, root, level)
      && KeySet(views') == KeySet(views) + iset{k}
  {
    hide Has, Emplace, KeySet, Fits;
    var v := views[leaf];
    var w := v.(entries := Emplace(v.entries, k, 0));
    LeafLacks(views, ranges, leaf, k);
    AddToLeafFits(v, ranges[leaf], ranges, k);
    EmplaceGainsKey(v, w, k);
    EmplaceNotEmpty(v.entries, k);
    PageGainsKey(views, leaf, w, k);
  }

  // ----- splitting a page

  function LeftOf(v: View, s: nat): View
    requires s < |v.entries|
  {
    View(v.entries[..s], v.entries[s].child)
  }

  function RightOf(v: View, s: nat): View
    requires s < |v.entries|
  {
    View(v.entries[s + 1..], v.overflow)
  }

  lemma HalvesFit(v: View, r: Range, ranges: Ranges, s: nat)
    requires Fits(v, r, ranges) && 0 < s < |v.entries| - 1
    ensures Fits(LeftOf(v, s), r.(hi := At(v.entries[s].key)), ranges)
    ensures Fits(RightOf(v, s), r.(lo := At(v.entries[s].key)), ranges)
  {
    var e, left, right := v.entries, LeftOf(v, s), RightOf(v, s);
    assert forall i :: 0 <= i <= s ==> ChildAt(left, i) == ChildAt(v, i);
    assert forall i :: 0 <= i <= |right.entries| ==> ChildAt(right, i) == ChildAt(v, s + 1 + i);
  }

  /** A page only depends on the intervals of its own children. */
  lemma FitsFrame(v: View, r: Range, ranges: Ranges, ranges': Ranges)
    requires Fits(v, r, ranges)
    requires r.level > 0 ==> forall i :: 0 <= i <= |v.entries| ==>
      ChildAt(v, i) in ranges' && ranges'[ChildAt(v, i)] == ranges[ChildAt(v, i)]
    ensures Fits(v, r, ranges')
  {
  }

  /** `w'` is `w` with a separator at position `i`, position by position. */
  ghost predicate IndexedAt(w: View, w': View, k: Key, lhs: Pid, rhs: Pid, i: nat) {
    && i <= |w.entries| && |w'.entries| == |w.entries| + 1
    && (forall j :: 0 <= j < i ==> w'.entries[j] == w.entries[j])
    && w'.entries[i] == Entry(k, lhs)
    && (forall j :: i + 1 < j < |w'.entries| ==> w'.entries[j] == w.entries[j - 1])
    && (if i < |w.entries| then w'.entries[i + 1] == Entry(w.entries[i].key, rhs) && w'.overflow == w.overflow
        else w'.overflow == rhs)
  }

  lemma UpperOfEmplaced(s: seq<Entry>, k: Key, c: Pid)
    requires Sorted(s) && !Has(s, k)
    ensures Upper(Emplace(s, k, c), k) == Lower(s, k) + 1 && Sorted(Emplace(s, k, c))
  {
    EmplaceSorted(s, k, c);
  }

  lemma ReplacedChildSorted(s: seq<Entry>, i: nat, c: Pid)
    requires Sorted(s) && i < |s|
    ensures Sorted(s[i := Entry(s[i].key, c)])
  {
  }

  lemma AddIndexAt(w: View, k: Key, lhs: Pid, rhs: Pid, i: nat)
    requires Sorted(w.entries) && !Has(w.entries, k) && i == Lower(w.entries, k)
    ensures IndexedAt(w, AddIndex(w, k, lhs, rhs), k, lhs, rhs, i)
    ensures Sorted(AddIndex(w, k, lhs, rhs).entries)
  {
    hide Upper, Lower, Has, Sorted;
    UpperOfEmplaced(w.entries, k, lhs);
    var e := Emplace(w.entries, k, lhs);
    if i + 1 < |e| {
      ReplacedChildSorted(e, i + 1, rhs);
    }
  }

  ghost function SplitRanges(ranges: Ranges, p: Pid, q: Pid, k: Key): Ranges
    requires p in ranges
  {
    ranges[p := ranges[p].(hi := At(k))][q := ranges[p].(lo := At(k))]
  }

  lemma SiblingsDiffer(w: View, r: Range, ranges: Ranges, i: nat, j: nat)
    requires Fits(w, r, ranges) && r.level > 0 && i < j <= |w.entries|
    ensures ChildAt(w, i) != ChildAt(w, j)
  {
    assert ranges[ChildAt(w, i)] == ChildRange(r, w.entries, i);
    assert ranges[ChildAt(w, j)] == ChildRange(r, w.entries, j);
    assert Inside(r, w.entries[i].key);
  }

  lemma ParentChildFits(w: View, w': View, r: Range, ranges: Ranges, i: nat, k: Key, q: Pid, j: nat)
    requires Fits(w, r, ranges) && r.level > 0 && q !in ranges
    requires i <= |w.entries| && IndexedAt(w, w', k, ChildAt(w, i), q, i) && j <= |w'.entries|
    ensures var ranges' := SplitRanges(ranges, ChildAt(w, i), q, k);
      ChildAt(w', j) in ranges' && ranges'[ChildAt(w', j)] == ChildRange(r, w'.entries, j)
  {
    assert ranges[ChildAt(w, i)] == ChildRange(r, w.entries, i);
    if j < i {
      SiblingsDiffer(w, r, ranges, j, i);
      assert ChildAt(w', j) == ChildAt(w, j);
      assert ranges[ChildAt(w, j)] == ChildRange(r, w.entries, j);
    } else if j > i + 1 {
      SiblingsDiffer(w, r, ranges, i, j - 1);
      assert ChildAt(w', j) == ChildAt(w, j - 1);
      assert ranges[ChildAt(w, j - 1)] == ChildRange(r, w.entries, j - 1);
    }
  }

  /** The parent of a split page: the separator goes exactly where the page hangs. */
  lemma ParentFits(w: View, r: Range, ranges: Ranges, i: nat, k: Key, q: Pid)
    requires Fits(w, r, ranges) && r.level > 0 && i <= |w.entries| && q !in ranges
    requires Inside(ChildRange(r, w.entries, i), k)
    ensures var p := ChildAt(w, i);
      Fits(AddIndex(w, k, p, q), r, SplitRanges(ranges, p, q, k)) && !Has(w.entries, k)
  {
    ChildInside(w, r, ranges, i, k);
    var p := ChildAt(w, i);
    AddIndexAt(w, k, p, q, i);
    var w' := AddIndex(w, k, p, q);
    forall j | 0 <= j <= |w'.entries| {
      ParentChildFits(w, w', r, ranges, i, k, q, j);
    }
    assert forall j :: 0 <= j < |w'.entries| && j != i ==>
      w'.entries[j].key == w.entries[if j < i then j else j - 1].key;
  }

  lemma HalvesKeys(v: View, s: nat, x: Key)
    requires Sorted(v.entries) && s < |v.entries|
    ensures Has(v.entries, x) <==> Has(LeftOf(v, s).entries, x) || Has(RightOf(v, s).entries, x) || x == v.entries[s].key
  {
    hide Has, Lower;
    var e, left, right := v.entries, v.entries[..s], v.entries[s + 1..];
    HasAt(e, s);
    if Has(e, x) {
      var i := PlaceOf(e, x);
      if i < s {
        HasAt(left, i);
      } else if i > s {
        HasAt(right, i - s - 1);
      }
    }
    if Has(left, x) {
      var i := PlaceOf(left, x);
      HasAt(e, i);
    }
    if Has(right, x) {
      var i := PlaceOf(right, x);
      HasAt(e, s + 1 + i);
    }
  }

  lemma IndexKeys(w: View, k: Key, lhs: Pid, rhs: Pid, x: Key)
    requires Sorted(w.entries) && !Has(w.entries, k)
    ensures Has(AddIndex(w, k, lhs, rhs).entries, x) <==> Has(w.entries, x) || x == k
  {
    IndexGet(w, k, lhs, rhs, x);
  }

  /** What a split leaves alone: every interval but that of the split page, which falls in two. */
  lemma SplitApart(ranges: Ranges, p: Pid, q: Pid, k: Key)
    requires Apart(ranges) && p in ranges && q !in ranges && Inside(ranges[p], k)
    ensures Apart(SplitRanges(ranges, p, q, k))
  {
    var ranges' := SplitRanges(ranges, p, q, k);
    forall a, b, x | a in ranges' && b in ranges' && ranges'[a].level == ranges'[b].level
                     && Inside(ranges'[a], x) && Inside(ranges'[b], x)
      ensures a == b
    {
      var a', b' := if a == q then p else a, if b == q then p else b;
      assert Inside(ranges[a'], x) && Inside(ranges[b'], x);
    }
  }

  /** The three pages that a split rewrites. */
  ghost predicate SplitOf(views: Views, ranges: Ranges, p: Pid, q: Pid, s: nat, views': Views, k: Key) {
    && p in views && q !in views && views.Keys == ranges.Keys
    && 0 < s < |views[p].entries| - 1
    && k == views[p].entries[s].key
    && p in views' && views'[p] == LeftOf(views[p], s)
    && q in views' && views'[q] == RightOf(views[p], s)
  }

  /** Every page other than the split one and its parent still fits. */
  lemma OthersStillFit(views: Views, ranges: Ranges, root: Pid, level: nat, p: Pid, q: Pid, k: Key, x: Pid)
    requires TreeInv(views, ranges, root, level) && p in views && q !in views && Inside(ranges[p], k)
    requires x in views && x != p
    requires forall i :: 0 <= i <= |views[x].entries| && ranges[x].level > 0 ==> ChildAt(views[x], i) != p
    ensures Fits(views[x], ranges[x], SplitRanges(ranges, p, q, k))
  {
    assert Fits(views[x], ranges[x], ranges);
    FitsFrame(views[x], ranges[x], ranges, SplitRanges(ranges, p, q, k));
  }

  lemma HalvesStillFit(views: Views, ranges: Ranges, root: Pid, level: nat, p: Pid, q: Pid, s: nat)
    requires TreeInv(views, ranges, root, level) && p in views && q !in views && 0 < s < |views[p].entries| - 1
    ensures var k := views[p].entries[s].key;
      var ranges' := SplitRanges(ranges, p, q, k);
      && Fits(LeftOf(views[p], s), ranges'[p], ranges')
      && Fits(RightOf(views[p], s), ranges'[q], ranges')
  {
    var v, r, k := views[p], ranges[p], views[p].entries[s].key;
    assert Fits(v, r, ranges);
    HalvesFit(v, r, ranges, s);
    var ranges' := SplitRanges(ranges, p, q, k);
    FitsFrame(LeftOf(v, s), ranges'[p], ranges, ranges');
    FitsFrame(RightOf(v, s), ranges'[q], ranges, ranges');
  }

  /** A page has one parent. */
  lemma OneParent(views: Views, ranges: Ranges, root: Pid, level: nat, a: Pid, i: nat, b: Pid, j: nat, k: Key)
    requires TreeInv(views, ranges, root, level) && a in views && b in views
    requires ranges[a].level > 0 && ranges[b].level > 0 && i <= |views[a].entries| && j <= |views[b].entries|
    requires ChildAt(views[a], i) == ChildAt(views[b], j)
    requires ChildAt(views[a], i) in ranges && Inside(ranges[ChildAt(views[a], i)], k)
    ensures a == b && i == j
  {
    assert Fits(views[a], ranges[a], ranges) && Fits(views[b], ranges[b], ranges);
    ChildInside(views[a], ranges[a], ranges, i, k);
    ChildInside(views[b], ranges[b], ranges, j, k);
  }

  /** After a split, a key of a page other than the halves is the moved separator or was there before. */
  ghost predicate KeysFrom(views: Views, p: Pid, q: Pid, views': Views, par: Pid, k: Key) {
    && par in views' && par != p && par != q
    && (forall b :: b in views' && b != p && b != q && b != par ==> b in views && views'[b] == views[b])
    && forall x {:trigger Has(views'[par].entries, x)} ::
         Has(views'[par].entries, x) ==> x == k || (par in views && Has(views[par].entries, x))
  }

  /** A key stays above the intervals below it, the moved separator included. */
  lemma SplitKeyAbove(views: Views, ranges: Ranges, root: Pid, level: nat, p: Pid, q: Pid, s: nat,
                      views': Views, par: Pid, k: Key, a: Pid, b: Pid, x: Key)
    requires TreeInv(views, ranges, root, level) && SplitOf(views, ranges, p, q, s, views', k)
    requires KeysFrom(views, p, q, views', par, k) && (par in views ==> ranges[par].level <= ranges[p].level + 1)
    requires var ranges' := SplitRanges(ranges, p, q, k);
      a in ranges' && b in views' && Has(views'[b].entries, x) && Inside(ranges'[a], x)
    ensures var ranges' := SplitRanges(ranges, p, q, k);
      ranges'[a].level >= if b in ranges' then ranges'[b].level else ranges[p].level + 1
  {
    hide Has, Sorted, Rooted;
    var a' := if a == q then p else a;
    assert Inside(ranges[a'], x);
    assert Fits(views[p], ranges[p], ranges);
    HasAt(views[p].entries, s);
    HalvesKeys(views[p], s, x);
    if b == p || b == q {
      assert Has(views[p].entries, x);
    } else if b == par && x == k {
      assert a != p && a != q;
    } else {
      assert Has(views[b].entries, x);
    }
  }

  lemma SplitSeparated(views: Views, ranges: Ranges, root: Pid, level: nat, p: Pid, q: Pid, s: nat,
                       views': Views, par: Pid, k: Key)
    requires TreeInv(views, ranges, root, level) && SplitOf(views, ranges, p, q, s, views', k)
    requires KeysFrom(views, p, q, views', par, k) && (par in views ==> ranges[par].level <= ranges[p].level + 1)
    ensures var ranges' := SplitRanges(ranges, p, q, k);
      forall a, b, x {:trigger Inside(ranges'[a], x), Has(views'[b].entries, x)} ::
        a in ranges' && b in views' && Has(views'[b].entries, x) && Inside(ranges'[a], x)
        ==> ranges'[a].level >= if b in ranges' then ranges'[b].level else ranges[p].level + 1
  {
    hide Has, KeysFrom, Apart, Separated, Rooted, AllFit;
    var ranges' := SplitRanges(ranges, p, q, k);
    forall a, b, x | a in ranges' && b in views' && Has(views'[b].entries, x) && Inside(ranges'[a], x)
      ensures ranges'[a].level >= if b in ranges' then ranges'[b].level else ranges[p].level + 1
    {
      SplitKeyAbove(views, ranges, root, level, p, q, s, views', par, k, a, b, x);
    }
  }

  /** The page that takes the separator has it, and otherwise the keys it had. */
  ghost predicate TakesSeparator(views: Views, views': Views, par: Pid, k: Key) {
    && par in views'
    && forall x {:trigger Has(views'[par].entries, x)} ::
         Has(views'[par].entries, x) <==> x == k || (par in views && Has(views[par].entries, x))
  }

  /** A split moves keys between pages, and neither adds nor drops one. */
  lemma SplitKeepsKeys(views: Views, ranges: Ranges, p: Pid, q: Pid, s: nat, views': Views, par: Pid, k: Key)
    requires SplitOf(views, ranges, p, q, s, views', k) && Sorted(views[p].entries)
    requires par != p && par != q && TakesSeparator(views, views', par, k)
    requires forall b :: b != p && b != q && b != par ==> (b in views' <==> b in views)
    requires forall b :: b in views' && b != p && b != q && b != par ==> views'[b] == views[b]
    ensures KeySet(views') == KeySet(views)
  {
    HasAt(views[p].entries, s);
    forall x
      ensures InTree(views', x) <==> InTree(views, x)
    {
      HalvesKeys(views[p], s, x);
      if InTree(views, x) {
        var b :| b in views && Has(views[b].entries, x);
        var b' := if b != p then b
                  else if Has(views'[p].entries, x) then p
                  else if Has(views'[q].entries, x) then q else par;
        assert b' in views' && Has(views'[b'].entries, x);
      }
      if InTree(views', x) {
        var b :| b in views' && Has(views'[b].entries, x);
        var b' := if b == p || b == q || (b == par && x == k) then p else b;
        assert b' in views && Has(views[b'].entries, x);
      }
    }
  }

  ghost function SplitUnder(views: Views, p: Pid, q: Pid, s: nat, par: Pid): Views
    requires p in views && par in views && s < |views[p].entries|
  {
    views[p := LeftOf(views[p], s)][q := RightOf(views[p], s)]
         [par := AddIndex(views[par], views[p].entries[s].key, p, q)]
  }

  /** `p` hangs at position `i` of `par`. */
  ghost predicate HangsAt(views: Views, ranges: Ranges, p: Pid, par: Pid, i: nat) {
    && p in views && par in views && par in ranges && ranges[par].level > 0
    && i <= |views[par].entries| && ChildAt(views[par], i) == p
  }

  lemma SplitOthersFit(views: Views, ranges: Ranges, root: Pid, level: nat,
                       p: Pid, q: Pid, par: Pid, i: nat, k: Key, x: Pid)
    requires TreeInv(views, ranges, root, level) && q !in views && HangsAt(views, ranges, p, par, i)
    requires p in ranges && Inside(ranges[p], k)
    requires x in views && x != p && x != par
    ensures Fits(views[x], ranges[x], SplitRanges(ranges, p, q, k))
  {
    forall j | 0 <= j <= |views[x].entries| && ranges[x].level > 0
      ensures ChildAt(views[x], j) != p
    {
      if ChildAt(views[x], j) == p {
        OneParent(views, ranges, root, level, x, j, par, i, k);
      }
    }
    OthersStillFit(views, ranges, root, level, p, q, k, x);
  }

  lemma HangingPage(views: Views, ranges: Ranges, root: Pid, level: nat, p: Pid, par: Pid, i: nat, s: nat)
    requires TreeInv(views, ranges, root, level) && HangsAt(views, ranges, p, par, i) && s < |views[p].entries|
    ensures ranges[p] == ChildRange(ranges[par], views[par].entries, i)
    ensures Inside(ranges[p], views[p].entries[s].key)
    ensures Sorted(views[p].entries) && Sorted(views[par].entries)
    ensures !Has(views[par].entries, views[p].entries[s].key) && p != par
  {
    assert Fits(views[p], ranges[p], ranges) && Fits(views[par], ranges[par], ranges);
    ChildInside(views[par], ranges[par], ranges, i, views[p].entries[s].key);
  }

  lemma SplitAllFit(views: Views, ranges: Ranges, root: Pid, level: nat, p: Pid, q: Pid, s: nat, par: Pid, i: nat)
    requires TreeInv(views, ranges, root, level) && q !in views && HangsAt(views, ranges, p, par, i)
    requires 0 < s < |views[p].entries| - 1
    ensures var views', ranges' := SplitUnder(views, p, q, s, par), SplitRanges(ranges, p, q, views[p].entries[s].key);
      AllFit(views', ranges')
  {
    var k := views[p].entries[s].key;
    HangingPage(views, ranges, root, level, p, par, i, s);
    assert Fits(views[par], ranges[par], ranges);
    ParentFits(views[par], ranges[par], ranges, i, k, q);
    HalvesStillFit(views, ranges, root, level, p, q, s);
    forall x | x in views && x != p && x != par
      ensures Fits(views[x], ranges[x], SplitRanges(ranges, p, q, k))
    {
      SplitOthersFit(views, ranges, root, level, p, q, par, i, k, x);
    }
  }

  lemma SplitTakesSeparator(views: Views, p: Pid, q: Pid, s: nat, par: Pid)
    requires p in views && par in views && s < |views[p].entries|
    requires Sorted(views[par].entries) && !Has(views[par].entries, views[p].entries[s].key)
    ensures TakesSeparator(views, SplitUnder(views, p, q, s, par), par, views[p].entries[s].key)
  {
    var k := views[p].entries[s].key;
    forall x
      ensures Has(AddIndex(views[par], k, p, q).entries, x) <==> x == k || Has(views[par].entries, x)
    {
      IndexKeys(views[par], k, p, q, x);
    }
  }

  lemma SplitUnderSeparated(views: Views, ranges: Ranges, root: Pid, level: nat,
                            p: Pid, q: Pid, s: nat, par: Pid, i: nat)
    requires TreeInv(views, ranges, root, level) && q !in views && HangsAt(views, ranges, p, par, i)
    requires 0 < s < |views[p].entries| - 1
    ensures var views', ranges' := SplitUnder(views, p, q, s, par), SplitRanges(ranges, p, q, views[p].entries[s].key);
      Separated(views', ranges') && KeySet(views') == KeySet(views)
  {
    hide Has, Fits, AddIndex;
    var k := views[p].entries[s].key;
    HangingPage(views, ranges, root, level, p, par, i, s);
    SplitTakesSeparator(views, p, q, s, par);
    var views' := SplitUnder(views, p, q, s, par);
    SplitSeparated(views, ranges, root, level, p, q, s, views', par, k);
    SplitKeepsKeys(views, ranges, p, q, s, views', par, k);
  }

  lemma SplitUnderRooted(views: Views, ranges: Ranges, root: Pid, level: nat,
                         p: Pid, q: Pid, s: nat, par: Pid)
    requires Rooted(views, ranges, root, level) && p in views && q !in views && q != 0 && par in views
    requires 0 < s < |views[p].entries| - 1 && ranges[p].level < level
    requires Sorted(views[par].entries) && !Has(views[par].entries, views[p].entries[s].key)
    ensures var views', ranges' := SplitUnder(views, p, q, s, par), SplitRanges(ranges, p, q, views[p].entries[s].key);
      Rooted(views', ranges', root, level)
  {
    var k := views[p].entries[s].key;
    AddIndexAt(views[par], k, p, q, Lower(views[par].entries, k));
  }

  /** Splitting a page and telling its parent keeps the tree and its keys. */
  lemma SplitUnderParent(views: Views, ranges: Ranges, root: Pid, level: nat,
                         p: Pid, q: Pid, s: nat, par: Pid, i: nat)
    requires TreeInv(views, ranges, root, level) && q !in views && q != 0 && HangsAt(views, ranges, p, par, i)
    requires 0 < s < |views[p].entries| - 1
    ensures var views', ranges' := SplitUnder(views, p, q, s, par), SplitRanges(ranges, p, q, views[p].entries[s].key);
      TreeInv(views', ranges', root, level) && KeySet(views') == KeySet(views)
  {
    HangingPage(views, ranges, root, level, p, par, i, s);
    SplitUnderRooted(views, ranges, root, level, p, q, s, par);
    SplitAllFit(views, ranges, root, level, p, q, s, par, i);
    SplitApart(ranges, p, q, views[p].entries[s].key);
    SplitUnderSeparated(views, ranges, root, level, p, q, s, par, i);
  }

  ghost function SplitTop(views: Views, p: Pid, q: Pid, s: nat, top: Pid): Views
    requires p in views && s < |views[p].entries|
  {
    views[p := LeftOf(views[p], s)][q := RightOf(views[p], s)]
         [top := View([Entry(views[p].entries[s].key, p)], q)]
  }

  ghost function SplitTopRanges(ranges: Ranges, p: Pid, q: Pid, k: Key, top: Pid): Ranges
    requires p in ranges
  {
    SplitRanges(ranges, p, q, k)[top := Range(ranges[p].level + 1, Unbounded, Unbounded)]
  }

  lemma SplitTopAllFit(views: Views, ranges: Ranges, root: Pid, level: nat, q: Pid, s: nat, top: Pid)
    requires TreeInv(views, ranges, root, level) && q !in views && top !in views && top != q
    requires 0 < s < |views[root].entries| - 1
    ensures var k := views[root].entries[s].key;
      var views', ranges' := SplitTop(views, root, q, s, top), SplitTopRanges(ranges, root, q, k, top);
      AllFit(views', ranges')
  {
    hide Apart, Separated;
    var k := views[root].entries[s].key;
    var ranges1, ranges' := SplitRanges(ranges, root, q, k), SplitTopRanges(ranges, root, q, k, top);
    HalvesStillFit(views, ranges, root, level, root, q, s);
    FitsFrame(LeftOf(views[root], s), ranges'[root], ranges1, ranges');
    FitsFrame(RightOf(views[root], s), ranges'[q], ranges1, ranges');
    forall x | x in views && x != root
      ensures Fits(views[x], ranges[x], ranges')
    {
      assert Fits(views[x], ranges[x], ranges);
      FitsFrame(views[x], ranges[x], ranges, ranges');
    }
    NewRootFits(k, root, q, level, ranges');
  }

  lemma NewRootFits(k: Key, p: Pid, q: Pid, level: nat, ranges: Ranges)
    requires p in ranges && ranges[p] == Range(level, Unbounded, At(k))
    requires q in ranges && ranges[q] == Range(level, At(k), Unbounded)
    ensures Fits(View([Entry(k, p)], q), Range(level + 1, Unbounded, Unbounded), ranges)
  {
    var v := View([Entry(k, p)], q);
    assert forall i :: 0 <= i <= 1 ==> ChildAt(v, i) == if i == 0 then p else q;
  }

  lemma SplitTopApart(ranges: Ranges, root: Pid, level: nat, q: Pid, k: Key, top: Pid)
    requires Apart(ranges) && root in ranges && q !in ranges && top !in ranges && top != q && Inside(ranges[root], k)
    requires forall a :: a in ranges ==> ranges[a].level <= ranges[root].level
    ensures Apart(SplitTopRanges(ranges, root, q, k, top))
  {
    SplitApart(ranges, root, q, k);
  }

  lemma HasOnly(k: Key, p: Pid)
    ensures forall x :: Has([Entry(k, p)], x) <==> x == k
  {
    LowerIs([Entry(k, p)], k, 0);
  }

  lemma SplitTopSeparated(views: Views, ranges: Ranges, root: Pid, level: nat, q: Pid, s: nat, top: Pid)
    requires TreeInv(views, ranges, root, level) && q !in views && top !in views && top != q
    requires 0 < s < |views[root].entries| - 1
    ensures var k := views[root].entries[s].key;
      var views', ranges' := SplitTop(views, root, q, s, top), SplitTopRanges(ranges, root, q, k, top);
      Separated(views', ranges') && KeySet(views') == KeySet(views)
  {
    hide Has;
    var k := views[root].entries[s].key;
    var views' := SplitTop(views, root, q, s, top);
    assert Sorted(views[root].entries) by { assert Fits(views[root], ranges[root], ranges); }
    HasOnly(k, root);
    assert TakesSeparator(views, views', top, k);
    SplitSeparated(views, ranges, root, level, root, q, s, views', top, k);
    SplitKeepsKeys(views, ranges, root, q, s, views', top, k);
  }

  /** Splitting the root puts a new root with one separator above the two halves. */
  lemma SplitUnderNewRoot(views: Views, ranges: Ranges, root: Pid, level: nat, q: Pid, s: nat, top: Pid)
    requires TreeInv(views, ranges, root, level) && q !in views && top !in views && top != q && q != 0 && top != 0
    requires 0 < s < |views[root].entries| - 1
    ensures var k := views[root].entries[s].key;
      var views', ranges' := SplitTop(views, root, q, s, top), SplitTopRanges(ranges, root, q, k, top);
      TreeInv(views', ranges', top, level + 1) && KeySet(views') == KeySet(views)
  {
    hide AllFit, Apart, Separated, KeySet;
    var k := views[root].entries[s].key;
    SplitTopAllFit(views, ranges, root, level, q, s, top);
    SplitTopApart(ranges, root, level, q, k, top);
    SplitTopSeparated(views, ranges, root, level, q, s, top);
    var views', ranges' := SplitTop(views, root, q, s, top), SplitTopRanges(ranges, root, q, k, top);
    assert Rooted(views', ranges', top, level + 1);
  }
}
