/** The Bw-tree: page slots that are overwritten by longer, split or consolidated chains. */
module BwTree {
  import opened Common
  import opened SortedEntries
  import opened BwPage
  import opened BwShape

  type Pages = map<Pid, Node>

  ghost function ViewsOf(pages: Pages): Views {
    map a | a in pages :: ViewOf(pages[a])
  }

  /** Leaves carry key records, inner pages index records over a line that is never empty. */
  ghost predicate NodeOk(x: Node, level: nat) {
    && Page(x)
    && (level == 0 ==> !x.DeltaIndex?)
    && (level > 0 ==> !x.DeltaKey? && BaseOf(x).entries != [])
  }

  ghost predicate TreeOk(pages: Pages, ranges: Ranges, root: Pid, level: nat, nextPid: Pid) {
    && pages.Keys == ranges.Keys
    && TreeInv(ViewsOf(pages), ranges, root, level)
    && (forall a :: a in pages ==> 0 < a < nextPid && NodeOk(pages[a], ranges[a].level))
  }

  /** Pages that need no split, one excepted. */
  ghost predicate SmallBut(pages: Pages, splitTrigger: nat, p: Pid) {
    forall a :: a in pages && a != p ==> pages[a].meta.size <= splitTrigger
  }

  lemma SmallHere(pages: Pages, splitTrigger: nat, p: Pid, a: Pid)
    requires SmallBut(pages, splitTrigger, p) && a in pages && a != p
    ensures pages[a].meta.size <= splitTrigger
  {
  }

  /** No chain is more than two records over the trigger, and a leaf that is over it has room
      for a key, one page excepted. */
  ghost predicate BriefBut(pages: Pages, ranges: Ranges, trigger: nat, splitTrigger: nat, p: Pid) {
    forall a :: a in pages && a in ranges && a != p ==>
      && pages[a].meta.depth <= trigger + 2
      && (ranges[a].level == 0 && pages[a].meta.depth > trigger ==> pages[a].meta.size < splitTrigger)
  }

  /** The pages on the way to a key, above some level, have chains within the trigger. */
  ghost predicate BriefWay(pages: Pages, ranges: Ranges, trigger: nat, k: Key, level: nat) {
    forall a :: a in pages && a in ranges && ranges[a].level > level && Inside(ranges[a], k) ==>
      pages[a].meta.depth <= trigger
  }

  /** No record was put on any page. */
  ghost predicate NoneLonger(pages: Pages, pages': Pages) {
    pages'.Keys == pages.Keys
    && forall a :: a in pages ==>
         pages'[a].meta.depth <= pages[a].meta.depth && pages'[a].meta.size == pages[a].meta.size
  }

  lemma NoneLongerKeeps(pages: Pages, pages': Pages, ranges: Ranges, trigger: nat, splitTrigger: nat, p: Pid)
    requires NoneLonger(pages, pages') && BriefBut(pages, ranges, trigger, splitTrigger, p)
    ensures BriefBut(pages', ranges, trigger, splitTrigger, p)
  {
  }

  lemma NoneLongerIsSmall(pages: Pages, pages': Pages, splitTrigger: nat)
    requires NoneLonger(pages, pages')
    ensures forall p :: SmallBut(pages, splitTrigger, p) ==> SmallBut(pages', splitTrigger, p)
  {
  }

  /** A page is replaced by one as large, with a chain not longer. */
  lemma OneShorter(pages: Pages, a: Pid, x: Node)
    requires a in pages && x.meta.depth <= pages[a].meta.depth && x.meta.size == pages[a].meta.size
    ensures NoneLonger(pages, pages) && NoneLonger(pages, pages[a := x])
  {
  }

  /** A record is put on a leaf: the leaf was short enough if it is now due for a split. */
  lemma LeafIsBrief(pages: Pages, ranges: Ranges, leaf: Pid, x: Node, trigger: nat, splitTrigger: nat, k: Key)
    requires leaf in pages && leaf in ranges && ranges[leaf].level == 0
    requires x.meta.depth == pages[leaf].meta.depth + 1 && x.meta.size == pages[leaf].meta.size + 1
    requires BriefBut(pages, ranges, trigger, splitTrigger, 0) && BriefWay(pages, ranges, trigger, k, 0) && 0 !in pages
    ensures BriefBut(pages[leaf := x], ranges, trigger, splitTrigger, leaf)
    ensures BriefWay(pages[leaf := x], ranges, trigger, k, 0)
    ensures x.meta.size > splitTrigger ==> x.meta.depth <= trigger + 1
  {
  }

  lemma ReplacedIsBrief(pages: Pages, ranges: Ranges, leaf: Pid, pages': Pages, trigger: nat, splitTrigger: nat)
    requires BriefBut(pages, ranges, trigger, splitTrigger, leaf) && leaf in pages' && pages' == pages[leaf := pages'[leaf]]
    requires pages'[leaf].meta.depth == 0
    ensures BriefBut(pages', ranges, trigger, splitTrigger, 0)
  {
  }

  lemma LeafStaysBrief(pages: Pages, ranges: Ranges, leaf: Pid, trigger: nat, splitTrigger: nat)
    requires BriefBut(pages, ranges, trigger, splitTrigger, leaf) && leaf in pages && pages[leaf].meta.depth <= trigger
    ensures BriefBut(pages, ranges, trigger, splitTrigger, 0)
  {
  }

  /** One step down the way: on its level only one page owns the key. */
  lemma WayStep(pages: Pages, ranges: Ranges, root: Pid, level: nat, nextPid: Pid, x: Pid, trigger: nat, k: Key)
    requires TreeOk(pages, ranges, root, level, nextPid) && x in pages && Inside(ranges[x], k) && ranges[x].level > 0
    requires BriefWay(pages, ranges, trigger, k, ranges[x].level) && pages[x].meta.depth <= trigger
    ensures BriefWay(pages, ranges, trigger, k, ranges[x].level - 1)
  {
    forall a | a in pages && a in ranges && ranges[a].level > ranges[x].level - 1 && Inside(ranges[a], k)
      ensures pages[a].meta.depth <= trigger
    {
      if ranges[a].level == ranges[x].level && a != x {
        OnTheWay(pages, ranges, root, level, nextPid, x, a, k);
      }
    }
  }

  lemma WayStarts(pages: Pages, ranges: Ranges, root: Pid, level: nat, nextPid: Pid, trigger: nat, k: Key)
    requires TreeOk(pages, ranges, root, level, nextPid)
    ensures BriefWay(pages, ranges, trigger, k, level)
  {
  }

  lemma WayStays(pages: Pages, pages': Pages, ranges: Ranges, trigger: nat, k: Key, level: nat)
    requires NoneLonger(pages, pages') && BriefWay(pages, ranges, trigger, k, level)
    ensures BriefWay(pages', ranges, trigger, k, level)
  {
  }

  /** What hangs on a page has its interval inside the page's. */
  lemma ParentInside(pages: Pages, ranges: Ranges, root: Pid, level: nat, nextPid: Pid, p: Pid, par: Pid, k: Key)
    requires TreeOk(pages, ranges, root, level, nextPid) && p in pages && Inside(ranges[p], k)
    requires ParentOf(ViewsOf(pages), ranges, p, par)
    ensures par in pages && Inside(ranges[par], k) && ranges[par].level == ranges[p].level + 1
  {
    var views := ViewsOf(pages);
    var i :| HangsAt(views, ranges, p, par, i);
    assert Fits(views[par], ranges[par], ranges);
    ChildInside(views[par], ranges[par], ranges, i, k);
  }

  /** A cut under a parent: the two pages it puts a record on were short enough for it. */
  lemma CutIsBrief(pages: Pages, ranges: Ranges, pages': Pages, ranges': Ranges,
                   p: Pid, par: Pid, trigger: nat, splitTrigger: nat, k: Key)
    requires pages.Keys == ranges.Keys && pages'.Keys == ranges'.Keys && p in pages && par in pages
    requires p != par && p in pages' && par in pages' && ranges[par].level == ranges[p].level + 1 && Inside(ranges[par], k)
    requires BriefBut(pages, ranges, trigger, splitTrigger, p) && pages[p].meta.depth <= trigger + 1
    requires BriefWay(pages, ranges, trigger, k, ranges[p].level)
    requires forall a :: a in pages && a != p && a != par ==> a in pages' && pages'[a] == pages[a]
    requires forall a :: a in pages && a != p ==> a in ranges' && ranges'[a] == ranges[a]
    requires ranges'[p].level == ranges[p].level
    requires forall a :: a in pages' && a !in pages ==> pages'[a].meta.depth == 0 && ranges'[a].level == ranges[p].level
    requires pages'[p].meta.depth == pages[p].meta.depth + 1 && pages'[p].meta.size < splitTrigger
    requires pages'[par].meta.depth == pages[par].meta.depth + 1
    ensures BriefBut(pages', ranges', trigger, splitTrigger, par) && pages'[par].meta.depth <= trigger + 1
    ensures BriefWay(pages', ranges', trigger, k, ranges'[par].level) && Inside(ranges'[par], k)
    ensures BriefBut(pages', ranges', trigger, splitTrigger, 0)
  {
  }

  /** The same where the root is cut. */
  lemma TopIsBrief(pages: Pages, ranges: Ranges, p: Pid, q: Pid, s: nat, k: Key, trigger: nat, splitTrigger: nat)
    requires p in pages && p in ranges && q !in pages && q + 1 !in pages && 0 < s < |ViewOf(pages[p]).entries| - 1
    requires BriefBut(pages, ranges, trigger, splitTrigger, p) && pages[p].meta.depth <= trigger + 1 && s < splitTrigger
    ensures BriefBut(PagesTop(pages, p, q, s, q + 1), SplitTopRanges(ranges, p, q, k, q + 1), trigger, splitTrigger, 0)
  {
    hide ViewOf;
  }

  lemma ViewsUpdate(pages: Pages, a: Pid, x: Node)
    ensures ViewsOf(pages[a := x]) == ViewsOf(pages)[a := ViewOf(x)]
  {
  }

  /** Replacing a page by another with the same view leaves the tree as it was. */
  lemma SameViewKeepsTree(pages: Pages, ranges: Ranges, root: Pid, level: nat, nextPid: Pid, a: Pid, x: Node)
    requires TreeOk(pages, ranges, root, level, nextPid) && a in pages
    requires ViewOf(x) == ViewOf(pages[a]) && NodeOk(x, ranges[a].level)
    ensures TreeOk(pages[a := x], ranges, root, level, nextPid)
    ensures ViewsOf(pages[a := x]) == ViewsOf(pages)
  {
    hide TreeInv;
    hide NodeOk;
    ViewsUpdate(pages, a, x);
    assert ViewsOf(pages)[a := ViewOf(x)] == ViewsOf(pages);
  }

  lemma AddKeyKeepsTree(pages: Pages, ranges: Ranges, root: Pid, level: nat, nextPid: Pid, leaf: Pid, k: Key)
    requires TreeOk(pages, ranges, root, level, nextPid) && leaf in pages && ranges[leaf].level == 0
    requires Inside(ranges[leaf], k) && !InTree(ViewsOf(pages), k)
    ensures var pages' := pages[leaf := NewDeltaKey(k, pages[leaf])];
      && TreeOk(pages', ranges, root, level, nextPid)
      && KeySet(ViewsOf(pages')) == KeySet(ViewsOf(pages)) + iset{k}
  {
    hide TreeInv;
    var x := NewDeltaKey(k, pages[leaf]);
    assert !Has(ViewsOf(pages)[leaf].entries, k);
    DeltaKeyIsPage(k, pages[leaf]);
    ViewsUpdate(pages, leaf, x);
    AddToLeaf(ViewsOf(pages), ranges, root, level, leaf, k);
  }

  /** The pages that `SplitInner` writes before it looks at the parent's size. */
  ghost function SplitPages(pages: Pages, p: Pid, q: Pid, s: nat): Pages
    requires p in pages && 0 < s < |ViewOf(pages[p]).entries| - 1
  {
    var v := ViewOf(pages[p]);
    pages[q := NewBaseLine(RightOf(v, s), pages[p].meta.sibling)]
         [p := NewSplitNode(s, v.entries[s].key, q, v.entries[s - 1].key, pages[p])]
  }

  lemma HalvesAreNodes(pages: Pages, p: Pid, q: Pid, s: nat, level: nat)
    requires p in pages && q !in pages && 0 < s < |ViewOf(pages[p]).entries| - 1 && NodeOk(pages[p], level)
    ensures var pages' := SplitPages(pages, p, q, s);
      && NodeOk(pages'[p], level) && NodeOk(pages'[q], level)
      && ViewOf(pages'[p]) == LeftOf(ViewOf(pages[p]), s) && ViewOf(pages'[q]) == RightOf(ViewOf(pages[p]), s)
  {
    ViewSorted(pages[p]);
    SplitIsPage(pages[p], s, q);
    LineIsPage(RightOf(ViewOf(pages[p]), s), pages[p].meta.sibling);
  }

  /** The same, and the index record put on the parent. */
  ghost function PagesUnder(pages: Pages, p: Pid, q: Pid, s: nat, par: Pid): Pages
    requires p in pages && par in pages && 0 < s < |ViewOf(pages[p]).entries| - 1
  {
    SplitPages(pages, p, q, s)[par := NewDeltaIndex(ViewOf(pages[p]).entries[s].key, p, q, pages[par])]
  }

  /** The same, and the new root. */
  ghost function PagesTop(pages: Pages, p: Pid, q: Pid, s: nat, top: Pid): Pages
    requires p in pages && 0 < s < |ViewOf(pages[p]).entries| - 1
  {
    SplitPages(pages, p, q, s)[top := NewBaseLine(View([Entry(ViewOf(pages[p]).entries[s].key, p)], q), 0)]
  }

  lemma UnderViews(pages: Pages, p: Pid, q: Pid, s: nat, par: Pid, level: nat)
    requires p in pages && q !in pages && par in pages && par != p && 0 < s < |ViewOf(pages[p]).entries| - 1
    requires NodeOk(pages[p], level) && NodeOk(pages[par], level + 1)
    requires !Has(ViewOf(pages[par]).entries, ViewOf(pages[p]).entries[s].key)
    ensures var pages' := PagesUnder(pages, p, q, s, par);
      && ViewsOf(pages') == SplitUnder(ViewsOf(pages), p, q, s, par)
      && NodeOk(pages'[p], level) && NodeOk(pages'[q], level) && NodeOk(pages'[par], level + 1)
  {
    hide Page;
    var k := ViewOf(pages[p]).entries[s].key;
    HalvesAreNodes(pages, p, q, s, level);
    DeltaIndexIsPage(k, p, q, pages[par]);
  }

  lemma TopViews(pages: Pages, p: Pid, q: Pid, s: nat, top: Pid, level: nat)
    requires p in pages && q !in pages && top !in pages && top != q && 0 < s < |ViewOf(pages[p]).entries| - 1
    requires NodeOk(pages[p], level)
    ensures var pages' := PagesTop(pages, p, q, s, top);
      && ViewsOf(pages') == SplitTop(ViewsOf(pages), p, q, s, top)
      && NodeOk(pages'[p], level) && NodeOk(pages'[q], level) && NodeOk(pages'[top], level + 1)
  {
    hide Page;
    HalvesAreNodes(pages, p, q, s, level);
    LineIsPage(View([Entry(ViewOf(pages[p]).entries[s].key, p)], q), 0);
  }

  lemma SplitUnderKeepsTree(pages: Pages, ranges: Ranges, root: Pid, level: nat, q: Pid,
                            p: Pid, s: nat, par: Pid, i: nat)
    requires TreeOk(pages, ranges, root, level, q) && q > 0 && p in pages && par in pages
    requires HangsAt(ViewsOf(pages), ranges, p, par, i) && 0 < s < |ViewOf(pages[p]).entries| - 1
    ensures var pages', k := PagesUnder(pages, p, q, s, par), ViewOf(pages[p]).entries[s].key;
      && TreeOk(pages', SplitRanges(ranges, p, q, k), root, level, q + 1)
      && KeySet(ViewsOf(pages')) == KeySet(ViewsOf(pages))
  {
    hide TreeInv;
    hide NodeOk;
    var views, k := ViewsOf(pages), ViewOf(pages[p]).entries[s].key;
    HangingPage(views, ranges, root, level, p, par, i, s);
    UnderViews(pages, p, q, s, par, ranges[p].level);
    SplitUnderParent(views, ranges, root, level, p, q, s, par, i);
  }

  lemma SplitTopKeepsTree(pages: Pages, ranges: Ranges, root: Pid, level: nat, q: Pid, s: nat)
    requires TreeOk(pages, ranges, root, level, q) && q > 0
    requires root in pages && 0 < s < |ViewOf(pages[root]).entries| - 1
    ensures var pages', k := PagesTop(pages, root, q, s, q + 1), ViewOf(pages[root]).entries[s].key;
      && TreeOk(pages', SplitTopRanges(ranges, root, q, k, q + 1), q + 1, level + 1, q + 2)
      && KeySet(ViewsOf(pages')) == KeySet(ViewsOf(pages))
  {
    hide TreeInv;
    hide NodeOk;
    TopViews(pages, root, q, s, q + 1, ranges[root].level);
    SplitUnderNewRoot(ViewsOf(pages), ranges, root, level, q, s, q + 1);
  }

  lemma ConsolidatedNode(node: Node, level: nat)
    requires NodeOk(node, level) && ViewOf(node).entries != []
    ensures NodeOk(NewBaseLine(ViewOf(node), node.meta.sibling), level)
    ensures ViewOf(NewBaseLine(ViewOf(node), node.meta.sibling)) == ViewOf(node)
    ensures NewBaseLine(ViewOf(node), node.meta.sibling).meta.size == node.meta.size
  {
    ViewSorted(node);
    LineIsPage(ViewOf(node), node.meta.sibling);
  }

  /** `p` hangs somewhere on `par`. */
  ghost predicate ParentOf(views: Views, ranges: Ranges, p: Pid, par: Pid) {
    exists i :: HangsAt(views, ranges, p, par, i)
  }

  lemma NodeIsLinked(x: Node, level: nat)
    requires NodeOk(x, level)
    ensures Linked(x) && x.meta.size == |ViewOf(x).entries|
  {
  }

  /** The root owns every key, and no page is above it. */
  lemma RootHolds(pages: Pages, ranges: Ranges, root: Pid, level: nat, nextPid: Pid, k: Key)
    requires TreeOk(pages, ranges, root, level, nextPid)
    ensures pages.Keys == ranges.Keys && root in pages
    ensures ranges[root] == Range(level, Unbounded, Unbounded) && Inside(ranges[root], k)
    ensures forall p :: p in ranges ==> ranges[p].level <= level
  {
  }

  /** A search for a key that is not in the page ends in a child, or at a leaf. */
  lemma DescendStep(pages: Pages, ranges: Ranges, root: Pid, level: nat, nextPid: Pid, a: Pid, k: Key)
    requires TreeOk(pages, ranges, root, level, nextPid) && a in pages
    requires Inside(ranges[a], k) && !Has(ViewOf(pages[a]).entries, k)
    ensures var c := ChildAt(ViewOf(pages[a]), Lower(ViewOf(pages[a]).entries, k));
      && (ranges[a].level == 0 <==> c == 0)
      && (c != 0 ==> && c in pages && Inside(ranges[c], k) && ranges[c].level == ranges[a].level - 1
                     && ParentOf(ViewsOf(pages), ranges, c, a))
  {
    var views := ViewsOf(pages);
    assert Fits(views[a], ranges[a], ranges);
    var i := Lower(views[a].entries, k);
    assert ranges[a].level == 0 ==> ChildAt(views[a], i) == 0;
    if ranges[a].level > 0 {
      SearchStep(views, ranges, root, level, a, k);
      assert HangsAt(views, ranges, ChildAt(views[a], i), a, i);
    }
  }

  /** The fast reading of a page leads where the plain reading leads. */
  lemma FastReadingFits(x: Node, level: nat)
    requires NodeOk(x, level)
    ensures Page(x) && (x.DeltaIndex? ==> BaseOf(x).entries != [])
    ensures x.DeltaKey? ==> level == 0
  {
  }

  lemma InnerNotEmpty(pages: Pages, ranges: Ranges, root: Pid, level: nat, nextPid: Pid, a: Pid)
    requires TreeOk(pages, ranges, root, level, nextPid) && a in pages && ranges[a].level > 0
    ensures ViewOf(pages[a]).entries != []
  {
    assert Fits(ViewsOf(pages)[a], ranges[a], ranges);
  }

  lemma AbsentHere(pages: Pages, a: Pid, k: Key)
    requires a in pages && !InTree(ViewsOf(pages), k)
    ensures !Has(ViewOf(pages[a]).entries, k)
  {
    assert a in ViewsOf(pages) && ViewsOf(pages)[a] == ViewOf(pages[a]);
  }

  /** A page whose interval holds a key is found by searching for that key: on the way,
      no page above it has the key, and on its own level no other page owns it. */
  lemma OnTheWay(pages: Pages, ranges: Ranges, root: Pid, level: nat, nextPid: Pid, a: Pid, x: Pid, k: Key)
    requires TreeOk(pages, ranges, root, level, nextPid) && a in pages && x in pages
    requires Inside(ranges[a], k) && Inside(ranges[x], k) && ranges[x].level >= ranges[a].level && x != a
    ensures ranges[x].level > ranges[a].level && !Has(ViewOf(pages[x]).entries, k)
  {
    var views := ViewsOf(pages);
    if Has(views[x].entries, k) {
      KeyIsAtOrBelow(views, ranges, root, level, a, x, k);
    }
  }

  /** What is known of the two halves and of everything else after a split. */
  lemma SplitSizes(pages: Pages, p: Pid, q: Pid, s: nat, level: nat)
    requires p in pages && q !in pages && 0 < s < |ViewOf(pages[p]).entries| - 1 && NodeOk(pages[p], level)
    ensures pages[p].meta.size == |ViewOf(pages[p]).entries|
    ensures var pages' := SplitPages(pages, p, q, s);
      && pages'[p].meta.size == s && pages'[q].meta.size == pages[p].meta.size - s - 1
      && pages'[p] != pages[p]
  {
  }

  /** The parent sits one level up and does not have the key that moves there; once it is
      there, the parent's interval holds it. */
  lemma ParentFacts(pages: Pages, ranges: Ranges, root: Pid, level: nat, nextPid: Pid, p: Pid, par: Pid, i: nat, s: nat)
    requires TreeOk(pages, ranges, root, level, nextPid) && p in pages && s < |ViewOf(pages[p]).entries|
    requires HangsAt(ViewsOf(pages), ranges, p, par, i)
    ensures par in pages && par != p && ranges[par].level == ranges[p].level + 1 <= level
    ensures Inside(ranges[par], ViewOf(pages[p]).entries[s].key)
  {
    var views := ViewsOf(pages);
    HangingPage(views, ranges, root, level, p, par, i, s);
    assert Fits(views[par], ranges[par], ranges);
    ChildInside(views[par], ranges[par], ranges, i, views[p].entries[s].key);
  }

  /** A longer chain on a leaf does not change what it hangs on. */
  lemma ParentSurvives(pages: Pages, ranges: Ranges, root: Pid, level: nat, nextPid: Pid, leaf: Pid, par: Pid, x: Node)
    requires TreeOk(pages, ranges, root, level, nextPid) && leaf in pages && ranges[leaf].level == 0
    requires ParentOf(ViewsOf(pages), ranges, leaf, par)
    ensures ParentOf(ViewsOf(pages[leaf := x]), ranges, leaf, par)
  {
    var i :| HangsAt(ViewsOf(pages), ranges, leaf, par, i);
    assert HangsAt(ViewsOf(pages[leaf := x]), ranges, leaf, par, i);
  }

  /** The record that `Put` leaves on the leaf. */
  lemma PutNode(pages: Pages, ranges: Ranges, root: Pid, level: nat, nextPid: Pid, leaf: Pid, k: Key)
    requires TreeOk(pages, ranges, root, level, nextPid) && leaf in pages && !InTree(ViewsOf(pages), k)
    ensures var x := NewDeltaKey(k, pages[leaf]);
      Page(x) && ViewOf(x).entries != [] && x.meta.size == pages[leaf].meta.size + 1
  {
    AbsentHere(pages, leaf, k);
    DeltaKeyIsPage(k, pages[leaf]);
  }

  /** What splitting a page under its parent leaves of the other pages, of sizes and of chains. */
  lemma UnderSizes(pages: Pages, p: Pid, q: Pid, s: nat, par: Pid, level: nat, splitTrigger: nat)
    requires p in pages && par in pages && p != par && q !in pages && NodeOk(pages[p], level)
    requires pages[p].meta.size == splitTrigger + 1 && splitTrigger >= 2 && SmallBut(pages, splitTrigger, p)
    requires s == CutAt(pages[p].meta.size).0 && 0 < s < |ViewOf(pages[p]).entries| - 1
    ensures var pages' := PagesUnder(pages, p, q, s, par);
      && SmallBut(pages', splitTrigger, par) && pages'.Keys == pages.Keys + {q}
      && pages'[p] != pages[p] && pages'[p].meta.depth == pages[p].meta.depth + 1 && pages'[p].meta.size < splitTrigger
      && pages'[par].meta.size == pages[par].meta.size + 1 && pages'[par].meta.depth == pages[par].meta.depth + 1
      && pages'[q].meta.depth == 0
      && forall a :: a in pages && a != p && a != par ==> a in pages' && pages'[a] == pages[a]
  {
    hide NodeOk, ViewOf;
    SplitSizes(pages, p, q, s, level);
  }

  lemma UnderRanges(ranges: Ranges, p: Pid, q: Pid, k: Key)
    requires p in ranges && q !in ranges
    ensures var ranges' := SplitRanges(ranges, p, q, k);
      && ranges'.Keys == ranges.Keys + {q} && ranges'[q].level == ranges'[p].level == ranges[p].level
      && forall a :: a in ranges && a != p ==> a in ranges' && ranges'[a] == ranges[a]
  {
  }

  /** What splitting the root leaves of the other pages, and of the sizes. */
  lemma TopSizes(pages: Pages, p: Pid, q: Pid, s: nat, level: nat, splitTrigger: nat)
    requires p in pages && q !in pages && q + 1 !in pages && NodeOk(pages[p], level)
    requires pages[p].meta.size == splitTrigger + 1 && splitTrigger >= 2 && SmallBut(pages, splitTrigger, p)
    requires s == CutAt(pages[p].meta.size).0 && 0 < s < |ViewOf(pages[p]).entries| - 1
    ensures var pages' := PagesTop(pages, p, q, s, q + 1);
      && SmallBut(pages', splitTrigger, 0)
      && p in pages' && pages'[p] != pages[p]
      && forall a :: a in pages && a != p ==> a in pages' && pages'[a] == pages[a]
  {
    hide NodeOk, ViewOf;
    SplitSizes(pages, p, q, s, level);
  }

  /** What the loop of `SplitInner` takes from the view: the key before the separator, the
      separator, and everything after it. */
  method CutEntries(e: seq<Entry>, sep: nat) returns (sp: Key, kp: Key, right: seq<Entry>)
    requires 0 < sep < |e|
    ensures sp == e[sep - 1].key && kp == e[sep].key && right == e[sep + 1..]
  {
    sp, kp, right := 0.0, 0.0, [];
    for i := 0 to |e|
      invariant 0 < i <= sep ==> sp == e[i - 1].key
      invariant i > sep ==> sp == e[sep - 1].key && kp == e[sep].key
      invariant right == if i > sep then e[sep + 1..i] else []
    {
      if i < sep {
        sp := e[i].key;
      } else if i == sep {
        kp := e[i].key;
      } else {
        right := right + [e[i]];
      }
    }
  }

  /** Where a page of `n` keys is cut: the separator's position and the size of the right half. */
  function CutAt(n: nat): (c: (nat, nat))
    requires n > 2
    ensures 0 < c.0 && 0 < c.1 && c.0 + 1 + c.1 == n
    ensures c.0 <= c.1 <= c.0 + 1
  {
    if n % 2 == 1 then (n / 2, n - n / 2 - 1) else (n / 2 - 1, n - n / 2)
  }

  class Tree {
    const consolidateTrigger: nat
    const splitTrigger: nat
    var pages: Pages
    var nextPid: Pid
    var root: Pid
    var level: nat
    ghost var ranges: Ranges

    ghost predicate Ok()
      reads this
    {
      splitTrigger >= 2 && TreeOk(pages, ranges, root, level, nextPid)
    }

    /** Between operations no page is due for a split, and no chain is long. */
    ghost predicate Valid()
      reads this
    {
      Ok() && SmallBut(pages, splitTrigger, 0) && BriefBut(pages, ranges, consolidateTrigger, splitTrigger, 0)
    }

    /** The keys of the tree. */
    ghost function Keys(): iset<Key>
      reads this
    {
      KeySet(ViewsOf(pages))
    }

    constructor (consolidateTrigger: nat, splitTrigger: nat)
      requires splitTrigger >= 2
      ensures Valid() && Keys() == iset{} && level == 0
      ensures this.consolidateTrigger == consolidateTrigger && this.splitTrigger == splitTrigger
    {
      this.consolidateTrigger := consolidateTrigger;
      this.splitTrigger := splitTrigger;
      pages := map[1 := BaseLine(Meta(0, 0, 0, 0.0, 0.0), 0, [])];
      nextPid, root, level := 2, 1, 0;
      ranges := map[1 := Range(0, Unbounded, Unbounded)];
    }

    /** `Consolidate`: replaces the chain by one base line, if it still is what the slot holds. */
    method Consolidate(a: Pid, node: Node)
      requires Ok() && a in pages
      requires Page(node) && (!node.BaseLine? ==> ViewOf(node).entries != [])
      modifies this`pages
      ensures Ok() && ViewsOf(pages) == old(ViewsOf(pages))
      ensures forall p :: SmallBut(old(pages), splitTrigger, p) ==> SmallBut(pages, splitTrigger, p)
      ensures pages == if node.BaseLine? || old(pages[a]) != node then old(pages)
                       else old(pages)[a := NewBaseLine(ViewOf(node), node.meta.sibling)]
      ensures NoneLonger(old(pages), pages)
    {
      hide TreeInv, NodeOk, NoneLonger, SmallBut;
      OneShorter(pages, a, pages[a]);
      if node.meta.depth < 1 {
        return;
      }
      var view := MakeView(node);
      var n := NewBaseLine(view, node.meta.sibling);
      if pages[a] == node {
        ConsolidatedNode(node, ranges[a].level);
        SameViewKeepsTree(pages, ranges, root, level, nextPid, a, n);
        OneShorter(pages, a, n);
        NoneLongerIsSmall(pages, pages[a := n], splitTrigger);
        pages := pages[a := n];
      }
    }

    /** `FindParent`: searches for the key from the root until it meets the page. */
    method FindParent(p: Pid, key: Key) returns (parent: Pid)
      requires Ok() && p in pages && Inside(ranges[p], key)
      ensures if p == root then parent == 0 else parent in pages && ParentOf(ViewsOf(pages), ranges, p, parent)
    {
      hide TreeInv, NodeOk, ParentOf;
      parent := 0;
      var x := root;
      RootHolds(pages, ranges, root, level, nextPid, key);
      while x != p
        invariant x in pages && Inside(ranges[x], key) && ranges[x].level >= ranges[p].level
        invariant if x == root then parent == 0 else parent in pages && ParentOf(ViewsOf(pages), ranges, x, parent)
        decreases ranges[x].level
      {
        OnTheWay(pages, ranges, root, level, nextPid, p, x, key);
        DescendStep(pages, ranges, root, level, nextPid, x, key);
        assert Linked(pages[x]) by { NodeIsLinked(pages[x], ranges[x].level); }
        var _, pid, _ := FindGreaterOrEqual(pages[x], key);
        if pid == 0 {
          break;
        }
        parent := x;
        x := pid;
      }
    }

    /** One step down: the child that the fast reading names; the page that was left is
        consolidated if its chain is long, which changes no view. */
    method StepDown(x: Pid, key: Key, trigger: bool) returns (pid: Pid)
      requires Ok() && x in pages && Inside(ranges[x], key) && !InTree(ViewsOf(pages), key)
      modifies this`pages
      ensures Ok() && ViewsOf(pages) == old(ViewsOf(pages)) && pages.Keys == old(pages.Keys)
      ensures SmallBut(old(pages), splitTrigger, 0) ==> SmallBut(pages, splitTrigger, 0)
      ensures ranges[x].level == 0 <==> pid == 0
      ensures pid != 0 ==> pid in pages && Inside(ranges[pid], key) && ranges[pid].level == ranges[x].level - 1
      ensures pid != 0 ==> ParentOf(ViewsOf(pages), ranges, pid, x)
      ensures NoneLonger(old(pages), pages) && (pid != 0 ==> pages[x].meta.depth <= consolidateTrigger)
    {
      hide TreeInv, NodeOk, ParentOf;
      AbsentHere(pages, x, key);
      DescendStep(pages, ranges, root, level, nextPid, x, key);
      FastReadingFits(pages[x], ranges[x].level);
      var child, _ := InnerFindGreaterOrEqual(pages[x], key);
      pid := child;
      if pid != 0 && (trigger || pages[x].meta.depth > consolidateTrigger) {
        InnerNotEmpty(pages, ranges, root, level, nextPid, x);
        Consolidate(x, pages[x]);
      }
    }

    /** `FindRoomFor`: the leaf that must take a new key, and the page above it. */
    method FindRoomFor(key: Key, trigger: bool) returns (leaf: Pid, parent: Pid)
      requires Ok() && key !in Keys()
      modifies this`pages
      ensures Ok() && ViewsOf(pages) == old(ViewsOf(pages))
      ensures SmallBut(old(pages), splitTrigger, 0) ==> SmallBut(pages, splitTrigger, 0)
      ensures leaf in pages && ranges[leaf].level == 0 && Inside(ranges[leaf], key)
      ensures if leaf == root then parent == 0 else parent in pages && ParentOf(ViewsOf(pages), ranges, leaf, parent)
      ensures NoneLonger(old(pages), pages) && BriefWay(pages, ranges, consolidateTrigger, key, 0)
    {
      hide TreeOk, ParentOf, InTree, ViewsOf, SmallBut, BriefWay;
      leaf, parent := root, 0;
      RootHolds(pages, ranges, root, level, nextPid, key);
      WayStarts(pages, ranges, root, level, nextPid, consolidateTrigger, key);
      while true
        invariant Ok() && ViewsOf(pages) == old(ViewsOf(pages)) && !InTree(ViewsOf(pages), key)
        invariant pages.Keys == ranges.Keys && root in pages && leaf in pages && Inside(ranges[leaf], key)
        invariant ranges[leaf].level <= ranges[root].level
        invariant SmallBut(old(pages), splitTrigger, 0) ==> SmallBut(pages, splitTrigger, 0)
        invariant if leaf == root then parent == 0 else parent in pages && ParentOf(ViewsOf(pages), ranges, leaf, parent)
        invariant NoneLonger(old(pages), pages)
        invariant BriefWay(pages, ranges, consolidateTrigger, key, ranges[leaf].level)
        decreases ranges[leaf].level
      {
        ghost var was := pages;
        var pid := StepDown(leaf, key, trigger);
        WayStays(was, pages, ranges, consolidateTrigger, key, ranges[leaf].level);
        if pid == 0 {
          return;
        }
        WayStep(pages, ranges, root, level, nextPid, leaf, consolidateTrigger, key);
        leaf, parent := pid, leaf;
      }
    }

    /** The first half of `SplitInner`: the right part moves to a new page, and a split
        record hides it, and the separator, from the old one. */
    method CutPage(p: Pid, ghost s: nat) returns (q: Pid, kp: Key)
      requires p in pages && pages[p].meta.size > 2 && s == CutAt(pages[p].meta.size).0
      requires Linked(pages[p]) && pages[p].meta.size == |ViewOf(pages[p]).entries|
      modifies this`pages, this`nextPid
      ensures q == old(nextPid) && nextPid == q + 1
      ensures kp == ViewOf(old(pages[p])).entries[s].key
      ensures pages == SplitPages(old(pages), p, q, s)
      ensures forall a :: a in old(pages) && a != p && a != q ==> a in pages && pages[a] == old(pages[a])
      ensures p != q ==> p in pages && q in pages
                         && pages[p].meta.size + 1 + pages[q].meta.size == old(pages[p].meta.size)
                         && pages[p].meta.size <= pages[q].meta.size <= pages[p].meta.size + 1
                         && pages[p].meta.depth == old(pages[p].meta.depth) + 1 && pages[q].meta.depth == 0
    {
      hide Linked, ViewOf;
      var node := pages[p];
      var (sep, nEntries) := CutAt(node.meta.size);
      q := nextPid;
      nextPid := nextPid + 1;
      var view := MakeView(node);
      var sp, k, right := CutEntries(view.entries, sep);
      kp := k;
      pages := pages[q := NewBaseLine(View(right, view.overflow), node.meta.sibling)];
      pages := pages[p := NewSplitNode(node.meta.size - nEntries - 1, kp, q, sp, node)];
    }

    /** The second half of `SplitInner` under a parent: the index record is put on it. */
    method CutUnder(p: Pid, parent: Pid) returns (kp: Key)
      requires Ok() && p in pages && pages[p].meta.size == splitTrigger + 1 && SmallBut(pages, splitTrigger, p)
      requires parent != 0 && ParentOf(ViewsOf(pages), ranges, p, parent)
      modifies this`pages, this`nextPid, this`ranges
      ensures Ok() && Keys() == old(Keys()) && SmallBut(pages, splitTrigger, parent)
      ensures parent in old(pages) && parent in pages && pages[parent].meta.size == old(pages[parent].meta.size) + 1
      ensures old(pages[parent].meta.size) <= splitTrigger
      ensures p != parent && p in pages && pages[p] != old(pages[p])
      ensures forall a :: a in old(pages) && a != p && a != parent ==> a in pages && pages[a] == old(pages[a])
      ensures forall a :: a in old(pages) ==> a in ranges && ranges[a].level == old(ranges[a].level)
      ensures forall a :: a in old(pages) && a != p ==> ranges[a] == old(ranges[a])
      ensures forall a :: a in pages && a !in old(pages) ==> pages[a].meta.depth == 0 && ranges[a].level == ranges[p].level
      ensures pages[p].meta.depth == old(pages[p].meta.depth) + 1 && pages[p].meta.size < splitTrigger
      ensures pages[parent].meta.depth == old(pages[parent].meta.depth) + 1
      ensures ranges[parent].level == ranges[p].level + 1 <= level && Inside(ranges[parent], kp)
    {
      hide TreeInv, NodeOk, Page, ViewsOf, ViewOf, KeySet, SplitPages, SplitRanges, SmallBut, Linked;
      ghost var was, s := pages, CutAt(pages[p].meta.size).0;
      NodeIsLinked(pages[p], ranges[p].level);
      SplitSizes(pages, p, nextPid, s, ranges[p].level);
      var q, k := CutPage(p, s);
      kp := k;
      ghost var i :| HangsAt(ViewsOf(was), ranges, p, parent, i);
      ParentFacts(was, ranges, root, level, q, p, parent, i, s);
      SplitUnderKeepsTree(was, ranges, root, level, q, p, s, parent, i);
      UnderSizes(was, p, q, s, parent, ranges[p].level, splitTrigger);
      UnderRanges(ranges, p, q, kp);
      assert was[parent].meta.size <= splitTrigger by { SmallHere(was, splitTrigger, p, parent); }
      pages := pages[parent := NewDeltaIndex(kp, p, q, pages[parent])];
      ranges := SplitRanges(ranges, p, q, kp);
    }

    /** The second half of `SplitInner` at the root: a new root with one separator. */
    method CutTop(p: Pid)
      requires Ok() && p in pages && pages[p].meta.size == splitTrigger + 1 && SmallBut(pages, splitTrigger, p)
      requires p == root && pages[p].meta.depth <= consolidateTrigger + 1
      requires BriefBut(pages, ranges, consolidateTrigger, splitTrigger, p)
      modifies this`pages, this`nextPid, this`root, this`level, this`ranges
      ensures Valid() && Keys() == old(Keys()) && level == old(level) + 1
      ensures p in pages && pages[p] != old(pages[p])
      ensures forall a :: a in old(pages) && a != p ==> a in pages && pages[a] == old(pages[a])
    {
      hide TreeInv, NodeOk, Page, ViewsOf, ViewOf, KeySet, SplitPages, SplitTopRanges, Linked, SmallBut, BriefBut;
      ghost var was, s := pages, CutAt(pages[p].meta.size).0;
      NodeIsLinked(pages[p], ranges[p].level);
      SplitSizes(pages, p, nextPid, s, ranges[p].level);
      var q, kp := CutPage(p, s);
      SplitTopKeepsTree(was, ranges, root, level, q, s);
      TopSizes(was, p, q, s, ranges[p].level, splitTrigger);
      TopIsBrief(was, ranges, p, q, s, kp, consolidateTrigger, splitTrigger);
      var top := NewBaseLine(View([Entry(kp, p)], q), 0);
      var pid := nextPid;
      nextPid := nextPid + 1;
      pages := pages[pid := top];
      ranges := SplitTopRanges(ranges, p, q, kp, pid);
      root, level := pid, level + 1;
    }

    /** `SplitInner`: cuts an oversized page in two, hands the separator to the page above,
        and goes on there if that page is now oversized; above the root, a new root grows. */
    method SplitInner(p: Pid, parent: Pid, ghost k: Key)
      requires Ok() && p in pages && pages[p].meta.size == splitTrigger + 1 && SmallBut(pages, splitTrigger, p)
      requires if parent == 0 then p == root else ParentOf(ViewsOf(pages), ranges, p, parent)
      requires BriefBut(pages, ranges, consolidateTrigger, splitTrigger, p) && Inside(ranges[p], k)
      requires pages[p].meta.depth <= consolidateTrigger + 1
      requires BriefWay(pages, ranges, consolidateTrigger, k, ranges[p].level)
      modifies this`pages, this`nextPid, this`root, this`level, this`ranges
      ensures Valid() && Keys() == old(Keys())
      ensures p in pages && pages[p] != old(pages[p])
      ensures forall a :: a in old(pages) && old(ranges[a].level < ranges[p].level) ==> a in pages && pages[a] == old(pages[a])
      decreases level - ranges[p].level
    {
      hide TreeInv, NodeOk, ViewsOf, KeySet, ParentOf, BriefBut, BriefWay;
      if parent != 0 {
        ghost var was, wasRanges := pages, ranges;
        ParentInside(pages, ranges, root, level, nextPid, p, parent, k);
        var kp := CutUnder(p, parent);
        CutIsBrief(was, wasRanges, pages, ranges, p, parent, consolidateTrigger, splitTrigger, k);
        if pages[parent].meta.size > splitTrigger {
          var grandparent := FindParent(parent, kp);
          SplitInner(parent, grandparent, k);
        }
      } else {
        CutTop(p);
      }
    }

    /** The end of `Put`: the leaf that took a record is split or consolidated, if it must be. */
    method Settle(leaf: Pid, parent: Pid, ghost key: Key)
      requires Ok() && leaf in pages && ranges[leaf].level == 0 && Inside(ranges[leaf], key) && pages[leaf].DeltaKey?
      requires pages[leaf].meta.size <= splitTrigger + 1 && SmallBut(pages, splitTrigger, leaf)
      requires Page(pages[leaf]) && ViewOf(pages[leaf]).entries != []
      requires if parent == 0 then leaf == root else ParentOf(ViewsOf(pages), ranges, leaf, parent)
      requires BriefBut(pages, ranges, consolidateTrigger, splitTrigger, leaf)
      requires BriefWay(pages, ranges, consolidateTrigger, key, 0)
      requires pages[leaf].meta.size > splitTrigger ==> pages[leaf].meta.depth <= consolidateTrigger + 1
      modifies this`pages, this`nextPid, this`root, this`level, this`ranges
      ensures Valid() && Keys() == old(Keys())
    {
      hide TreeInv, NodeOk, Page, ViewsOf, ViewOf, InTree, ParentOf, BriefBut, BriefWay, NoneLonger;
      var node := pages[leaf];
      if node.meta.size > splitTrigger {
        SplitInner(leaf, parent, key);
      }
      if node.meta.depth > consolidateTrigger {
        ghost var was := pages;
        Consolidate(leaf, node);
        if was[leaf] == node {
          ReplacedIsBrief(was, ranges, leaf, pages, consolidateTrigger, splitTrigger);
        }
      } else if node.meta.size <= splitTrigger {
        LeafStaysBrief(pages, ranges, leaf, consolidateTrigger, splitTrigger);
      }
    }

    /** `Put`: a new key goes to its leaf; whatever splits and consolidations that causes,
        the tree afterwards has the old keys and the new one. */
    method Put(key: Key)
      requires Valid() && key !in Keys()
      modifies this`pages, this`nextPid, this`root, this`level, this`ranges
      ensures Valid() && Keys() == old(Keys()) + iset{key}
    {
      hide TreeInv, NodeOk, Page, ViewsOf, ViewOf, InTree, ParentOf, BriefBut, BriefWay, NoneLonger;
      ghost var before := pages;
      var leaf, parent := FindRoomFor(key, false);
      NoneLongerKeeps(before, pages, ranges, consolidateTrigger, splitTrigger, 0);
      AddKeyKeepsTree(pages, ranges, root, level, nextPid, leaf, key);
      PutNode(pages, ranges, root, level, nextPid, leaf, key);
      var node := NewDeltaKey(key, pages[leaf]);
      if parent != 0 {
        ParentSurvives(pages, ranges, root, level, nextPid, leaf, parent, node);
      }
      LeafIsBrief(pages, ranges, leaf, node, consolidateTrigger, splitTrigger, key);
      pages := pages[leaf := node];
      Settle(leaf, parent, key);
    }
  }
}
