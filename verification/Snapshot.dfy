/** What a snapshot shows of a sorted sequence of versioned entries. */
module Snapshot {
  import opened Common
  import opened Cursors

  datatype Item = Item(user: Key, value: Value)

  predicate Visible(e: Entry, snap: nat) {
    e.seqNo <= snap
  }

  /** The entry at `i` is what the snapshot shows of its user key: the newest visible
      entry of that key, and a value. */
  ghost predicate Live(s: seq<Entry>, snap: nat, i: int) {
    && 0 <= i < |s|
    && Visible(s[i], snap) && s[i].flag == IsValue
    && forall j :: 0 <= j < i && s[j].user == s[i].user ==> !Visible(s[j], snap)
  }

  /** The items that the snapshot shows among the first `n` entries, in order. */
  ghost function Items(s: seq<Entry>, snap: nat, n: nat): seq<Item>
    requires n <= |s|
  {
    if n == 0 then []
    else Items(s, snap, n - 1) + if Live(s, snap, n - 1) then [Item(s[n - 1].user, s[n - 1].value)] else []
  }

  ghost function All(s: seq<Entry>, snap: nat): seq<Item> {
    Items(s, snap, |s|)
  }

  ghost predicate NoneLive(s: seq<Entry>, snap: nat, lo: int, hi: int) {
    forall i :: lo <= i < hi ==> !Live(s, snap, i)
  }

  lemma {:induction false} ItemsPrefix(s: seq<Entry>, snap: nat, m: nat, n: nat)
    requires m <= n <= |s|
    ensures Items(s, snap, m) <= Items(s, snap, n)
    ensures NoneLive(s, snap, m, n) ==> Items(s, snap, m) == Items(s, snap, n)
    decreases n
  {
    if m < n {
      ItemsPrefix(s, snap, m, n - 1);
    }
  }

  /** A live entry is the item at its rank. */
  lemma LiveItem(s: seq<Entry>, snap: nat, i: nat)
    requires Live(s, snap, i)
    ensures var r := |Items(s, snap, i)|;
      r < |All(s, snap)| && All(s, snap)[r] == Item(s[i].user, s[i].value)
  {
    ItemsPrefix(s, snap, i + 1, |s|);
    assert Items(s, snap, i + 1)[|Items(s, snap, i)|] == Item(s[i].user, s[i].value);
  }

  /** Consecutive live entries have consecutive ranks. */
  lemma NextRank(s: seq<Entry>, snap: nat, i: nat, j: nat)
    requires Live(s, snap, i) && i < j <= |s| && NoneLive(s, snap, i + 1, j)
    ensures |Items(s, snap, j)| == |Items(s, snap, i)| + 1
  {
    ItemsPrefix(s, snap, i + 1, j);
  }

  /** Live entries of a sorted sequence have strictly increasing user keys. */
  lemma LiveOrder(s: seq<Entry>, snap: nat, i: int, j: int)
    requires InOrder(s) && Live(s, snap, i) && Live(s, snap, j)
    ensures i < j <==> s[i].user < s[j].user
  {
    assert i < j ==> Before(s[i], s[j]);
    assert j < i ==> Before(s[j], s[i]);
  }

  lemma {:induction false} ItemIsLive(s: seq<Entry>, snap: nat, n: nat, r: nat) returns (i: nat)
    requires n <= |s| && r < |Items(s, snap, n)|
    ensures i < n && Live(s, snap, i) && |Items(s, snap, i)| == r
    ensures Items(s, snap, n)[r] == Item(s[i].user, s[i].value)
  {
    if r < |Items(s, snap, n - 1)| {
      i := ItemIsLive(s, snap, n - 1, r);
    } else {
      i := n - 1;
    }
  }

  ghost predicate ItemsInOrder(items: seq<Item>) {
    forall p, q :: 0 <= p < q < |items| ==> items[p].user < items[q].user
  }

  /** The snapshot is the map from each user key to the value of its newest visible entry,
      for the keys where that entry is a value, listed in key order. */
  lemma SnapshotIsNewestValues(s: seq<Entry>, snap: nat, it: Item)
    requires InOrder(s)
    ensures ItemsInOrder(All(s, snap))
    ensures it in All(s, snap) <==>
      exists e :: && e in s && e.user == it.user && e.value == it.value && e.flag == IsValue && e.seqNo <= snap
                  && forall f :: f in s && f.user == e.user && f.seqNo <= snap ==> f.seqNo <= e.seqNo
  {
    var all := All(s, snap);
    forall p, q | 0 <= p < q < |all|
      ensures all[p].user < all[q].user
    {
      var i := ItemIsLive(s, snap, |s|, p);
      var j := ItemIsLive(s, snap, |s|, q);
      if j <= i {
        ItemsPrefix(s, snap, j, i);
      }
      LiveOrder(s, snap, i, j);
    }
    if it in all {
      var r :| 0 <= r < |all| && all[r] == it;
      var i := ItemIsLive(s, snap, |s|, r);
      LiveIsNewest(s, snap, i);
      assert s[i] in s;
    }
    if e :| && e in s && e.user == it.user && e.value == it.value && e.flag == IsValue && e.seqNo <= snap
            && forall f :: f in s && f.user == e.user && f.seqNo <= snap ==> f.seqNo <= e.seqNo {
      var i :| 0 <= i < |s| && s[i] == e;
      forall j | 0 <= j < i && s[j].user == e.user
        ensures !Visible(s[j], snap)
      {
        assert Before(s[j], s[i]);
      }
      LiveItem(s, snap, i);
    }
  }

  lemma LiveIsNewest(s: seq<Entry>, snap: nat, i: int)
    requires InOrder(s) && Live(s, snap, i)
    ensures forall f :: f in s && f.user == s[i].user && f.seqNo <= snap ==> f.seqNo <= s[i].seqNo
  {
    forall f | f in s && f.user == s[i].user && f.seqNo <= snap
      ensures f.seqNo <= s[i].seqNo
    {
      var j :| 0 <= j < |s| && s[j] == f;
      assert j > i ==> Before(s[i], s[j]);
    }
  }

  /** Where a sought user key lands. */
  function FirstItemFrom(items: seq<Item>, k: Key): (r: nat)
    ensures r <= |items|
    ensures forall j :: 0 <= j < r ==> items[j].user < k
    ensures r < |items| ==> items[r].user >= k
  {
    FirstNot(items, (it: Item) => it.user < k, 0)
  }

  /** If the live entries before `i` are those below `k`, the rank of `i` is where `k` lands. */
  lemma RankOfKey(s: seq<Entry>, snap: nat, k: Key, i: nat)
    requires InOrder(s) && i <= |s|
    requires forall j :: 0 <= j < i && Live(s, snap, j) ==> s[j].user < k
    requires forall j :: i <= j < |s| && Live(s, snap, j) ==> s[j].user >= k
    ensures |Items(s, snap, i)| == FirstItemFrom(All(s, snap), k)
  {
    hide FirstNot, Live;
    var all, r, f := All(s, snap), |Items(s, snap, i)|, FirstItemFrom(All(s, snap), k);
    ItemsPrefix(s, snap, i, |s|);
    if f < r {
      var j := ItemIsLive(s, snap, i, f);
      assert false;
    } else if r < f {
      var j := ItemIsLive(s, snap, |s|, r);
      assert j < i;
      ItemsPrefix(s, snap, j + 1, i);
      assert false;
    }
  }
}
