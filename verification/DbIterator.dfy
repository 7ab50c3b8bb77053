/** `DBIterator`: a cursor over what a snapshot shows, driven over the versioned entries. */
module DbIterator {
  import opened Common
  import opened Cursors
  import opened Snapshot
  import opened Merging

  const EMPTY_KEY: Key := 0.0

  /** An entry that the forward scan may yield: live, and above the key to skip, if any. */
  ghost predicate Acceptable(s: seq<Entry>, snap: nat, skipping: bool, skip: Key, i: int) {
    Live(s, snap, i) && (skipping ==> s[i].user > skip)
  }

  /** Every live entry of a stretch is at or below the key to skip. */
  ghost predicate OnlySkipped(s: seq<Entry>, snap: nat, skipping: bool, skip: Key, lo: int, hi: int) {
    forall i {:trigger Live(s, snap, i)} :: lo <= i < hi && Live(s, snap, i) ==> skipping && s[i].user <= skip
  }

  /** What the forward scan must know at position `p`: a visible entry before `p` hides an
      entry of its key from `p` on only through the skip key, and visible entries from `p`
      on are not below the skip key. */
  ghost predicate ScanState(s: seq<Entry>, snap: nat, skipping: bool, skip: Key, p: nat) {
    && (forall i, j {:trigger s[i], s[j]} ::
          0 <= j < p <= i < |s| && s[j].user == s[i].user && Visible(s[j], snap) ==> skipping && s[i].user <= skip)
    && (skipping ==> forall i :: p <= i < |s| && Visible(s[i], snap) ==> s[i].user >= skip)
  }

  /** The entries that the scan moves over, given where it started, hold nothing to yield,
      and what the skip key hides now was not to be yielded from the start. */
  ghost predicate ScanProgress(s: seq<Entry>, snap: nat, skipping0: bool, skip0: Key, start: int,
                               skipping: bool, skip: Key, p: nat) {
    && (skipping0 ==> skipping && skip >= skip0)
    && OnlySkipped(s, snap, skipping0, skip0, start, p)
    && (skipping ==> forall i {:trigger Live(s, snap, i)} ::
          p <= i < |s| && s[i].user <= skip && Live(s, snap, i) ==> skipping0 && s[i].user <= skip0)
  }

  /** The state of a forward scan. */
  datatype Scan = Scan(skipping: bool, skip: Key)

  ghost predicate Scanning(s: seq<Entry>, snap: nat, from: Scan, start: int, now: Scan, p: nat) {
    && start <= p
    && ScanState(s, snap, now.skipping, now.skip, p)
    && ScanProgress(s, snap, from.skipping, from.skip, start, now.skipping, now.skip, p)
  }

  /** How a scan moves over one entry: invisible ones and hidden values change nothing, a
      deletion hides the rest of its key. */
  function Over(now: Scan, e: Entry, snap: nat): Scan {
    if Visible(e, snap) && e.flag == IsDeletion then Scan(true, e.user) else now
  }

  lemma ScanOver(s: seq<Entry>, snap: nat, from: Scan, start: int, now: Scan, p: nat)
    requires InOrder(s) && p < |s| && Scanning(s, snap, from, start, now, p)
    requires Visible(s[p], snap) && s[p].flag == IsValue ==> now.skipping && s[p].user <= now.skip
    ensures Scanning(s, snap, from, start, Over(now, s[p], snap), p + 1)
  {
    assert forall i :: p < i < |s| ==> Before(s[p], s[i]);
    var next := Over(now, s[p], snap);
    assert ScanState(s, snap, next.skipping, next.skip, p + 1);
  }

  /** A visible value that is not hidden is live, and nothing to yield lies before it. */
  lemma ScanYields(s: seq<Entry>, snap: nat, from: Scan, start: int, now: Scan, p: nat)
    requires p < |s| && Scanning(s, snap, from, start, now, p)
    requires Visible(s[p], snap) && s[p].flag == IsValue && !(now.skipping && s[p].user <= now.skip)
    ensures Acceptable(s, snap, from.skipping, from.skip, p)
    ensures OnlySkipped(s, snap, from.skipping, from.skip, start, p)
  {
  }

  lemma ScanStarts(s: seq<Entry>, snap: nat, from: Scan, start: nat)
    requires ScanState(s, snap, from.skipping, from.skip, start)
    ensures Scanning(s, snap, from, start, from, start)
  {
  }

  lemma ScanEnds(s: seq<Entry>, snap: nat, from: Scan, start: int, now: Scan)
    requires Scanning(s, snap, from, start, now, |s|)
    ensures OnlySkipped(s, snap, from.skipping, from.skip, start, |s|)
  {
  }

  /** The last visible entry below a key is where the backward scan stops. */
  ghost predicate StopsBelow(s: seq<Entry>, snap: nat, key: Key, p: int) {
    && -1 <= p < |s|
    && (p >= 0 ==> Visible(s[p], snap) && s[p].user < key)
    && (forall j :: p < j < |s| && s[j].user < key ==> !Visible(s[j], snap))
  }

  /** The backward scan from `start` has come down to `p`; it either holds the newest
      visible entry so far of a key, at `c`, or everything above `p` is out of the question. */
  ghost predicate Backing(s: seq<Entry>, snap: nat, start: int, p: int, held: bool, c: int) {
    && -1 <= p <= start < |s|
    && (if held then
          && p < c <= start && Visible(s[c], snap) && s[c].flag == IsValue
          && (forall j :: p < j < c ==> !Visible(s[j], snap))
          && NoneLive(s, snap, c + 1, start + 1)
        else NoneLive(s, snap, p + 1, start + 1))
  }

  lemma BackOver(s: seq<Entry>, snap: nat, start: int, p: int, held: bool, c: int)
    requires InOrder(s) && 0 <= p && Backing(s, snap, start, p, held, c)
    requires Visible(s[p], snap) && held ==> s[p].user >= s[c].user
    ensures if Visible(s[p], snap) then Backing(s, snap, start, p - 1, s[p].flag == IsValue, p)
            else Backing(s, snap, start, p - 1, held, c)
  {
    if Visible(s[p], snap) && held {
      assert Before(s[p], s[c]);
    }
  }

  lemma BackStarts(s: seq<Entry>, snap: nat, start: int)
    requires 0 <= start < |s|
    ensures Backing(s, snap, start, start, false, -1)
  {
  }

  lemma BackFails(s: seq<Entry>, snap: nat, start: int, p: int, c: int)
    requires start == -1 || (p == -1 && Backing(s, snap, start, p, false, c))
    ensures NoneLive(s, snap, 0, start + 1)
  {
  }

  /** What the scan holds when it meets a smaller key, or the front, is live. */
  lemma BackStops(s: seq<Entry>, snap: nat, start: int, p: int, c: int)
    requires InOrder(s) && Backing(s, snap, start, p, true, c)
    requires p >= 0 ==> Visible(s[p], snap) && s[p].user < s[c].user
    ensures 0 <= c <= start && Live(s, snap, c) && NoneLive(s, snap, c + 1, start + 1)
    ensures StopsBelow(s, snap, s[c].user, p)
  {
    assert forall j :: 0 <= j < p ==> Before(s[j], s[p]);
    assert forall j :: c < j < |s| ==> Before(s[c], s[j]);
  }

  /** After a turn the forward scan starts above the visible entries of smaller keys. */
  lemma TurnedForward(s: seq<Entry>, snap: nat, k: Key, was: int, start: int)
    requires InOrder(s) && Live(s, snap, was) && k == s[was].user && 0 <= start
    requires StopsBelow(s, snap, k, start - 1)
    ensures start <= was && ScanState(s, snap, true, k, start)
  {
    assert forall i, j :: 0 <= i < j < |s| ==> s[i].user <= s[j].user by {
      assert forall i, j :: 0 <= i < j < |s| ==> Before(s[i], s[j]);
    }
  }

  /** Seeking (target, snapshot) passes exactly the entries that cannot be shown at or above
      the target. */
  lemma SoughtPlace(s: seq<Entry>, snap: nat, target: Key, start: nat)
    requires InOrder(s) && start == FirstNotBefore(s, Entry(target, snap, IsValue, ""))
    ensures ScanState(s, snap, false, EMPTY_KEY, start)
    ensures |Items(s, snap, start)| == FirstItemFrom(All(s, snap), target)
  {
    hide FirstNot, FirstItemFrom, Items;
    assert forall i :: start < i < |s| ==> Before(s[start], s[i]);
    RankOfKey(s, snap, target, start);
  }

  lemma OnTheKey(s: seq<Entry>, snap: nat, was: int)
    requires InOrder(s) && Live(s, snap, was)
    ensures 0 <= was && ScanState(s, snap, true, s[was].user, was)
  {
    assert forall j :: 0 <= j < was ==> Before(s[j], s[was]);
    assert forall j :: was < j < |s| ==> Before(s[was], s[j]);
  }

  /** Between the place where a backward scan starts and the current entry nothing is shown. */
  lemma NothingShownDownTo(s: seq<Entry>, snap: nat, was: int, p: int)
    requires InOrder(s) && Live(s, snap, was) && -1 <= p < |s|
    requires StopsBelow(s, snap, s[was].user, p)
             || (p < was && forall i :: p < i <= was ==> s[i].user >= s[was].user)
    ensures p < was && NoneLive(s, snap, p + 1, was)
  {
    assert forall i :: was < i < |s| ==> Before(s[was], s[i]);
    forall i | p < i < was
      ensures !Live(s, snap, i)
    {
      assert Before(s[i], s[was]);
    }
  }

  lemma LiveInRange(s: seq<Entry>, snap: nat, i: int)
    requires Live(s, snap, i)
    ensures 0 <= i < |s|
  {
  }

  class DBIterator {
    const snap: nat
    const inner: MergingIterator
    ghost var iter: Cursor<Entry>   // the cursor that `inner` is
    var direction: Direction
    var valid: bool
    var savedKey: Key
    var savedValue: Value
    ghost var live: int     // the entry that is shown, when valid

    ghost predicate Joined()
      reads this`iter, inner, inner.children
    {
      inner.Wf() && inner.View() == iter
    }

    ghost predicate Wf()
      reads this, inner, inner.children
    {
      && Joined() && InOrder(iter.items) && iter.Wf()
      && (valid ==>
            && Live(iter.items, snap, live)
            && (direction == Forward ==> iter.at == live)
            && (direction == Reverse ==>
                  && savedKey == iter.items[live].user && savedValue == iter.items[live].value
                  && StopsBelow(iter.items, snap, savedKey, iter.at)))
    }

    /** The cursor over the snapshot that this iterator is. */
    ghost function View(): Cursor<Item>
      reads this, inner, inner.children
      requires Wf()
    {
      Cursor(All(iter.items, snap), if valid then |Items(iter.items, snap, live)| else -1)
    }

    constructor (inner: MergingIterator, snap: nat)
      requires inner.Wf()
      ensures Wf() && View() == Cursor(All(MergeAll(inner.lists), snap), -1) && this.inner == inner
    {
      this.snap, this.inner, iter := snap, inner, inner.View();
      direction, valid, savedKey, savedValue := Forward, false, EMPTY_KEY, "";
      MergeAllIsUnion(inner.lists);
      ViewInRange(inner);
    }

    // ----- what it does with the iterator it drives

    method InnerValid() returns (b: bool)
      requires Joined()
      ensures b == iter.Valid()
    {
      b := inner.AtEntry();
    }

    method InnerEntry() returns (e: Entry)
      requires Joined() && iter.Valid()
      ensures e == iter.Current()
    {
      e := inner.Current();
    }

    method InnerNext()
      requires Joined() && iter.Valid()
      modifies this`iter, inner`current, inner`direction, inner.children
      ensures Joined() && iter == old(iter).Next()
    {
      inner.Next();
      iter := iter.Next();
    }

    method InnerPrev()
      requires Joined() && iter.Valid()
      modifies this`iter, inner`current, inner`direction, inner.children
      ensures Joined() && iter == old(iter).Prev()
    {
      inner.Prev();
      iter := iter.Prev();
    }

    method InnerSeekToFirst()
      requires Joined()
      modifies this`iter, inner`current, inner`direction, inner.children
      ensures Joined() && iter == old(iter).First()
    {
      inner.SeekToFirst();
      iter := iter.First();
    }

    method InnerSeekToLast()
      requires Joined()
      modifies this`iter, inner`current, inner`direction, inner.children
      ensures Joined() && iter == old(iter).Last()
    {
      inner.SeekToLast();
      iter := iter.Last();
    }

    method InnerSeek(target: Entry)
      requires Joined()
      modifies this`iter, inner`current, inner`direction, inner.children
      ensures Joined() && iter == old(iter).To(FirstNotBefore(iter.items, target))
    {
      inner.Seek(target);
      iter := iter.To(FirstNotBefore(iter.items, target));
    }

    // ----- the cursor it is

    /** `Valid`. */
    method AtItem() returns (b: bool)
      requires Wf()
      ensures b == View().Valid()
    {
      if valid {
        LiveItem(iter.items, snap, live);
      }
      return valid;
    }

    /** `key` and `value`. */
    method Current() returns (it: Item)
      requires Wf() && View().Valid()
      ensures it == View().Current()
    {
      LiveItem(iter.items, snap, live);
      if direction == Forward {
        var e := InnerEntry();
        return Item(e.user, e.value);
      }
      return Item(savedKey, savedValue);
    }

    /** `FindNextUserEntry`: from the current entry on, the first one to yield. */
    method FindNextUserEntry(skip: bool)
      requires Joined() && InOrder(iter.items) && iter.Valid() && direction == Forward
      requires ScanState(iter.items, snap, skip, savedKey, iter.at)
      modifies inner`current, inner`direction, inner.children, this`iter, this`valid, this`savedKey, this`live
      ensures Joined() && iter.items == old(iter.items) && iter.Wf()
      ensures valid ==>
        && iter.at == live >= old(iter.at) && Acceptable(iter.items, snap, skip, old(savedKey), live)
        && OnlySkipped(iter.items, snap, skip, old(savedKey), old(iter.at), live)
      ensures !valid ==> OnlySkipped(iter.items, snap, skip, old(savedKey), old(iter.at), |iter.items|)
    {
      hide Joined, InOrder, Scanning, ScanState, OnlySkipped, Acceptable;
      ghost var s, start, from := iter.items, iter.at, Scan(skip, savedKey);
      assert Scanning(s, snap, from, start, from, start) by { ScanStarts(s, snap, from, start); }
      var skipping := skip;
      while true
        invariant Joined() && iter.items == s && iter.Valid() && start <= iter.at
        invariant Scanning(s, snap, from, start, Scan(skipping, savedKey), iter.at)
        decreases |s| - iter.at
      {
        var e := InnerEntry();
        ghost var now := Scan(skipping, savedKey);
        if e.seqNo <= snap {
          if e.flag == IsDeletion {
            savedKey := e.user;
            skipping := true;
          } else if !(skipping && e.user <= savedKey) {
            ScanYields(s, snap, from, start, now, iter.at);
            valid := true;
            savedKey := EMPTY_KEY;
            live := iter.at;
            return;
          }
        }
        ScanOver(s, snap, from, start, now, iter.at);
        InnerNext();
        var more := InnerValid();
        if !more {
          ScanEnds(s, snap, from, start, Scan(skipping, savedKey));
          break;
        }
      }
      savedKey := EMPTY_KEY;
      valid := false;
    }

    /** The loop of `FindPrevUserEntry`: back until a value is held and a smaller key is met. */
    method ScanBack() returns (valueType: Flag, ghost c: int)
      requires Joined() && InOrder(iter.items) && iter.Valid()
      modifies inner`current, inner`direction, inner.children, this`iter, this`savedKey, this`savedValue
      ensures Joined() && iter.items == old(iter.items) && iter.Wf()
      ensures Backing(iter.items, snap, old(iter.at), iter.at, valueType == IsValue, c)
      ensures valueType == IsDeletion ==> iter.at == -1
      ensures valueType == IsValue ==>
        && 0 <= c < |iter.items| && savedKey == iter.items[c].user && savedValue == iter.items[c].value
        && (iter.Valid() ==> Visible(iter.Current(), snap) && iter.Current().user < savedKey)
    {
      hide Joined, InOrder, Backing;
      ghost var s, start := iter.items, iter.at;
      valueType, c := IsDeletion, -1;
      BackStarts(s, snap, start);
      var more := true;
      while more
        invariant Joined() && iter.items == s && iter.Wf() && more == iter.Valid()
        invariant Backing(s, snap, start, iter.at, valueType == IsValue, c)
        invariant valueType == IsValue ==> 0 <= c < |s| && savedKey == s[c].user && savedValue == s[c].value
        decreases iter.at
      {
        var e := InnerEntry();
        if e.seqNo <= snap && valueType != IsDeletion && e.user < savedKey {
          return;
        }
        BackOver(s, snap, start, iter.at, valueType == IsValue, c);
        if e.seqNo <= snap {
          valueType, c := e.flag, iter.at;
          if valueType == IsDeletion {
            savedKey, savedValue := EMPTY_KEY, "";
          } else {
            savedKey, savedValue := e.user, e.value;
          }
        }
        InnerPrev();
        more := InnerValid();
      }
    }

    /** `FindPrevUserEntry`: from the current entry back, the last live one. */
    method FindPrevUserEntry()
      requires Joined() && InOrder(iter.items) && iter.Wf() && direction == Reverse
      modifies inner`current, inner`direction, inner.children, this`iter, this`valid, this`savedKey, this`savedValue, this`direction, this`live
      ensures iter.items == old(iter.items) && Wf()
      ensures valid ==> live <= old(iter.at) && NoneLive(iter.items, snap, live + 1, old(iter.at) + 1)
      ensures !valid ==> NoneLive(iter.items, snap, 0, old(iter.at) + 1)
    {
      hide Joined, InOrder, Backing, Live, NoneLive, StopsBelow;
      ghost var s, start, c := iter.items, iter.at, -1;
      var valueType := IsDeletion;
      var found := InnerValid();
      if found {
        valueType, c := ScanBack();
      }
      if valueType == IsDeletion {
        valid, savedKey, savedValue, direction := false, EMPTY_KEY, "", Forward;
        BackFails(s, snap, start, iter.at, c);
      } else {
        BackStops(s, snap, start, iter.at, c);
        valid := true;
        live := c;
      }
    }

    /** The rank of what is shown, after a forward move over everything not to be shown. */
    lemma ViewAfter(lo: nat, rank: nat)
      requires Wf() && lo <= |iter.items| && rank == |Items(iter.items, snap, lo)|
      requires if valid then lo <= live && NoneLive(iter.items, snap, lo, live)
               else NoneLive(iter.items, snap, lo, |iter.items|)
      ensures View() == Cursor(All(iter.items, snap), -1).To(rank)
    {
      if valid {
        ItemsPrefix(iter.items, snap, lo, live);
        LiveItem(iter.items, snap, live);
      } else {
        ItemsPrefix(iter.items, snap, lo, |iter.items|);
      }
    }

    lemma ViewBefore(hi: nat)
      requires Wf() && hi <= |iter.items|
      requires if valid then live < hi && NoneLive(iter.items, snap, live + 1, hi)
               else NoneLive(iter.items, snap, 0, hi)
      ensures View() == Cursor(All(iter.items, snap), -1).To(|Items(iter.items, snap, hi)| - 1)
    {
      if valid {
        NextRank(iter.items, snap, live, hi);
        LiveItem(iter.items, snap, live);
      } else {
        ItemsPrefix(iter.items, snap, 0, hi);
      }
    }

    method SeekToFirst()
      requires Wf()
      modifies inner`current, inner`direction, inner.children, this`iter, this`direction, this`valid, this`savedKey, this`savedValue, this`live
      ensures Wf() && View() == old(View()).First()
    {
      hide Joined, InOrder, Live, StopsBelow;
      direction := Forward;
      savedValue := "";
      InnerSeekToFirst();
      var found := InnerValid();
      if found {
        FindNextUserEntry(false);
      } else {
        valid := false;
      }
      ViewAfter(0, 0);
    }

    method SeekToLast()
      requires Wf()
      modifies inner`current, inner`direction, inner.children, this`iter, this`direction, this`valid, this`savedKey, this`savedValue, this`live
      ensures Wf() && View() == old(View()).Last()
    {
      hide Joined, InOrder, Live, StopsBelow;
      direction := Reverse;
      savedValue := "";
      InnerSeekToLast();
      FindPrevUserEntry();
      ViewBefore(|iter.items|);
    }

    /** `Seek`: to the first shown key that is not below the target. */
    method Seek(target: Key)
      requires Wf()
      modifies inner`current, inner`direction, inner.children, this`iter, this`direction, this`valid, this`savedKey, this`savedValue, this`live
      ensures Wf() && View() == old(View()).To(FirstItemFrom(old(View()).items, target))
    {
      hide Joined, FirstItemFrom, FirstNotBefore, Items, Live, InOrder;
      direction := Forward;
      savedValue := "";
      savedKey := EMPTY_KEY;
      ghost var start := FirstNotBefore(iter.items, Entry(target, snap, IsValue, ""));
      SoughtPlace(iter.items, snap, target, start);
      InnerSeek(Entry(target, snap, IsValue, ""));
      var found := InnerValid();
      if found {
        FindNextUserEntry(false);
      } else {
        valid := false;
      }
      ViewAfter(start, |Items(iter.items, snap, start)|);
    }

    /** Nothing is shown between the current entry and the next one to yield. */
    lemma NothingBetween(was: int, start: int, k: Key)
      requires InOrder(iter.items) && Live(iter.items, snap, was) && start <= was && k == iter.items[was].user
      requires valid ==> start <= live && Acceptable(iter.items, snap, true, k, live)
      requires OnlySkipped(iter.items, snap, true, k, start, if valid then live else |iter.items|)
      ensures valid ==> was < live
      ensures NoneLive(iter.items, snap, was + 1, if valid then live else |iter.items|)
    {
      var s, end := iter.items, if valid then live else |iter.items|;
      if valid {
        LiveOrder(s, snap, was, live);
      }
      forall i | was < i < end
        ensures !Live(s, snap, i)
      {
        if Live(s, snap, i) {
          LiveOrder(s, snap, was, i);
        }
      }
    }

    /** `Next`: to the next shown key, whichever way the iterator was running. */
    method Next()
      requires Wf() && View().Valid()
      modifies inner`current, inner`direction, inner.children, this`iter, this`direction, this`valid, this`savedKey, this`live
      ensures Wf() && View() == old(View()).Next()
    {
      hide Joined, Items, Live, ScanState, StopsBelow, InOrder;
      LiveInRange(iter.items, snap, live);
      ghost var was, k, s := live, iter.items[live].user, iter.items;
      if direction == Reverse {
        direction := Forward;
        TurnedForward(s, snap, k, was, iter.at + 1);
        var inside := InnerValid();
        if !inside {
          InnerSeekToFirst();
        } else {
          InnerNext();
        }
        inside := InnerValid();
        if !inside {
          assert false;
        }
      } else {
        var e := InnerEntry();
        savedKey := e.user;
        OnTheKey(s, snap, was);
      }
      ghost var start := iter.at;
      FindNextUserEntry(true);
      NothingBetween(was, start, k);
      NextRank(s, snap, was, was + 1);
      ViewAfter(was + 1, |Items(s, snap, was + 1)|);
    }

    /** The scan of `Prev` after a forward move: back to the last entry of a smaller key. */
    method LeaveKey() returns (found: bool)
      requires Joined() && InOrder(iter.items) && iter.Valid()
      modifies inner`current, inner`direction, inner.children, this`iter, this`savedKey
      ensures Joined() && iter.items == old(iter.items) && iter.Wf() && found == iter.Valid()
      ensures savedKey == old(iter.Current().user)
      ensures found ==> iter.Current().user < savedKey
      ensures iter.at < old(iter.at) && forall i :: iter.at < i <= old(iter.at) ==> iter.items[i].user >= savedKey
    {
      hide Joined;
      var e := InnerEntry();
      savedKey := e.user;
      ghost var s, was := iter.items, iter.at;
      while true
        invariant Joined() && iter.items == s && iter.Valid() && iter.at <= was && savedKey == s[was].user
        invariant forall i :: iter.at <= i <= was ==> s[i].user >= savedKey
        decreases iter.at
      {
        InnerPrev();
        var inside := InnerValid();
        if !inside {
          return false;
        }
        e := InnerEntry();
        if e.user < savedKey {
          return true;
        }
      }
    }

    /** `Prev`: to the previous shown key, whichever way the iterator was running. */
    method Prev()
      requires Wf() && View().Valid()
      modifies inner`current, inner`direction, inner.children, this`iter, this`direction, this`valid, this`savedKey, this`savedValue, this`live
      ensures Wf() && View() == old(View()).Prev()
    {
      hide Joined, Items, Live, InOrder, StopsBelow;
      LiveInRange(iter.items, snap, live);
      ghost var was, s := live, iter.items;
      if direction == Forward {
        var found := LeaveKey();
        if !found {
          valid, savedKey, savedValue := false, EMPTY_KEY, "";
          NothingShownDownTo(s, snap, was, -1);
          ViewBefore(was);
          return;
        }
        direction := Reverse;
      }
      NothingShownDownTo(s, snap, was, iter.at);
      ghost var start := iter.at;
      FindPrevUserEntry();
      assert NoneLive(s, snap, start + 1, was);
      ViewBefore(was);
    }
  }

  lemma ViewInRange(inner: MergingIterator)
    requires inner.Wf()
    ensures inner.View().Wf()
  {
    if inner.current >= 0 {
      RankOf(inner.lists, inner.current, inner.children[inner.current].at);
    }
  }
}
