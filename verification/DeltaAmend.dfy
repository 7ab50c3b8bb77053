/** `DeltaAmendIterator`: a cursor over a base map overlaid with uncommitted changes.

    Both directions are treated at once: `Sooner(dir, a, b)` says that an iterator running
    in direction `dir` meets key `a` before key `b`. */
module DeltaAmend {
  import opened Common
  import opened Cursors
  import opened Snapshot
  import opened Overlay
  import opened DbIterator

  predicate Sooner(dir: Direction, a: Key, b: Key) {
    if dir == Forward then a < b else a > b
  }

  function Opposite(dir: Direction): Direction {
    if dir == Forward then Reverse else Forward
  }

  /** What is met after a key, and what is met from a key on. */
  function Beyond(dir: Direction, k: Key): Key -> bool { x => Sooner(dir, k, x) }

  function FromOn(dir: Direction, k: Key): Key -> bool { x => !Sooner(dir, x, k) }

  function AnyKey(): Key -> bool { x => true }

  ghost predicate Closed(dir: Direction, part: Key -> bool) {
    forall a, b :: part(a) && Sooner(dir, a, b) ==> part(b)
  }

  /** Position `at` holds the first key of a part that an iterator running in `dir` meets,
      or is -1 if there is none. */
  ghost predicate FirstMet(dir: Direction, keys: seq<Key>, at: int, part: Key -> bool) {
    && -1 <= at < |keys|
    && (at >= 0 ==> part(keys[at]))
    && (forall i :: 0 <= i < |keys| && part(keys[i]) ==> at >= 0 && !Sooner(dir, keys[i], keys[at]))
  }

  lemma FirstMetUnique(dir: Direction, keys: seq<Key>, a: int, b: int, part: Key -> bool)
    requires Ascending(keys) && FirstMet(dir, keys, a, part) && FirstMet(dir, keys, b, part)
    ensures a == b
  {
  }

  function Move<T>(dir: Direction, c: Cursor<T>): Cursor<T>
    requires c.Valid()
  {
    if dir == Forward then c.Next() else c.Prev()
  }

  function Start<T>(dir: Direction, c: Cursor<T>): Cursor<T> {
    if dir == Forward then c.First() else c.Last()
  }

  /** One step on from a key leads to what is met first beyond it. */
  lemma MoveMeets(dir: Direction, keys: seq<Key>, at: int, next: int)
    requires Ascending(keys) && 0 <= at < |keys|
    requires next == if dir == Forward then (if at + 1 < |keys| then at + 1 else -1) else at - 1
    ensures FirstMet(dir, keys, next, Beyond(dir, keys[at]))
  {
  }

  lemma StartMeets(dir: Direction, keys: seq<Key>, at: int)
    requires Ascending(keys)
    requires at == if keys == [] then -1 else if dir == Forward then 0 else |keys| - 1
    ensures FirstMet(dir, keys, at, AnyKey())
  {
  }

  /** A key that is not the given one is met from it on exactly if it is met beyond it. */
  lemma FromOnIsBeyond(dir: Direction, keys: seq<Key>, at: int, k: Key)
    requires FirstMet(dir, keys, at, FromOn(dir, k)) && (at >= 0 ==> keys[at] != k)
    ensures FirstMet(dir, keys, at, Beyond(dir, k))
  {
  }

  /** Nothing overlaid is met before the sooner of the two heads. */
  lemma OverlaidNotSooner(dir: Direction, base: Cursor<Item>, delta: Cursor<Change>, part: Key -> bool, it: Item)
    requires Ascending(Keys(base.items)) && Ascending(ChangeKeys(delta.items))
    requires FirstMet(dir, Keys(base.items), base.at, part) && FirstMet(dir, ChangeKeys(delta.items), delta.at, part)
    requires it in Overlaid(base.items, delta.items) && part(it.user)
    ensures (base.Valid() && !Sooner(dir, it.user, base.Current().user))
            || (delta.Valid() && !Sooner(dir, it.user, delta.Current().user))
  {
    OverlaidMembers(base.items, delta.items, it);
    if Writes(delta.items, it) {
      var c :| c in delta.items && c.user == it.user && c.value == it.value && c.flag == IsValue;
      var j :| 0 <= j < |delta.items| && delta.items[j] == c;
      assert ChangeKeys(delta.items)[j] == it.user;
    } else {
      var j :| 0 <= j < |base.items| && base.items[j] == it;
      assert Keys(base.items)[j] == it.user;
    }
  }

  /** A head of the changes that is a value, and not behind the base, is shown. */
  lemma DeltaShown(base: seq<Item>, delta: seq<Change>, j: nat)
    requires Ascending(Keys(base)) && Ascending(ChangeKeys(delta)) && j < |delta| && delta[j].flag == IsValue
    ensures Item(delta[j].user, delta[j].value) in Overlaid(base, delta)
  {
    OverlaidMembers(base, delta, Item(delta[j].user, delta[j].value));
    assert delta[j] in delta;
  }

  /** A head of the base that no change equals is shown. */
  lemma BaseShown(dir: Direction, base: Cursor<Item>, delta: Cursor<Change>, part: Key -> bool)
    requires Ascending(Keys(base.items)) && Ascending(ChangeKeys(delta.items))
    requires FirstMet(dir, ChangeKeys(delta.items), delta.at, part)
    requires base.Valid() && part(base.Current().user)
    requires delta.Valid() ==> Sooner(dir, base.Current().user, delta.Current().user)
    ensures base.Current() in Overlaid(base.items, delta.items)
  {
    var it := base.Current();
    OverlaidMembers(base.items, delta.items, it);
  }

  /** A deletion at the head hides its key on both sides. */
  lemma DeletionHides(base: seq<Item>, delta: seq<Change>, j: nat, it: Item)
    requires Ascending(Keys(base)) && Ascending(ChangeKeys(delta)) && j < |delta| && delta[j].flag == IsDeletion
    requires it in Overlaid(base, delta)
    ensures it.user != delta[j].user
  {
    OverlaidMembers(base, delta, it);
    assert delta[j] in delta;
  }

  /** Narrowing a part to what is met from one of its keys on, or beyond it. */
  lemma Narrow(dir: Direction, keys: seq<Key>, at: int, part: Key -> bool, k: Key)
    requires FirstMet(dir, keys, at, part) && Closed(dir, part) && part(k)
    ensures (at >= 0 ==> !Sooner(dir, keys[at], k)) ==> FirstMet(dir, keys, at, FromOn(dir, k))
    ensures (at >= 0 ==> Sooner(dir, k, keys[at])) ==> FirstMet(dir, keys, at, Beyond(dir, k))
  {
    assert forall x :: !Sooner(dir, x, k) ==> x == k || Sooner(dir, k, x);
  }

  /** A shown key before which nothing of a part is shown is where the part is first met. */
  lemma Lands(dir: Direction, shown: seq<Item>, it: Item, part: Key -> bool)
    requires Ascending(Keys(shown)) && it in shown && part(it.user)
    requires forall x :: x in shown && part(x.user) ==> !Sooner(dir, x.user, it.user)
    ensures FirstMet(dir, Keys(shown), FirstItemFrom(shown, it.user), part)
    ensures shown[FirstItemFrom(shown, it.user)] == it
  {
    var j :| 0 <= j < |shown| && shown[j] == it;
    var r := FirstItemFrom(shown, it.user);
    assert r <= j;
    assert Keys(shown)[r] >= Keys(shown)[j];
  }

  lemma SoonerFacts(dir: Direction, a: Key, b: Key)
    requires if dir == Forward then a <= b else a >= b
    ensures !Sooner(dir, b, a) && (a != b ==> Sooner(dir, a, b))
  {
  }

  /** Turning round at a key: stepping back over what was first met from the key on in the
      old direction leads to what is first met beyond the key in the new one. */
  lemma TurnMeets(to: Direction, keys: seq<Key>, at: int, next: int, k: Key)
    requires Ascending(keys) && 0 <= at < |keys|
    requires FirstMet(Opposite(to), keys, at, FromOn(Opposite(to), k))
    requires next == if to == Forward then (if at + 1 < |keys| then at + 1 else -1) else at - 1
    ensures FirstMet(to, keys, next, Beyond(to, k))
  {
    MoveMeets(to, keys, at, next);
  }

  lemma TurnStarts(to: Direction, keys: seq<Key>, at: int, k: Key)
    requires Ascending(keys) && FirstMet(Opposite(to), keys, -1, FromOn(Opposite(to), k))
    requires at == if keys == [] then -1 else if to == Forward then 0 else |keys| - 1
    ensures FirstMet(to, keys, at, Beyond(to, k))
  {
  }

  /** Where a sought user key lands among the changes. */
  function FirstChangeFrom(changes: seq<Change>, k: Key): (r: nat)
    ensures r <= |changes|
    ensures forall j :: 0 <= j < r ==> changes[j].user < k
    ensures r < |changes| ==> changes[r].user >= k
  {
    FirstNot(changes, (c: Change) => c.user < k, 0)
  }

  lemma SeekMeets(keys: seq<Key>, at: int, r: nat, k: Key)
    requires Ascending(keys) && r <= |keys| && at == if r < |keys| then r else -1
    requires (forall j :: 0 <= j < r ==> keys[j] < k) && (r < |keys| ==> keys[r] >= k)
    ensures FirstMet(Forward, keys, at, FromOn(Forward, k))
  {
  }

  function Left<T>(dir: Direction, c: Cursor<T>): nat {
    if !c.Valid() then 0 else if dir == Forward then |c.items| - c.at else c.at + 1
  }

  class DeltaAmendIterator {
    const baseIter: DBIterator
    ghost var base: Cursor<Item>    // the cursor that `baseIter` is
    var delta: Cursor<Change>
    var direction: Direction
    var currentAtBase: bool
    var equalKeys: bool
    var failed: bool        // the error that a move of an invalid iterator leaves behind

    ghost predicate Joined()
      reads this`base, baseIter, baseIter.inner, baseIter.inner.children
    {
      baseIter.Wf() && baseIter.View() == base
    }

    ghost predicate Set()
      reads this`base, this`delta, this`direction, baseIter, baseIter.inner, baseIter.inner.children
    {
      && Joined() && Ascending(Keys(base.items)) && base.Wf()
      && Ascending(ChangeKeys(delta.items)) && delta.Wf()
    }

    ghost predicate Valid()
      reads this
    {
      if currentAtBase then base.Valid() else delta.Valid()
    }

    ghost function KeyNow(): Key
      reads this
      requires Valid()
    {
      if currentAtBase then base.Current().user else delta.Current().user
    }

    ghost function ValueNow(): Value
      reads this
      requires Valid()
    {
      if currentAtBase then base.Current().value else delta.Current().value
    }

    ghost predicate BaseFirst(part: Key -> bool)
      reads this`base, this`delta, this`direction
    {
      FirstMet(direction, Keys(base.items), base.at, part)
    }

    ghost predicate DeltaFirst(part: Key -> bool)
      reads this`base, this`delta, this`direction
    {
      FirstMet(direction, ChangeKeys(delta.items), delta.at, part)
    }

    ghost function Shown(): seq<Item>
      reads this`base, this`delta
    {
      Overlaid(base.items, delta.items)
    }

    /** Both sides stand at what is met first from the current key on; the current key is
        shown, and `equalKeys` tells whether both sides are at it. */
    ghost predicate Standing()
      reads this
    {
      Valid() ==>
        && BaseFirst(FromOn(direction, KeyNow())) && DeltaFirst(FromOn(direction, KeyNow()))
        && Item(KeyNow(), ValueNow()) in Shown()
        && equalKeys == (base.Valid() && delta.Valid() && base.Current().user == delta.Current().user)
        && (currentAtBase ==> !equalKeys)
    }

    ghost predicate Wf()
      reads this, baseIter, baseIter.inner, baseIter.inner.children
    {
      Set() && Standing()
    }

    /** The cursor over the overlay that this iterator is. */
    ghost function View(): Cursor<Item>
      reads this, baseIter, baseIter.inner, baseIter.inner.children
      requires Wf()
    {
      Cursor(Shown(), if Valid() then FirstItemFrom(Shown(), KeyNow()) else -1)
    }

    constructor (baseIter: DBIterator, delta: Cursor<Change>)
      requires baseIter.Wf() && !baseIter.View().Valid()
      requires Ascending(ChangeKeys(delta.items)) && delta.Wf() && !delta.Valid()
      ensures Wf() && View() == Cursor(Overlaid(old(baseIter.View()).items, delta.items), -1)
      ensures this.baseIter == baseIter
    {
      this.baseIter, this.base, this.delta := baseIter, baseIter.View(), delta;
      direction, currentAtBase, equalKeys, failed := Forward, true, false, false;
      ItemsAscend(baseIter);
    }

    // ----- what it does with the base iterator

    method BaseValid() returns (b: bool)
      requires Joined()
      ensures b == base.Valid()
    {
      b := baseIter.AtItem();
    }

    method BaseItem() returns (it: Item)
      requires Joined() && base.Valid()
      ensures it == base.Current()
    {
      it := baseIter.Current();
    }

    method MoveBase(dir: Direction)
      requires Joined() && base.Valid()
      modifies this`base, baseIter, baseIter.inner, baseIter.inner.children
      ensures Joined() && base == Move(dir, old(base))
    {
      if dir == Forward {
        baseIter.Next();
      } else {
        baseIter.Prev();
      }
      base := Move(dir, base);
    }

    method StartBase(dir: Direction)
      requires Joined()
      modifies this`base, baseIter, baseIter.inner, baseIter.inner.children
      ensures Joined() && base == Start(dir, old(base))
    {
      if dir == Forward {
        baseIter.SeekToFirst();
      } else {
        baseIter.SeekToLast();
      }
      base := Start(dir, base);
    }

    method SeekBase(target: Key)
      requires Joined()
      modifies this`base, baseIter, baseIter.inner, baseIter.inner.children
      ensures Joined() && base == old(base).To(FirstItemFrom(old(base).items, target))
    {
      baseIter.Seek(target);
      base := base.To(FirstItemFrom(base.items, target));
    }

    // ----- the cursor it is

    /** `Valid`. */
    method AtItem() returns (b: bool)
      requires Wf()
      ensures b == Valid() == View().Valid()
    {
      if currentAtBase {
        b := BaseValid();
      } else {
        b := delta.Valid();
      }
      if b {
        ViewIsCurrent();
      }
    }

    /** `key` and `value`. */
    method Current() returns (it: Item)
      requires Wf() && View().Valid()
      ensures it == View().Current()
    {
      ViewIsCurrent();
      if currentAtBase {
        it := BaseItem();
      } else {
        it := Item(delta.Current().user, delta.Current().value);
      }
    }

    method AdvanceBase()
      requires Set() && base.Valid()
      modifies this`base, baseIter, baseIter.inner, baseIter.inner.children
      ensures Set() && base == Move(direction, old(base)) && BaseFirst(Beyond(direction, old(base.Current().user)))
    {
      hide Joined, FirstMet;
      MoveBase(direction);
      MoveMeets(direction, Keys(base.items), old(base.at), base.at);
    }

    method AdvanceDelta()
      requires Set() && delta.Valid()
      modifies this`delta
      ensures Set() && delta == Move(direction, old(delta)) && DeltaFirst(Beyond(direction, old(delta.Current().user)))
    {
      delta := Move(direction, delta);
      MoveMeets(direction, ChangeKeys(delta.items), old(delta.at), delta.at);
    }

    /** Both sides have been narrowed to `part`, and nothing shown was lost on the way from `part0`. */
    ghost predicate Narrowed(part0: Key -> bool, part: Key -> bool)
      reads this`base, this`delta, this`direction
    {
      && Closed(direction, part) && BaseFirst(part) && DeltaFirst(part)
      && (forall k :: part(k) ==> part0(k))
      && (forall it :: it in Shown() && part0(it.user) ==> part(it.user))
    }

    /** Nothing is left to show. */
    lemma NothingLeft(part0: Key -> bool, part: Key -> bool)
      requires Set() && Narrowed(part0, part) && !base.Valid() && !delta.Valid()
      ensures Wf() && FirstMet(direction, Keys(Shown()), View().at, part0)
    {
      forall it | it in Shown() && part0(it.user)
        ensures false
      {
        OverlaidNotSooner(direction, base, delta, part, it);
      }
      forall i | 0 <= i < |Shown()| && part0(Keys(Shown())[i])
        ensures false
      {
        assert Shown()[i] in Shown();
      }
    }

    /** One side holds the first thing to show. */
    lemma ShowsHead(part0: Key -> bool, part: Key -> bool)
      requires Set() && Narrowed(part0, part) && Valid()
      requires base.Valid() ==> !Sooner(direction, base.Current().user, KeyNow())
      requires delta.Valid() ==> !Sooner(direction, delta.Current().user, KeyNow())
      requires Item(KeyNow(), ValueNow()) in Shown()
      requires equalKeys == (base.Valid() && delta.Valid() && base.Current().user == delta.Current().user)
      requires currentAtBase ==> !equalKeys
      ensures Wf() && FirstMet(direction, Keys(Shown()), View().at, part0)
      ensures View().Valid() && View().Current() == Item(KeyNow(), ValueNow())
    {
      var k := KeyNow();
      Narrow(direction, Keys(base.items), base.at, part, k);
      Narrow(direction, ChangeKeys(delta.items), delta.at, part, k);
      OverlaidAscending(base.items, delta.items);
      forall x | x in Shown() && part0(x.user)
        ensures !Sooner(direction, x.user, k)
      {
        OverlaidNotSooner(direction, base, delta, part, x);
      }
      Lands(direction, Shown(), Item(k, ValueNow()), part0);
    }

    /** A deletion at the head: its key is shown on neither side, so both sides go past it. */
    lemma PastDeletion(part0: Key -> bool, part: Key -> bool, it: Item)
      requires Set() && Narrowed(part0, part) && delta.Valid() && delta.Current().flag == IsDeletion
      requires base.Valid() ==> !Sooner(direction, base.Current().user, delta.Current().user)
      requires it in Shown() && part0(it.user)
      ensures Beyond(direction, delta.Current().user)(it.user)
    {
      OverlaidNotSooner(direction, base, delta, part, it);
      DeletionHides(base.items, delta.items, delta.at, it);
    }

    /** `AdvanceDelta`, and `AdvanceBase` if both are at the deleted key. */
    method SkipDeletion(ghost part0: Key -> bool, ghost part: Key -> bool)
      requires Set() && Narrowed(part0, part) && delta.Valid() && delta.Current().flag == IsDeletion
      requires base.Valid() ==> !Sooner(direction, base.Current().user, delta.Current().user)
      requires equalKeys == (base.Valid() && base.Current().user == delta.Current().user)
      modifies baseIter, baseIter.inner, baseIter.inner.children, this`base, this`delta
      ensures Set() && Narrowed(part0, Beyond(direction, old(delta.Current().user)))
      ensures base.items == old(base.items) && delta.items == old(delta.items)
      ensures Left(direction, base) + Left(direction, delta) < old(Left(direction, base) + Left(direction, delta))
    {
      hide Joined, Overlaid, Ascending;
      ghost var k := delta.Current().user;
      forall it | it in Shown() && part0(it.user) {
        PastDeletion(part0, part, it);
      }
      Narrow(direction, Keys(base.items), base.at, part, k);
      AdvanceDelta();
      if equalKeys {
        AdvanceBase();
      }
    }

    /** Goes past a deletion at the head of the changes. */
    method PassDeletion(ghost part0: Key -> bool, ghost part: Key -> bool) returns (ghost next: Key -> bool)
      requires Set() && Narrowed(part0, part) && delta.Valid() && delta.Current().flag == IsDeletion
      requires base.Valid() ==> !Sooner(direction, base.Current().user, delta.Current().user)
      requires equalKeys == (base.Valid() && base.Current().user == delta.Current().user)
      modifies baseIter, baseIter.inner, baseIter.inner.children, this`base, this`delta
      ensures Set() && Narrowed(part0, next)
      ensures base.items == old(base.items) && delta.items == old(delta.items)
      ensures Left(direction, base) + Left(direction, delta) < old(Left(direction, base) + Left(direction, delta))
    {
      hide Set, Sooner, FirstMet, Closed, Narrowed, Left;
      next := Beyond(direction, delta.Current().user);
      SkipDeletion(part0, part);
    }

    /** One turn of the loop of `UpdateCurrent` when both sides have a key. */
    method Compare(ghost part0: Key -> bool, ghost part: Key -> bool) returns (settled: bool, ghost next: Key -> bool)
      requires Set() && Narrowed(part0, part) && base.Valid() && delta.Valid() && !equalKeys
      modifies baseIter, baseIter.inner, baseIter.inner.children, this`base, this`delta, this`currentAtBase, this`equalKeys
      ensures base.items == old(base.items) && delta.items == old(delta.items)
      ensures settled ==> Wf() && FirstMet(direction, Keys(Shown()), View().at, part0)
      ensures !settled ==>
        && Set() && Narrowed(part0, next)
        && Left(direction, base) + Left(direction, delta) < old(Left(direction, base) + Left(direction, delta))
    {
      hide Sooner, FirstMet, Closed, Narrowed, Standing, View, Shown, Left, Ascending;
      var item := BaseItem();
      var d, b := delta.Current().user, item.user;
      settled, next := true, part;
      if (if direction == Forward then d <= b else d >= b) {
        SoonerFacts(direction, d, b);
        equalKeys := d == b;
        if delta.Current().flag != IsDeletion {
          currentAtBase := false;
          HeadOfDelta(part0, part);
        } else {
          next := PassDeletion(part0, part);
          settled := false;
        }
      } else {
        SoonerFacts(direction, b, d);
        currentAtBase := true;
        HeadOfBase(part0, part);
      }
    }

    /** One turn of the loop of `UpdateCurrent`. */
    method Look(ghost part0: Key -> bool, ghost part: Key -> bool) returns (settled: bool, ghost next: Key -> bool)
      requires Set() && Narrowed(part0, part)
      modifies baseIter, baseIter.inner, baseIter.inner.children, this`base, this`delta, this`currentAtBase, this`equalKeys
      ensures base.items == old(base.items) && delta.items == old(delta.items)
      ensures settled ==> Wf() && FirstMet(direction, Keys(Shown()), View().at, part0)
      ensures !settled ==>
        && Set() && Narrowed(part0, next)
        && Left(direction, base) + Left(direction, delta) < old(Left(direction, base) + Left(direction, delta))
    {
      hide Sooner, FirstMet, Closed, Narrowed, Standing, View, Shown, Left, Ascending;
      equalKeys := false;
      settled, next := true, part;
      var atBase := BaseValid();
      if atBase && delta.Valid() {
        settled, next := Compare(part0, part);
      } else if atBase {
        currentAtBase := true;
        HeadOfBase(part0, part);
      } else if !delta.Valid() {
        NothingLeft(part0, part);
      } else if delta.Current().flag == IsDeletion {
        next := PassDeletion(part0, part);
        settled := false;
      } else {
        currentAtBase := false;
        HeadOfDelta(part0, part);
      }
    }

    /** `UpdateCurrent`: settles on the first key of a part that is to be shown. */
    method UpdateCurrent(ghost part0: Key -> bool)
      requires Set() && Narrowed(part0, part0)
      modifies baseIter, baseIter.inner, baseIter.inner.children, this`base, this`delta, this`currentAtBase, this`equalKeys, this`failed
      ensures base.items == old(base.items) && delta.items == old(delta.items)
      ensures Wf() && !failed && FirstMet(direction, Keys(Shown()), View().at, part0)
    {
      hide Set, FirstMet, Narrowed, Wf, View, Shown, Left;
      failed := false;
      ghost var part := part0;
      var settled := false;
      while !settled
        invariant base.items == old(base.items) && delta.items == old(delta.items) && !failed
        invariant !settled ==> Set() && Narrowed(part0, part)
        invariant settled ==> Wf() && FirstMet(direction, Keys(Shown()), View().at, part0)
        decreases !settled, Left(direction, base) + Left(direction, delta)
      {
        settled, part := Look(part0, part);
      }
    }

    lemma HeadOfDelta(part0: Key -> bool, part: Key -> bool)
      requires Set() && Narrowed(part0, part) && !currentAtBase && delta.Valid() && delta.Current().flag == IsValue
      requires base.Valid() ==> !Sooner(direction, base.Current().user, delta.Current().user)
      requires equalKeys == (base.Valid() && base.Current().user == delta.Current().user)
      ensures Wf() && FirstMet(direction, Keys(Shown()), View().at, part0)
    {
      DeltaShown(base.items, delta.items, delta.at);
      ShowsHead(part0, part);
    }

    lemma HeadOfBase(part0: Key -> bool, part: Key -> bool)
      requires Set() && Narrowed(part0, part) && currentAtBase && base.Valid() && !equalKeys
      requires delta.Valid() ==> Sooner(direction, base.Current().user, delta.Current().user)
      ensures Wf() && FirstMet(direction, Keys(Shown()), View().at, part0)
    {
      BaseShown(direction, base, delta, part);
      ShowsHead(part0, part);
    }

    lemma ViewIsCurrent()
      requires Wf() && Valid()
      ensures View().Valid() && View().Current() == Item(KeyNow(), ValueNow())
      ensures Ascending(Keys(Shown()))
    {
      OverlaidAscending(base.items, delta.items);
      Lands(Forward, Shown(), Item(KeyNow(), ValueNow()), FromOn(Forward, KeyNow()));
    }

    /** What `Advance` relies on: every side is at the key, to be moved, or beyond it already. */
    ghost predicate Ready(k: Key)
      reads this
    {
      && Valid() && KeyNow() == k
      && (equalKeys ==> base.Valid() && delta.Valid() && base.Current().user == k && delta.Current().user == k)
      && (!equalKeys && currentAtBase ==> DeltaFirst(Beyond(direction, k)))
      && (!equalKeys && !currentAtBase ==> BaseFirst(Beyond(direction, k)))
    }

    lemma StandingIsReady()
      requires Wf() && Valid()
      ensures Ready(KeyNow())
    {
      var k := KeyNow();
      if !equalKeys {
        if currentAtBase {
          FromOnIsBeyond(direction, ChangeKeys(delta.items), delta.at, k);
        } else {
          FromOnIsBeyond(direction, Keys(base.items), base.at, k);
        }
      }
    }

    method Advance()
      requires Set() && Valid() && Ready(KeyNow())
      modifies baseIter, baseIter.inner, baseIter.inner.children, this`base, this`delta, this`currentAtBase, this`equalKeys, this`failed
      ensures base.items == old(base.items) && delta.items == old(delta.items)
      ensures Wf() && !failed && FirstMet(direction, Keys(Shown()), View().at, Beyond(direction, old(KeyNow())))
    {
      hide Joined, Overlaid, Ascending;
      ghost var k := KeyNow();
      if equalKeys {
        AdvanceBase();
        AdvanceDelta();
      } else if currentAtBase {
        AdvanceBase();
      } else {
        AdvanceDelta();
      }
      UpdateCurrent(Beyond(direction, k));
    }

    /** The side that is not current goes from the key on, in the old direction, to what is
        first met beyond it in the new one. */
    method TurnSides(ghost k: Key)
      requires Set() && (if currentAtBase then base.Valid() else delta.Valid())
      requires FirstMet(Opposite(direction), Keys(base.items), base.at, FromOn(Opposite(direction), k))
      requires FirstMet(Opposite(direction), ChangeKeys(delta.items), delta.at, FromOn(Opposite(direction), k))
      modifies baseIter, baseIter.inner, baseIter.inner.children, this`base, this`delta
      ensures Set() && base.items == old(base.items) && delta.items == old(delta.items)
      ensures currentAtBase ==> base == old(base) && DeltaFirst(Beyond(direction, k))
      ensures !currentAtBase ==> delta == old(delta) && BaseFirst(Beyond(direction, k))
    {
      hide Joined, Sooner, FirstMet, Ascending, Opposite, Keys, ChangeKeys;
      ghost var b, d := base.at, delta.at;
      var atBase := BaseValid();
      if !atBase {
        StartBase(direction);
        SeqsKeepLength(base.items, delta.items);
        TurnStarts(direction, Keys(base.items), base.at, k);
      } else if !delta.Valid() {
        delta := Start(direction, delta);
        SeqsKeepLength(base.items, delta.items);
        TurnStarts(direction, ChangeKeys(delta.items), delta.at, k);
      } else if currentAtBase {
        AdvanceDelta();
        SeqsKeepLength(base.items, delta.items);
        TurnMeets(direction, ChangeKeys(delta.items), d, delta.at, k);
      } else {
        AdvanceBase();
        SeqsKeepLength(base.items, delta.items);
        TurnMeets(direction, Keys(base.items), b, base.at, k);
      }
    }

    /** The turn that `Next` and `Prev` make when the iterator was running the other way. */
    method Turn(to: Direction)
      requires Wf() && Valid() && direction == Opposite(to)
      modifies baseIter, baseIter.inner, baseIter.inner.children, this`base, this`delta, this`direction, this`equalKeys
      ensures base.items == old(base.items) && delta.items == old(delta.items)
      ensures Set() && direction == to && Ready(old(KeyNow()))
    {
      hide Joined, Sooner, FirstMet, Overlaid, Ascending, Opposite;
      ghost var k := KeyNow();
      direction := to;
      equalKeys := false;
      TurnSides(k);
      var atBase := BaseValid();
      if delta.Valid() && atBase {
        var item := BaseItem();
        equalKeys := delta.Current().user == item.user;
      }
    }

    /** One move in either direction, with a turn before it if needed. */
    method Step(to: Direction)
      requires Wf() && Valid()
      modifies this, baseIter, baseIter.inner, baseIter.inner.children
      ensures base.items == old(base.items) && delta.items == old(delta.items)
      ensures Wf() && !failed && View() == Move(to, old(View()))
    {
      hide Joined, FirstMet, Overlaid, Standing;
      ghost var was, k := View(), KeyNow();
      ViewIsCurrent();
      StandingIsReady();
      if direction != to {
        Turn(to);
      }
      Advance();
      ghost var next := Move(to, was);
      MoveMeets(to, Keys(Shown()), was.at, next.at);
      FirstMetUnique(to, Keys(Shown()), View().at, next.at, Beyond(to, k));
    }

    /** `Next`: to the next key of the overlay, and an error if there is no current one. */
    method Next()
      requires Wf()
      modifies this, baseIter, baseIter.inner, baseIter.inner.children
      ensures Wf() && failed == !old(Valid())
      ensures old(Valid()) ==> old(View()).Valid() && View() == old(View()).Next()
      ensures !old(Valid()) ==> View() == old(View())
    {
      var valid := AtItem();
      if !valid {
        failed := true;
        return;
      }
      Step(Forward);
    }

    /** `Prev`: to the previous key of the overlay. */
    method Prev()
      requires Wf()
      modifies this, baseIter, baseIter.inner, baseIter.inner.children
      ensures Wf() && failed == !old(Valid())
      ensures old(Valid()) ==> old(View()).Valid() && View() == old(View()).Prev()
      ensures !old(Valid()) ==> View() == old(View())
    {
      var valid := AtItem();
      if !valid {
        failed := true;
        return;
      }
      Step(Reverse);
    }

    /** `SeekToFirst` and `SeekToLast`. */
    method SeekToEnd(dir: Direction)
      requires Wf()
      modifies this, baseIter, baseIter.inner, baseIter.inner.children
      ensures Wf() && !failed && View() == Start(dir, old(View()))
    {
      hide Joined, FirstMet, Standing, Overlaid;
      ghost var was := View();
      direction := dir;
      StartBase(dir);
      delta := Start(dir, delta);
      StartMeets(dir, Keys(base.items), base.at);
      StartMeets(dir, ChangeKeys(delta.items), delta.at);
      UpdateCurrent(AnyKey());
      OverlaidAscending(base.items, delta.items);
      StartMeets(dir, Keys(Shown()), Start(dir, was).at);
      FirstMetUnique(dir, Keys(Shown()), View().at, Start(dir, was).at, AnyKey());
    }

    /** `Seek`: to the first key of the overlay that is not below the target. */
    method Seek(target: Key)
      requires Wf()
      modifies this, baseIter, baseIter.inner, baseIter.inner.children
      ensures Wf() && !failed && View() == old(View()).To(FirstItemFrom(old(View()).items, target))
    {
      hide Joined, FirstMet, Standing, Overlaid, Ascending, FirstItemFrom, FirstChangeFrom;
      direction := Forward;
      SeekBase(target);
      delta := delta.To(FirstChangeFrom(delta.items, target));
      SeekMeets(Keys(base.items), base.at, FirstItemFrom(base.items, target), target);
      SeekMeets(ChangeKeys(delta.items), delta.at, FirstChangeFrom(delta.items, target), target);
      UpdateCurrent(FromOn(Forward, target));
      OverlaidAscending(base.items, delta.items);
      ghost var there := View().To(FirstItemFrom(Shown(), target));
      SeekMeets(Keys(Shown()), there.at, FirstItemFrom(Shown(), target), target);
      FirstMetUnique(Forward, Keys(Shown()), View().at, there.at, FromOn(Forward, target));
    }
  }

  lemma SeqsKeepLength(items: seq<Item>, changes: seq<Change>)
    ensures |Keys(items)| == |items| && |ChangeKeys(changes)| == |changes|
  {
  }

  lemma ItemsAscend(iter: DBIterator)
    requires iter.Wf()
    ensures Ascending(Keys(iter.View().items)) && iter.View().Wf()
  {
    var s := iter.iter.items;
    AllAscends(s, iter.snap);
    if iter.valid {
      LiveItem(s, iter.snap, iter.live);
    }
  }

  lemma AllAscends(s: seq<Entry>, snap: nat)
    requires InOrder(s)
    ensures Ascending(Keys(All(s, snap)))
  {
    SnapshotIsNewestValues(s, snap, Item(0.0, ""));
  }
}
