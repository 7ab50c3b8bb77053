/** A committed map with uncommitted changes laid over it, as sorted sequences. */
module Overlay {
  import opened Common
  import opened Cursors
  import opened Snapshot

  /** An uncommitted write: a new value, or a deletion. */
  datatype Change = Change(user: Key, flag: Flag, value: Value)

  ghost function Keys(items: seq<Item>): (keys: seq<Key>)
    ensures |keys| == |items| && forall i :: 0 <= i < |items| ==> keys[i] == items[i].user
  {
    seq(|items|, i requires 0 <= i < |items| => items[i].user)
  }

  ghost function ChangeKeys(changes: seq<Change>): (keys: seq<Key>)
    ensures |keys| == |changes| && forall i :: 0 <= i < |changes| ==> keys[i] == changes[i].user
  {
    seq(|changes|, i requires 0 <= i < |changes| => changes[i].user)
  }

  ghost predicate Ascending(keys: seq<Key>) {
    forall i, j :: 0 <= i < j < |keys| ==> keys[i] < keys[j]
  }

  function Own(c: Change): seq<Item> {
    if c.flag == IsValue then [Item(c.user, c.value)] else []
  }

  /** Base and changes merged: a changed key shows the change, or nothing if that is a deletion. */
  function Overlaid(base: seq<Item>, delta: seq<Change>): seq<Item> {
    if delta == [] then base
    else if base == [] || delta[0].user < base[0].user then Own(delta[0]) + Overlaid(base, delta[1..])
    else if delta[0].user == base[0].user then Own(delta[0]) + Overlaid(base[1..], delta[1..])
    else [base[0]] + Overlaid(base[1..], delta)
  }

  ghost predicate Changed(delta: seq<Change>, k: Key) {
    exists c :: c in delta && c.user == k
  }

  ghost predicate Writes(delta: seq<Change>, it: Item) {
    exists c :: c in delta && c.user == it.user && c.value == it.value && c.flag == IsValue
  }

  lemma FirstChange(delta: seq<Change>, it: Item)
    requires delta != []
    ensures Writes(delta, it) <==> it in Own(delta[0]) || Writes(delta[1..], it)
    ensures Changed(delta, it.user) <==> it.user == delta[0].user || Changed(delta[1..], it.user)
  {
    assert delta == [delta[0]] + delta[1..];
    assert delta[0] in delta;
  }

  /** Delta values win, delta deletions hide, and everything else shows through. */
  lemma {:induction false} OverlaidMembers(base: seq<Item>, delta: seq<Change>, it: Item)
    requires Ascending(Keys(base)) && Ascending(ChangeKeys(delta))
    ensures it in Overlaid(base, delta) <==> Writes(delta, it) || (it in base && !Changed(delta, it.user))
  {
    hide Ascending, Writes, Changed, Own;
    if delta == [] {
      assert !Writes(delta, it) && !Changed(delta, it.user) by { NoChange(it); }
    } else {
      var d := delta[0];
      FirstChange(delta, it);
      Tail(ChangeKeys(delta), ChangeKeys(delta[1..]));
      if base == [] || d.user < base[0].user {
        OverlaidMembers(base, delta[1..], it);
        KeyNotIn(base, d.user);
      } else {
        assert base == [base[0]] + base[1..];
        Tail(Keys(base), Keys(base[1..]));
        FirstItem(base);
        if d.user == base[0].user {
          OverlaidMembers(base[1..], delta[1..], it);
          KeyNotIn(base[1..], d.user);
        } else {
          OverlaidMembers(base[1..], delta, it);
          NotChanged(delta, base[0].user);
          KeyNotIn(base[1..], base[0].user);
        }
      }
    }
  }

  lemma NoChange(it: Item)
    ensures !Writes([], it) && !Changed([], it.user)
  {
  }

  lemma NotChanged(delta: seq<Change>, k: Key)
    requires Ascending(ChangeKeys(delta)) && (delta != [] ==> k < delta[0].user)
    ensures !Changed(delta, k) && forall it: Item :: it.user == k ==> !Writes(delta, it)
  {
    assert forall i :: 0 < i < |delta| ==> ChangeKeys(delta)[0] < ChangeKeys(delta)[i];
  }

  lemma FirstItem(base: seq<Item>)
    requires Ascending(Keys(base)) && base != []
    ensures |base| > 1 ==> base[0].user < base[1].user
  {
    assert |base| > 1 ==> Keys(base)[0] < Keys(base)[1];
  }

  lemma Tail(keys: seq<Key>, rest: seq<Key>)
    requires Ascending(keys) && keys != [] && |rest| == |keys| - 1
    requires forall i :: 0 <= i < |rest| ==> rest[i] == keys[i + 1]
    ensures Ascending(rest)
  {
  }

  lemma KeyNotIn(base: seq<Item>, k: Key)
    requires Ascending(Keys(base)) && (base != [] ==> k < base[0].user)
    ensures forall it :: it in base ==> it.user != k
  {
    assert forall i :: 0 < i < |base| ==> Keys(base)[0] < Keys(base)[i];
  }

  /** Everything overlaid is at or above the smaller of the two first keys. */
  lemma {:induction false} OverlaidFrom(base: seq<Item>, delta: seq<Change>, k: Key)
    requires Ascending(Keys(base)) && Ascending(ChangeKeys(delta))
    requires (base != [] ==> k < base[0].user) && (delta != [] ==> k < delta[0].user)
    ensures forall it :: it in Overlaid(base, delta) ==> k < it.user
  {
    forall it | it in Overlaid(base, delta)
      ensures k < it.user
    {
      OverlaidMembers(base, delta, it);
      assert forall i :: 0 < i < |base| ==> Keys(base)[0] < Keys(base)[i];
      assert forall i :: 0 < i < |delta| ==> ChangeKeys(delta)[0] < ChangeKeys(delta)[i];
    }
  }

  lemma ItemInFront(h: Item, rest: seq<Item>)
    requires Ascending(Keys(rest)) && forall it :: it in rest ==> h.user < it.user
    ensures Ascending(Keys([h] + rest))
  {
    var s := [h] + rest;
    forall i, j | 0 <= i < j < |s|
      ensures Keys(s)[i] < Keys(s)[j]
    {
      assert Keys(s)[j] == Keys(rest)[j - 1] && rest[j - 1] in rest;
      if i > 0 {
        assert Keys(s)[i] == Keys(rest)[i - 1];
      }
    }
  }

  lemma OwnInFront(c: Change, rest: seq<Item>)
    requires Ascending(Keys(rest)) && forall it :: it in rest ==> c.user < it.user
    ensures Ascending(Keys(Own(c) + rest))
  {
    if c.flag == IsValue {
      ItemInFront(Item(c.user, c.value), rest);
    } else {
      assert Own(c) + rest == rest;
    }
  }

  /** The overlay is again sorted, without a key twice. */
  lemma {:induction false} OverlaidAscending(base: seq<Item>, delta: seq<Change>)
    requires Ascending(Keys(base)) && Ascending(ChangeKeys(delta))
    ensures Ascending(Keys(Overlaid(base, delta)))
  {
    hide Ascending, Own;
    if delta != [] {
      var d := delta[0];
      Tail(ChangeKeys(delta), ChangeKeys(delta[1..]));
      FirstOf(delta);
      if base == [] || d.user < base[0].user {
        OverlaidAscending(base, delta[1..]);
        OverlaidFrom(base, delta[1..], d.user);
        OwnInFront(d, Overlaid(base, delta[1..]));
      } else {
        Tail(Keys(base), Keys(base[1..]));
        FirstItem(base);
        if d.user == base[0].user {
          OverlaidAscending(base[1..], delta[1..]);
          OverlaidFrom(base[1..], delta[1..], d.user);
          OwnInFront(d, Overlaid(base[1..], delta[1..]));
        } else {
          OverlaidAscending(base[1..], delta);
          OverlaidFrom(base[1..], delta, base[0].user);
          ItemInFront(base[0], Overlaid(base[1..], delta));
        }
      }
    }
  }

  lemma FirstOf(delta: seq<Change>)
    requires Ascending(ChangeKeys(delta)) && delta != []
    ensures |delta| > 1 ==> delta[0].user < delta[1].user
  {
    assert |delta| > 1 ==> ChangeKeys(delta)[0] < ChangeKeys(delta)[1];
  }
}
