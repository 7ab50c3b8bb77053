/** What every iterator of the store is meant to be: a cursor in a sorted sequence. */
module Cursors {

  import opened Common

  type Value = string

  datatype Direction = Forward | Reverse

  datatype Flag = IsValue | IsDeletion

  /** An entry under its internal key: user key, sequence number and flag. */
  datatype Entry = Entry(user: Key, seqNo: nat, flag: Flag, value: Value)

  /** A position in a sequence; any position outside stands for an invalid cursor and is -1. */
  datatype Cursor<T> = Cursor(items: seq<T>, at: int) {
    ghost predicate Wf() {
      -1 <= at < |items|
    }

    predicate Valid() {
      0 <= at < |items|
    }

    function Current(): T
      requires Valid()
    {
      items[at]
    }

    /** To position `i`, or off the sequence. */
    function To(i: int): Cursor<T> {
      Cursor(items, if 0 <= i < |items| then i else -1)
    }

    function First(): Cursor<T> { To(0) }

    function Last(): Cursor<T> { To(|items| - 1) }

    function Next(): Cursor<T>
      requires Valid()
    {
      To(at + 1)
    }

    function Prev(): Cursor<T>
      requires Valid()
    {
      To(at - 1)
    }
  }

  /** `InternalKeyComparator`: user keys ascending, and newer entries of a user key first. */
  predicate Before(a: Entry, b: Entry) {
    a.user < b.user || (a.user == b.user && a.seqNo > b.seqNo)
  }

  ghost predicate InOrder(s: seq<Entry>) {
    forall i, j :: 0 <= i < j < |s| ==> Before(s[i], s[j])
  }

  /** Where a sought internal key lands. */
  function FirstNotBefore(s: seq<Entry>, e: Entry): (r: nat)
    ensures r <= |s|
    ensures forall j :: 0 <= j < r ==> Before(s[j], e)
    ensures r < |s| ==> !Before(s[r], e)
  {
    FirstNot(s, (x: Entry) => Before(x, e), 0)
  }

  lemma FirstNotBeforeIs(s: seq<Entry>, e: Entry, i: nat)
    requires InOrder(s) && i <= |s|
    requires i > 0 ==> Before(s[i - 1], e)
    requires i < |s| ==> !Before(s[i], e)
    ensures FirstNotBefore(s, e) == i
  {
  }
}
