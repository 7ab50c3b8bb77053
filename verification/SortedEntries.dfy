/** Strictly sorted association lists: what `std::map` and a base line hold. */
module SortedEntries {

  import opened Common

  type Pid = nat

  datatype Entry = Entry(key: Key, child: Pid)

  ghost predicate Sorted(s: seq<Entry>) {
    forall i, j :: 0 <= i < j < |s| ==> s[i].key < s[j].key
  }

  /** `lower_bound`: the first entry whose key is not below `k`. */
  function Lower(s: seq<Entry>, k: Key): (r: nat)
    ensures r <= |s|
    ensures forall j :: 0 <= j < r ==> s[j].key < k
    ensures r < |s| ==> s[r].key >= k
  {
    FirstNot(s, (x: Entry) => x.key < k, 0)
  }

  /** Whether `k` is a key. */
  predicate Has(s: seq<Entry>, k: Key) {
    Lower(s, k) < |s| && s[Lower(s, k)].key == k
  }

  function Get(s: seq<Entry>, k: Key): Pid
    requires Has(s, k)
  {
    s[Lower(s, k)].child
  }

  /** `upper_bound`: the first entry whose key is above `k`. */
  function Upper(s: seq<Entry>, k: Key): (r: nat)
    ensures r <= |s|
    ensures forall j :: 0 <= j < r ==> s[j].key <= k
    ensures r < |s| ==> s[r].key > k
  {
    FirstNot(s, (x: Entry) => x.key <= k, 0)
  }

  /** `emplace`: inserts unless the key is there already. */
  function Emplace(s: seq<Entry>, k: Key, c: Pid): seq<Entry> {
    var i := Lower(s, k);
    if Has(s, k) then s else s[..i] + [Entry(k, c)] + s[i..]
  }

  /** `operator[]` followed by an assignment. */
  function Assign(s: seq<Entry>, k: Key, c: Pid): seq<Entry> {
    var i := Lower(s, k);
    if Has(s, k) then s[i := Entry(k, c)] else s[..i] + [Entry(k, c)] + s[i..]
  }

  /** In a sorted list the bounds are determined by what they separate. */
  lemma LowerIs(s: seq<Entry>, k: Key, i: nat)
    requires Sorted(s) && i <= |s|
    requires i > 0 ==> s[i - 1].key < k
    requires i < |s| ==> s[i].key >= k
    ensures Lower(s, k) == i
  {
  }

  lemma UpperIs(s: seq<Entry>, k: Key, i: nat)
    requires Sorted(s) && i <= |s|
    requires i > 0 ==> s[i - 1].key <= k
    requires i < |s| ==> s[i].key > k
    ensures Upper(s, k) == i
  {
  }

  lemma PlaceOf(s: seq<Entry>, k: Key) returns (i: nat)
    requires Has(s, k)
    ensures i < |s| && s[i].key == k
  {
    i := Lower(s, k);
  }

  lemma HasAt(s: seq<Entry>, i: nat)
    requires Sorted(s) && i < |s|
    ensures Lower(s, s[i].key) == i && Has(s, s[i].key) && Get(s, s[i].key) == s[i].child
  {
    LowerIs(s, s[i].key, i);
  }

  lemma AssignSorted(s: seq<Entry>, k: Key, c: Pid)
    requires Sorted(s)
    ensures Sorted(Assign(s, k, c))
    ensures Lower(Assign(s, k, c), k) == Lower(s, k)
    ensures Has(Assign(s, k, c), k) && Get(Assign(s, k, c), k) == c
  {
    LowerIs(Assign(s, k, c), k, Lower(s, k));
  }

  /** Assigning one key leaves every other key as it was. */
  lemma AssignElsewhere(s: seq<Entry>, k: Key, c: Pid, x: Key)
    requires Sorted(s) && x != k
    ensures Has(Assign(s, k, c), x) <==> Has(s, x)
    ensures Has(s, x) ==> Get(Assign(s, k, c), x) == Get(s, x)
  {
    AssignSorted(s, k, c);
    var j := Lower(s, x);
    LowerIs(Assign(s, k, c), x, if Has(s, k) || x < k then j else j + 1);
  }

  lemma UpperIsLower(s: seq<Entry>, k: Key)
    requires Sorted(s) && !Has(s, k)
    ensures Upper(s, k) == Lower(s, k)
  {
    UpperIs(s, k, Lower(s, k));
  }

  /** `e` has exactly the keys of `a` and `b` together. */
  ghost predicate UnionOf(e: seq<Entry>, a: seq<Entry>, b: seq<Entry>) {
    && Sorted(e) && Sorted(a) && Sorted(b)
    && forall k {:trigger Has(e, k)} :: Has(e, k) <==> Has(a, k) || Has(b, k)
  }

  /** Searching a union is searching both sides and taking the smaller hit. */
  lemma LowerOfUnion(e: seq<Entry>, a: seq<Entry>, b: seq<Entry>, key: Key)
    requires UnionOf(e, a, b)
    ensures var n, i, j := Lower(e, key), Lower(a, key), Lower(b, key);
      && (n < |e| <==> i < |a| || j < |b|)
      && (i < |a| && (j == |b| || a[i].key <= b[j].key) ==> e[n].key == a[i].key)
      && (j < |b| && (i == |a| || b[j].key <= a[i].key) ==> e[n].key == b[j].key)
  {
    var n, i, j := Lower(e, key), Lower(a, key), Lower(b, key);
    if i < |a| {
      HasAt(a, i);
      assert Has(e, a[i].key);
    }
    if j < |b| {
      HasAt(b, j);
      assert Has(e, b[j].key);
    }
    if n < |e| {
      HasAt(e, n);
      assert Has(a, e[n].key) || Has(b, e[n].key);
    }
  }
}
