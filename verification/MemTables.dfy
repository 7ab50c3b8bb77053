/** The two memory tables, hash-chained and skip-list, and why they answer alike. */
module MemTables {

  import opened Common
  import opened Cursors
  import opened SkipShape
  import opened SkipLists

  /** What `Get` promises: the entry of the key with the largest number at or below the version. */
  ghost predicate IsNewest(history: set<Entry>, user: Key, version: nat, r: Option<Entry>) {
    match r
    case None => forall e :: e in history && e.user == user ==> e.seqNo > version
    case Some(e) =>
      && e in history && e.user == user && e.seqNo <= version
      && forall f :: f in history && f.user == user && f.seqNo <= version ==> f.seqNo <= e.seqNo
  }

  ghost predicate UniqueNumbers(history: set<Entry>) {
    forall e, f :: e in history && f in history && e.seqNo == f.seqNo ==> e == f
  }

  /** The promise leaves no choice. */
  lemma NewestIsUnique(history: set<Entry>, user: Key, version: nat, a: Option<Entry>, b: Option<Entry>)
    requires UniqueNumbers(history) && IsNewest(history, user, version, a) && IsNewest(history, user, version, b)
    ensures a == b
  {
    if a.Some? && b.Some? {
      assert a.value.seqNo == b.value.seqNo;
    }
  }

  lemma OneMore(history: set<Entry>, entry: Entry)
    requires UniqueNumbers(history) && forall e :: e in history ==> e.seqNo != entry.seqNo
    ensures UniqueNumbers(history + {entry}) && |history + {entry}| == |history| + 1
  {
  }

  /** The key both tables seek. */
  function SeekKey(user: Key, version: nat): Entry {
    Entry(user, version, IsValue, "")
  }

  /** A sorted sequence with all entries of a user key has the promised one where its seek lands. */
  lemma FirstIsNewest(s: seq<Entry>, history: set<Entry>, user: Key, version: nat)
    requires InOrder(s) && forall e: Entry :: e.user == user ==> (e in history <==> e in s)
    ensures var r := FirstNotBefore(s, SeekKey(user, version));
      IsNewest(history, user, version, if r < |s| && s[r].user == user then Some(s[r]) else None)
  {
    var key := SeekKey(user, version);
    var r := FirstNotBefore(s, key);
    forall e | e in history && e.user == user && e.seqNo <= version
      ensures r < |s| && s[r].user == user && e.seqNo <= s[r].seqNo
    {
      var i :| 0 <= i < |s| && s[i] == e;
      assert r <= i;
      assert r == i || Before(s[r], s[i]);
    }
  }

  /** Inserting an entry at its place keeps the order. */
  lemma InsertKeepsOrder(s: seq<Entry>, entry: Entry)
    requires InOrder(s) && forall e :: e in s ==> e.user != entry.user || e.seqNo != entry.seqNo
    ensures var at := FirstNotBefore(s, entry);
      InOrder(s[..at] + [entry] + s[at..])
  {
    var at := FirstNotBefore(s, entry);
    var t := s[..at] + [entry] + s[at..];
    if at < |s| {
      assert s[at] in s;
    }
    forall i, j | 0 <= i < j < |t|
      ensures Before(t[i], t[j])
    {
      assert i < at ==> t[i] == s[i];
      assert j > at ==> t[j] == s[j - 1];
      if i < at && j == at {
      } else if i == at {
        assert j - 1 == at || Before(s[at], s[j - 1]);
      } else {
        var k, m := if i < at then i else i - 1, if j < at then j else j - 1;
        assert t[i] == s[k] && t[j] == s[m] && Before(s[k], s[m]);
      }
    }
  }

  lemma InsertMembers(s: seq<Entry>, at: nat, entry: Entry, e: Entry)
    requires at <= |s|
    ensures e in s[..at] + [entry] + s[at..] <==> e == entry || e in s
  {
    assert s == s[..at] + s[at..];
  }

  lemma InsertedMembers(s: seq<Entry>, at: nat, entry: Entry)
    requires at <= |s|
    ensures forall e :: e in s[..at] + [entry] + s[at..] <==> e == entry || e in s
  {
    forall e
      ensures e in s[..at] + [entry] + s[at..] <==> e == entry || e in s
    {
      InsertMembers(s, at, entry, e);
    }
  }

  /** What the insertion means for the entries that a sequence has. */
  lemma GainsOne(history: set<Entry>, before: seq<Entry>, at: nat, entry: Entry)
    requires at <= |before| && forall e: Entry :: e in history <==> e in before
    ensures forall e: Entry :: e in history + {entry} <==> e in before[..at] + [entry] + before[at..]
  {
    InsertedMembers(before, at, entry);
  }

  // ----- the hash-chained table

  class HashMap {
    const slots: nat
    const hash: Key -> nat
    /** The chains, without their head nodes. */
    var buckets: seq<seq<Entry>>
    var nEntries: nat

    function Slot(user: Key): (i: nat)
      requires slots > 0
      ensures i < slots
    {
      hash(user) % slots
    }

    ghost predicate Valid()
      reads this
    {
      && slots > 0 && |buckets| == slots
      && (forall i :: 0 <= i < slots ==> InOrder(buckets[i]))
      && forall i, e :: 0 <= i < slots && e in buckets[i] ==> Slot(e.user) == i
    }

    constructor (slots: nat, hash: Key -> nat)
      requires slots > 0
      ensures Valid() && this.slots == slots && this.hash == hash && nEntries == 0
      ensures buckets == seq(slots, _ => [])
    {
      this.slots, this.hash, nEntries := slots, hash, 0;
      buckets := seq(slots, _ => []);
    }

    /** The loop over a chain that insertion and search share. */
    method Walk(slot: nat, key: Entry) returns (i: nat)
      requires Valid() && slot < slots
      ensures i == FirstNotBefore(buckets[slot], key)
    {
      var chain := buckets[slot];
      i := 0;
      while i < |chain| && Before(chain[i], key)
        invariant i <= |chain| && forall j :: 0 <= j < i ==> Before(chain[j], key)
      {
        i := i + 1;
      }
    }

    method Put(entry: Entry)
      requires Valid()
      requires forall e :: e in buckets[Slot(entry.user)] ==> e.user != entry.user || e.seqNo != entry.seqNo
      modifies this
      ensures Valid() && nEntries == old(nEntries) + 1
      ensures var slot := Slot(entry.user);
        var chain, at := old(buckets)[slot], FirstNotBefore(old(buckets)[slot], entry);
        buckets == old(buckets)[slot := chain[..at] + [entry] + chain[at..]]
    {
      var slot := Slot(entry.user);
      var chain := buckets[slot];
      var at := Walk(slot, entry);
      InsertKeepsOrder(chain, entry);
      InsertedMembers(chain, at, entry);
      buckets := buckets[slot := chain[..at] + [entry] + chain[at..]];
      nEntries := nEntries + 1;
    }

    lemma HasSlots()
      requires Valid()
      ensures slots > 0 && |buckets| == slots
    {
    }

    /** What the insertion means for the entries that the chains have. */
    lemma ChainsGainOne(was: seq<seq<Entry>>, now: seq<seq<Entry>>, history: set<Entry>, at: nat, entry: Entry)
      requires slots > 0 && |was| == slots && at <= |was[Slot(entry.user)]|
      requires forall e: Entry :: e in history <==> e in was[Slot(e.user)]
      requires var chain := was[Slot(entry.user)];
        now == was[Slot(entry.user) := chain[..at] + [entry] + chain[at..]]
      ensures forall e: Entry :: e in history + {entry} <==> e in now[Slot(e.user)]
    {
      hide Slot;
      var chain := was[Slot(entry.user)];
      forall e: Entry
        ensures e in history + {entry} <==> e in now[Slot(e.user)]
      {
        InsertMembers(chain, at, entry, e);
      }
    }

    /** The first entry of the key's chain that is not before the key, if any. */
    method FindGreaterOrEqual(key: Entry) returns (found: Option<Entry>)
      requires Valid()
      ensures var chain, at := buckets[Slot(key.user)], FirstNotBefore(buckets[Slot(key.user)], key);
        found == if at < |chain| then Some(chain[at]) else None
    {
      var slot := Slot(key.user);
      var i := Walk(slot, key);
      found := if i < |buckets[slot]| then Some(buckets[slot][i]) else None;
    }
  }

  class UnorderedMemoryTable {
    const table: HashMap
    ghost var history: set<Entry>

    ghost predicate Valid()
      reads this, table
    {
      && table.Valid() && UniqueNumbers(history) && table.nEntries == |history|
      && forall e: Entry :: e in history <==> e in table.buckets[table.Slot(e.user)]
    }

    constructor (slots: nat, hash: Key -> nat)
      requires slots > 0
      ensures Valid() && fresh(table) && history == {}
    {
      table := new HashMap(slots, hash);
      history := {};
    }

    method Put(user: Key, value: Value, version: nat, flag: Flag)
      requires Valid() && forall e :: e in history ==> e.seqNo != version
      modifies this, table
      ensures Valid() && history == old(history) + {Entry(user, version, flag, value)}
    {
      hide UniqueNumbers, HashMap.Slot, HashMap.Valid, Before;
      var entry := Entry(user, version, flag, value);
      table.HasSlots();
      ghost var was := table.buckets;
      table.Put(entry);
      table.HasSlots();
      table.ChainsGainOne(was, table.buckets, history, FirstNotBefore(was[table.Slot(user)], entry), entry);
      OneMore(history, entry);
      history := history + {entry};
    }

    method Get(user: Key, version: nat) returns (r: Option<Entry>)
      requires Valid()
      ensures IsNewest(history, user, version, r)
    {
      r := table.FindGreaterOrEqual(SeekKey(user, version));
      FirstIsNewest(table.buckets[table.Slot(user)], history, user, version);
      if r.Some? && r.value.user != user {
        r := None;
      }
    }
  }

  // ----- the skip-list table

  class OrderedMemoryTable {
    const table: SkipList
    var nEntries: nat
    ghost var history: set<Entry>

    ghost predicate Valid()
      reads this, table
    {
      && table.Valid() && UniqueNumbers(history) && nEntries == |history|
      && forall e: Entry :: e in history <==> e in table.Contents()
    }

    constructor (any: Entry)
      ensures Valid() && fresh(table) && history == {}
    {
      table := new SkipList(any);
      nEntries, history := 0, {};
    }

    method Insert(entry: Entry, height: nat)
      requires table.Valid() && 1 <= height <= MAX_HEIGHT
      requires forall e :: e in table.Contents() ==> e.seqNo != entry.seqNo
      modifies table
      ensures table.Valid()
      ensures var before, at := old(table.Contents()), FirstNotBefore(old(table.Contents()), entry);
        table.Contents() == before[..at] + [entry] + before[at..]
    {
      hide Inv, IsTrace, Inserted, Place, IsNewAt, InArena, Before;
      NewToList(table, entry);
      ghost var trace := table.Put(entry, height);
    }

    method Put(user: Key, value: Value, version: nat, flag: Flag, height: nat)
      requires Valid() && 1 <= height <= MAX_HEIGHT
      requires forall e :: e in history ==> e.seqNo != version
      modifies this, table
      ensures Valid() && history == old(history) + {Entry(user, version, flag, value)}
    {
      hide SkipList.Contents, SkipList.Valid, Before, UniqueNumbers;
      var entry := Entry(user, version, flag, value);
      ghost var before := table.Contents();
      Insert(entry, height);
      GainsOne(history, before, FirstNotBefore(before, entry), entry);
      OneMore(history, entry);
      nEntries := nEntries + 1;
      history := history + {entry};
    }

    method Get(user: Key, version: nat) returns (r: Option<Entry>)
      requires Valid()
      ensures IsNewest(history, user, version, r)
    {
      hide Inv;
      var iter := new Iterator(table);
      iter.Seek(SeekKey(user, version));
      FirstIsNewest(table.Contents(), history, user, version);
      var valid := iter.AtEntry();
      if !valid {
        return None;
      }
      var found := iter.Key();
      r := if found.user != user then None else Some(found);
    }
  }

  lemma NewToList(table: SkipList, entry: Entry)
    requires table.Valid() && forall e :: e in table.Contents() ==> e.seqNo != entry.seqNo
    ensures IsNewAt(table.Now(), entry, 0)
  {
    assert IsLevel(table.Now().s, 0, table.levels[0]);
    var e := table.Contents();
    forall i | 0 <= i < |table.levels[0]|
      ensures table.keys[table.levels[0][i]].seqNo != entry.seqNo
    {
      assert e[i] in e;
    }
  }

  /** Whatever was put into both tables, they answer alike. */
  method AnswerAlike(unordered: UnorderedMemoryTable, ordered: OrderedMemoryTable, user: Key, version: nat)
    returns (a: Option<Entry>, b: Option<Entry>)
    requires unordered.Valid() && ordered.Valid() && unordered.history == ordered.history
    ensures a == b && IsNewest(ordered.history, user, version, a)
  {
    a := unordered.Get(user, version);
    b := ordered.Get(user, version);
    NewestIsUnique(ordered.history, user, version, a, b);
  }
}
