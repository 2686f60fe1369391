/**
  The in-memory journal (pkg/journal/entry.go, pkg/journal/journal.go): entry
  construction and a collection of entries keyed by their id.

  The id generator and the clock are not modelled: `NewEntry` and
  `CreateEntry` receive the generated id and the two clock readings as
  arguments.
 */
module Journal {
  import opened Models

  /**
    A new entry with id `id`, the given title and content verbatim, `Created`
    the first clock reading and `Updated` the second.
   */
  function NewEntry(id: string, title: string, content: string, created: Time, updated: Time): (e: Entry)
    ensures e.ID == id && e.Title == title && e.Content == content
    ensures e.Created == created && e.Updated == updated
    ensures created <= updated ==> WellTimed(e)
  {
    Entry(id, title, content, created, updated)
  }

  /** An update merged into a freshly built entry keeps it well timed under a non-decreasing clock. */
  lemma NewEntryThenMergeWellTimed(id: string, title: string, content: string,
                                   created: Time, updated: Time, t: string, c: string, now: Time)
    requires created <= updated <= now
    ensures WellTimed(Merge(NewEntry(id, title, content, created, updated), t, c, now))
  {
    MergeKeepsWellTimed(NewEntry(id, title, content, created, updated), t, c, now);
  }

  /** Some key of a non-empty map. */
  ghost function AnyKey(m: map<string, Entry>): (k: string)
    requires m != map[]
    ensures k in m
  {
    var k :| k in m; k
  }

  /** The stored entries, as a multiset: each key contributes its value once. */
  ghost function Bag(m: map<string, Entry>): multiset<Entry>
    decreases |m|
  {
    if m == map[] then multiset{}
    else
      var k := AnyKey(m);
      Bag(m - {k}) + multiset{m[k]}
  }

  /** Taking any key out of the map takes exactly its value out of the bag. */
  lemma {:induction false} BagRemove(m: map<string, Entry>, k: string)
    requires k in m
    ensures Bag(m) == Bag(m - {k}) + multiset{m[k]}
    decreases |m|
  {
    var j := AnyKey(m);
    if j != k {
      var mj, mk := m - {j}, m - {k};
      assert k in mj && j in mk;
      assert mj - {k} == mk - {j};
      calc {
        Bag(m);
        Bag(mj) + multiset{m[j]};
        { BagRemove(mj, k); }
        Bag(mj - {k}) + multiset{m[k]} + multiset{m[j]};
        { BagRemove(mk, j); }
        Bag(mk) + multiset{m[k]};
      }
    }
  }

  /** The bag holds one value per key. */
  lemma {:induction false} BagSize(m: map<string, Entry>)
    ensures |Bag(m)| == |m|
    decreases |m|
  {
    if m != map[] {
      var k :| k in m;
      BagRemove(m, k);
      BagSize(m - {k});
    }
  }

  /** An entry is in the bag exactly when some key maps to it. */
  lemma {:induction false} BagHasValues(m: map<string, Entry>, e: Entry)
    ensures e in Bag(m) <==> e in m.Values
    decreases |m|
  {
    if m != map[] {
      var k :| k in m;
      BagRemove(m, k);
      BagHasValues(m - {k}, e);
      if e in m.Values && e != m[k] {
        var j :| j in m && m[j] == e;
        assert j in m - {k};
      }
    }
  }

  /** Storing `v` under `k` puts `v` in the bag, in place of the value `k` held before, if any. */
  lemma {:induction false} BagStore(m: map<string, Entry>, k: string, v: Entry)
    ensures k !in m ==> Bag(m[k := v]) == Bag(m) + multiset{v}
    ensures k in m ==> Bag(m[k := v]) == Bag(m) - multiset{m[k]} + multiset{v}
  {
    var m' := m[k := v];
    assert m' - {k} == m - {k};
    BagRemove(m', k);
    if k in m {
      BagRemove(m, k);
    } else {
      assert m - {k} == m;
    }
  }

  /** The map restricted to the keys in `keys`. */
  ghost function Restrict(m: map<string, Entry>, keys: set<string>): map<string, Entry>
  {
    map k | k in keys && k in m :: m[k]
  }

  /** A collection of entries, each stored under its own id. */
  class Journal {
    var entries: map<string, Entry>

    /** Every entry sits under the key equal to its id. */
    ghost predicate Valid()
      reads this
    {
      forall k :: k in entries ==> entries[k].ID == k
    }

    /** NewJournal: an empty journal. */
    constructor ()
      ensures Valid()
      ensures entries == map[]
      ensures Bag(entries) == multiset{}
    {
      entries := map[];
    }

    /**
      Builds an entry from `title` and `content` with the generated `id` and
      the clock readings `created` and `updated`, stores it under its id,
      overwriting any entry already there, and returns it.
     */
    method CreateEntry(title: string, content: string, id: string, created: Time, updated: Time)
      returns (entry: Entry)
      requires Valid()
      modifies this
      ensures Valid()
      ensures entry == NewEntry(id, title, content, created, updated)
      ensures entry.Title == title && entry.Content == content && entry.ID == id
      ensures entries == old(entries)[entry.ID := entry]
      ensures entry.ID in entries && entries[entry.ID] == entry
      ensures forall k :: k in old(entries) && k != entry.ID ==> k in entries && entries[k] == old(entries)[k]
      ensures forall k :: k in entries && k != entry.ID ==> k in old(entries)
      ensures entry.ID !in old(entries) ==> |entries| == |old(entries)| + 1
      ensures entry.ID in old(entries) ==> |entries| == |old(entries)|
      ensures entry.ID !in old(entries) ==> Bag(entries) == Bag(old(entries)) + multiset{entry}
      ensures entry.ID in old(entries) ==>
                Bag(entries) == Bag(old(entries)) - multiset{old(entries)[entry.ID]} + multiset{entry}
    {
      entry := NewEntry(id, title, content, created, updated);
      BagStore(entries, entry.ID, entry);
      entries := entries[entry.ID := entry];
    }

    /**
      Every stored entry, in no particular order: the loop visits the keys in
      an order it does not control, as ranging over a Go map does.
     */
    method ListEntries() returns (list: seq<Entry>)
      ensures multiset(list) == Bag(entries)
      ensures |list| == |entries|
      ensures forall e :: e in list <==> e in entries.Values
      ensures Valid() ==> forall i :: 0 <= i < |list| ==> list[i].ID in entries && entries[list[i].ID] == list[i]
    {
      list := [];
      var rest := entries.Keys;
      assert Restrict(entries, rest) == entries;
      while rest != {}
        invariant rest <= entries.Keys
        invariant multiset(list) + Bag(Restrict(entries, rest)) == Bag(entries)
        decreases |rest|
      {
        var k :| k in rest;
        ghost var before, after := Restrict(entries, rest), Restrict(entries, rest - {k});
        assert before - {k} == after;
        BagRemove(before, k);
        list := list + [entries[k]];
        rest := rest - {k};
      }
      assert Restrict(entries, rest) == map[];
      ListingOfBag(entries, list);
    }
  }

  /** A sequence holding the bag of a map lists each stored value once. */
  lemma ListingOfBag(m: map<string, Entry>, list: seq<Entry>)
    requires multiset(list) == Bag(m)
    ensures |list| == |m|
    ensures forall e :: e in list <==> e in m.Values
    ensures (forall k :: k in m ==> m[k].ID == k) ==>
              forall i :: 0 <= i < |list| ==> list[i].ID in m && m[list[i].ID] == list[i]
  {
    BagSize(m);
    assert |list| == |multiset(list)|;
    forall e
      ensures e in list <==> e in m.Values
    {
      assert e in list <==> e in multiset(list);
      BagHasValues(m, e);
    }
    forall i | 0 <= i < |list| && (forall k :: k in m ==> m[k].ID == k)
      ensures list[i].ID in m && m[list[i].ID] == list[i]
    {
      assert list[i] in m.Values;
      var k :| k in m && m[k] == list[i];
    }
  }
}
