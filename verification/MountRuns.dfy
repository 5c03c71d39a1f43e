/** Mounts filled through the mount alone, and what queries on them give (datastore/mount/mount.go). */
module MountRuns {
  import opened Keys
  import opened Queries
  import opened Mounts
  import opened MountStore
  import opened FlatQuery

  datatype Change = Write(key: Str, value: Str) | Remove(key: Str)

  /** Some mount is a strict ancestor of the key. */
  predicate Covered(given: seq<Mount>, key: Str) {
    exists i :: 0 <= i < |given| && IsAncestorOf(given[i].prefix, key)
  }

  /** What a plain map holds after the changes, writes outside all mounts left out. */
  function Replayed(given: seq<Mount>, changes: seq<Change>): map<Str, Str> {
    if changes == [] then map[]
    else
      var m := Replayed(given, changes[..|changes| - 1]);
      match changes[|changes| - 1]
      case Write(key, value) => if Covered(given, key) then m[key := value] else m
      case Remove(key) => m - {key}
  }

  lemma {:induction false} RoutedIfCovered(given: seq<Mount>, ms: seq<Mount>, key: Str)
    requires DistinctPrefixes(given) && PrefixesOf(ms, SortMounts(given))
    ensures Lookup(ms, key).Some? <==> Covered(given, key)
  {
    NewDescends(given);
    var sorted := SortMounts(given);
    LookupFirst(ms, key, 0);
    if Lookup(ms, key).Some? {
      var n := Lookup(ms, key).value;
      assert sorted[n] in multiset(given);
      var i :| 0 <= i < |given| && given[i] == sorted[n];
    }
    if i :| 0 <= i < |given| && IsAncestorOf(given[i].prefix, key) {
      assert given[i] in multiset(sorted);
      var n :| 0 <= n < |sorted| && sorted[n] == given[i];
      assert ms[n].prefix == given[i].prefix;
    }
  }

  /** Stores that start empty, any changes through the mount, and then a query; list enumerates a store. */
  method QueryAfter(given: seq<Mount>, changes: seq<Change>, q: Query, list: (map<Str, Str>, bool) -> seq<Entry>)
    returns (out: seq<Entry>)
    requires DistinctPrefixes(given) && Keyed(given) && forall m <- given :: m.store == map[]
    requires forall c <- changes :: IsKey(c.key)
    requires forall m, keysOnly :: Enumerates(list(m, keysOnly), m, keysOnly)
    ensures PlainOrders(q.orders) && q.orders != [] ==>
              forall flat :: Enumerates(flat, Replayed(given, changes), q.keysOnly) ==> out == NaiveQueryApply(q, flat)
    ensures exists flat :: Enumerates(flat, Replayed(given, changes), q.keysOnly) && out == NaiveQueryApply(q.(orders := []), flat)
  {
    hide AllHomed, Keyed, Flat, Enumerates, PrefixesOf;
    var d := new MountedDatastore(given);
    assert PrefixesOf(d.mounts, SortMounts(given)) by { SamePrefixes(d.mounts); }
    for i := 0 to |changes|
      invariant fresh(d) && d.Valid() && AllHomed(d.mounts) && PrefixesOf(d.mounts, SortMounts(given))
      invariant d.Contents() == Replayed(given, changes[..i])
    {
      var c := changes[i];
      assert c in changes && changes[..i + 1][..i] == changes[..i];
      ghost var before := d.mounts;
      RoutedIfCovered(given, before, c.key);
      match c {
        case Write(key, value) => var err := d.Put(key, value);
        case Remove(key) => d.Delete(key);
      }
      PrefixesTrans(d.mounts, before, SortMounts(given));
    }
    assert changes[..|changes|] == changes;
    var enums := seq(|d.mounts|, i requires 0 <= i < |d.mounts| reads d => list(d.mounts[i].store, q.keysOnly));
    HomedUnmasked(d.mounts, HitsOf(d, q));
    out := RunQuery(d, q, enums);
  }

  lemma SamePrefixes(ms: seq<Mount>)
    ensures PrefixesOf(ms, ms)
  {
  }

  lemma PrefixesTrans(a: seq<Mount>, b: seq<Mount>, c: seq<Mount>)
    requires PrefixesOf(a, b) && PrefixesOf(b, c)
    ensures PrefixesOf(a, c)
  {
  }
}
