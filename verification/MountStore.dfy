/** The mount datastore as one flat map (datastore/mount/mount.go). */
module MountStore {
  import opened Words
  import opened Keys
  import opened Mounts

  predicate PrefixesOf(ms: seq<Mount>, ns: seq<Mount>) {
    |ms| == |ns| && forall i :: 0 <= i < |ms| ==> ms[i].prefix == ns[i].prefix
  }

  lemma {:induction false} LookupByPrefixes(ms: seq<Mount>, ns: seq<Mount>, key: Str, i: nat)
    requires PrefixesOf(ms, ns) && i <= |ms|
    ensures LookupFrom(ms, key, i) == LookupFrom(ns, key, i)
    decreases |ms| - i
  {
    if i < |ms| { LookupByPrefixes(ms, ns, key, i + 1); }
  }

  /** Prefixes and stored keys are clean. */
  ghost predicate Keyed(ms: seq<Mount>) {
    forall m <- ms :: IsKey(m.prefix) && forall k <- m.store :: IsKey(k)
  }

  /** lookup sends the full key of k to this very store; otherwise a more specific mount masks it. */
  predicate Homed(ms: seq<Mount>, i: nat, k: Str)
    requires i < |ms|
  {
    Lookup(ms, Child(ms[i].prefix, k)) == Some(i)
  }

  /** No store holds a masked key. */
  ghost predicate AllHomed(ms: seq<Mount>) {
    forall i, k :: 0 <= i < |ms| && k in ms[i].store ==> Homed(ms, i, k)
  }

  /** The value that the mount shows for a key. */
  function Find(ms: seq<Mount>, key: Str): Option<Str> {
    LookupFirst(ms, key, 0);
    match Lookup(ms, key)
    case None => None
    case Some(i) =>
      var k := Rest(ms[i].prefix, key);
      if k in ms[i].store then Some(ms[i].store[k]) else None
  }

  function FlatKeys(ms: seq<Mount>): set<Str> {
    set i, k | 0 <= i < |ms| && k in ms[i].store :: Child(ms[i].prefix, k)
  }

  /** The mounted stores under their full keys, as far as they are not masked. */
  ghost function Flat(ms: seq<Mount>): map<Str, Str> {
    map key | key in FlatKeys(ms) && Find(ms, key).Some? :: Find(ms, key).value
  }

  lemma {:induction false} FindHomed(ms: seq<Mount>, i: nat, k: Str)
    requires Keyed(ms) && i < |ms| && k in ms[i].store && Homed(ms, i, k)
    ensures IsKey(k) && k != ROOT && IsKey(Child(ms[i].prefix, k))
    ensures Rest(ms[i].prefix, Child(ms[i].prefix, k)) == k
    ensures Find(ms, Child(ms[i].prefix, k)) == Some(ms[i].store[k])
    ensures Child(ms[i].prefix, k) in Flat(ms) && Flat(ms)[Child(ms[i].prefix, k)] == ms[i].store[k]
  {
    assert ms[i] in ms;
    LookupFirst(ms, Child(ms[i].prefix, k), 0);
    ChildIsBelow(ms[i].prefix, k);
    ChildIsKey(ms[i].prefix, k);
  }

  /** The flat map holds exactly what lookups find. */
  lemma {:induction false} FlatIsFind(ms: seq<Mount>, key: Str)
    requires Keyed(ms) && IsKey(key)
    ensures key in Flat(ms) <==> Find(ms, key).Some?
    ensures key in Flat(ms) ==> Flat(ms)[key] == Find(ms, key).value
  {
    if Find(ms, key).Some? {
      LookupFirst(ms, key, 0);
      var i := Lookup(ms, key).value;
      assert ms[i] in ms;
      RestPutsBack(ms[i].prefix, key);
      assert key == Child(ms[i].prefix, Rest(ms[i].prefix, key));
      assert key in FlatKeys(ms);
    }
  }

  lemma {:induction false} FlatKeysAreKeys(ms: seq<Mount>)
    requires Keyed(ms)
    ensures forall key <- Flat(ms) :: IsKey(key) && key != ROOT
  {
    forall key <- Flat(ms) ensures IsKey(key) && key != ROOT {
      var i, k :| 0 <= i < |ms| && k in ms[i].store && key == Child(ms[i].prefix, k);
      assert ms[i] in ms;
      ChildIsKey(ms[i].prefix, k);
      LookupFirst(ms, key, 0);
      var n := Lookup(ms, key).value;
      assert ms[n] in ms;
      KeyShape(ms[n].prefix);
    }
  }

  lemma {:induction false} Restore(ms: seq<Mount>, i: nat, store: map<Str, Str>)
    requires Keyed(ms) && i < |ms| && forall k <- store :: IsKey(k)
    ensures Keyed(ms[i := ms[i].(store := store)])
    ensures forall key :: Lookup(ms[i := ms[i].(store := store)], key) == Lookup(ms, key)
  {
    var ns := ms[i := ms[i].(store := store)];
    forall key ensures Lookup(ns, key) == Lookup(ms, key) { LookupByPrefixes(ns, ms, key, 0); }
    forall m <- ns ensures IsKey(m.prefix) && forall k <- m.store :: IsKey(k) {
      var j :| 0 <= j < |ns| && ns[j] == m;
      assert ms[j] in ms;
    }
  }

  /** How Find changes when one store changes at one key. */
  lemma {:induction false} FindAfter(ms: seq<Mount>, i: nat, store: map<Str, Str>, key: Str, x: Str)
    requires Keyed(ms) && IsKey(key) && IsKey(x) && Lookup(ms, key) == Some(i) && i < |ms|
    requires forall k <- store :: IsKey(k)
    requires forall k :: k != Rest(ms[i].prefix, key) ==>
               (k in store <==> k in ms[i].store) && (k in store ==> store[k] == ms[i].store[k])
    ensures var ns := ms[i := ms[i].(store := store)];
            var k := Rest(ms[i].prefix, key);
            Find(ns, x) == if x != key then Find(ms, x) else if k in store then Some(store[k]) else None
  {
    Restore(ms, i, store);
    var ns := ms[i := ms[i].(store := store)];
    LookupFirst(ms, x, 0);
    LookupFirst(ms, key, 0);
    if x != key && Lookup(ms, x) == Some(i) {
      assert ms[i] in ms;
      RestPutsBack(ms[i].prefix, x);
      RestPutsBack(ms[i].prefix, key);
    }
  }

  lemma {:induction false} FlatAfterPut(ms: seq<Mount>, i: nat, key: Str, v: Str)
    requires Keyed(ms) && IsKey(key) && Lookup(ms, key) == Some(i) && i < |ms|
    ensures var ns := ms[i := ms[i].(store := ms[i].store[Rest(ms[i].prefix, key) := v])];
            Keyed(ns) && Flat(ns) == Flat(ms)[key := v]
  {
    var k := Rest(ms[i].prefix, key);
    var store := ms[i].store[k := v];
    LookupFirst(ms, key, 0);
    assert ms[i] in ms;
    RestPutsBack(ms[i].prefix, key);
    Restore(ms, i, store);
    SameFlat(ms[i := ms[i].(store := store)], Flat(ms)[key := v]) by {
      forall x | IsKey(x)
        ensures var f := Find(ms[i := ms[i].(store := store)], x);
                (x in Flat(ms)[key := v] <==> f.Some?) && (f.Some? ==> Flat(ms)[key := v][x] == f.value)
      {
        FindAfter(ms, i, store, key, x);
        FlatIsFind(ms, x);
      }
      FlatKeysAreKeys(ms);
    }
  }

  lemma {:induction false} FlatAfterDelete(ms: seq<Mount>, i: nat, key: Str)
    requires Keyed(ms) && IsKey(key) && Lookup(ms, key) == Some(i) && i < |ms|
    ensures var ns := ms[i := ms[i].(store := ms[i].store - {Rest(ms[i].prefix, key)})];
            Keyed(ns) && Flat(ns) == Flat(ms) - {key}
  {
    var store := ms[i].store - {Rest(ms[i].prefix, key)};
    assert ms[i] in ms;
    Restore(ms, i, store);
    SameFlat(ms[i := ms[i].(store := store)], Flat(ms) - {key}) by {
      forall x | IsKey(x)
        ensures var f := Find(ms[i := ms[i].(store := store)], x);
                (x in Flat(ms) - {key} <==> f.Some?) && (f.Some? ==> (Flat(ms) - {key})[x] == f.value)
      {
        FindAfter(ms, i, store, key, x);
        FlatIsFind(ms, x);
      }
      FlatKeysAreKeys(ms);
    }
  }

  /** A map of keys that agrees with Find everywhere is the flat map. */
  lemma {:induction false} SameFlat(ns: seq<Mount>, m: map<Str, Str>)
    requires Keyed(ns) && (forall x <- m :: IsKey(x))
    requires forall x | IsKey(x) :: (x in m <==> Find(ns, x).Some?) && (Find(ns, x).Some? ==> m[x] == Find(ns, x).value)
    ensures Flat(ns) == m
  {
    hide Flat, Find, Keyed, IsKey;
    FlatKeysAreKeys(ns);
    forall x | IsKey(x) ensures x in Flat(ns) <==> x in m { FlatIsFind(ns, x); }
    forall x | x in m ensures Flat(ns)[x] == m[x] { FlatIsFind(ns, x); }
    assert forall x :: x in Flat(ns) <==> x in m;
  }

  lemma {:induction false} MountedKeyed(given: seq<Mount>)
    requires DistinctPrefixes(given) && Keyed(given)
    ensures Keyed(SortMounts(given))
    ensures (forall m <- given :: m.store == map[]) ==> Flat(SortMounts(given)) == map[]
  {
    NewDescends(given);
    var ms := SortMounts(given);
    forall m <- ms ensures m in given {
      assert m in multiset(ms);
    }
    if forall m <- given :: m.store == map[] {
      assert FlatKeys(ms) == {};
    }
  }

  /** What changes a store through the mount masks nothing: the changed key is the one that was looked up. */
  lemma {:induction false} HomedAfter(ms: seq<Mount>, i: nat, store: map<Str, Str>, key: Str)
    requires Keyed(ms) && AllHomed(ms) && IsKey(key) && Lookup(ms, key) == Some(i) && i < |ms|
    requires forall k <- store :: k in ms[i].store || k == Rest(ms[i].prefix, key)
    ensures AllHomed(ms[i := ms[i].(store := store)])
    ensures PrefixesOf(ms[i := ms[i].(store := store)], ms)
  {
    var ns := ms[i := ms[i].(store := store)];
    LookupFirst(ms, key, 0);
    assert ms[i] in ms;
    RestPutsBack(ms[i].prefix, key);
    forall j, k | 0 <= j < |ns| && k in ns[j].store ensures Homed(ns, j, k) {
      LookupByPrefixes(ns, ms, Child(ns[j].prefix, k), 0);
      if j != i || k in ms[i].store { assert Homed(ms, j, k); }
    }
  }

  lemma {:induction false} EmptyHomed(given: seq<Mount>)
    requires DistinctPrefixes(given) && forall m <- given :: m.store == map[]
    ensures AllHomed(SortMounts(given))
  {
    NewDescends(given);
    var ms := SortMounts(given);
    forall i | 0 <= i < |ms| ensures ms[i].store == map[] {
      assert ms[i] in multiset(ms);
    }
  }

  datatype Error = NoError | ErrNoMount | ErrNotFound

  class MountedDatastore {
    var mounts: seq<Mount>

    ghost predicate Valid()
      reads this
    {
      Descending(mounts) && Keyed(mounts)
    }

    ghost function Contents(): map<Str, Str>
      reads this
    {
      Flat(mounts)
    }

    /** Any stores at distinct prefixes, in any order. */
    constructor (given: seq<Mount>)
      requires DistinctPrefixes(given) && Keyed(given)
      ensures Valid() && mounts == SortMounts(given) && multiset(mounts) == multiset(given)
      ensures (forall m <- given :: m.store == map[]) ==> Contents() == map[] && AllHomed(mounts)
    {
      mounts := SortMounts(given);
      NewDescends(given);
      MountedKeyed(given);
      if forall m <- given :: m.store == map[] { EmptyHomed(given); }
    }

    /** The loop of lookup. */
    method Route(key: Str) returns (found: Option<nat>, rest: Str)
      ensures found == Lookup(mounts, key)
      ensures found.Some? ==> found.value < |mounts| && rest == Rest(mounts[found.value].prefix, key)
    {
      var i := 0;
      while i < |mounts|
        invariant i <= |mounts| && LookupFrom(mounts, key, i) == Lookup(mounts, key)
      {
        if IsAncestorOf(mounts[i].prefix, key) {
          return Some(i), NewKey(TrimPrefix(key, mounts[i].prefix));
        }
        i := i + 1;
      }
      return None, key;
    }

    method Put(key: Str, value: Str) returns (err: Error)
      requires Valid() && IsKey(key)
      modifies this
      ensures Valid()
      ensures err == if Lookup(old(mounts), key).Some? then NoError else ErrNoMount
      ensures Contents() == if err.NoError? then old(Contents())[key := value] else old(Contents())
      ensures PrefixesOf(mounts, old(mounts)) && (old(AllHomed(mounts)) ==> AllHomed(mounts))
    {
      hide Flat, Keyed, AllHomed;
      var found, rest := Route(key);
      if found.None? { return ErrNoMount; }
      var i := found.value;
      FlatAfterPut(mounts, i, key, value);
      if AllHomed(mounts) { HomedAfter(mounts, i, mounts[i].store[rest := value], key); }
      mounts := mounts[i := mounts[i].(store := mounts[i].store[rest := value])];
      err := NoError;
    }

    method Get(key: Str) returns (value: Str, err: Error)
      requires Valid() && IsKey(key)
      ensures err == if key in Contents() then NoError else ErrNotFound
      ensures err.NoError? ==> value == Contents()[key]
    {
      FlatIsFind(mounts, key);
      var found, rest := Route(key);
      if found.None? || rest !in mounts[found.value].store { return [], ErrNotFound; }
      return mounts[found.value].store[rest], NoError;
    }

    method Has(key: Str) returns (exists': bool)
      requires Valid() && IsKey(key)
      ensures exists' <==> key in Contents()
    {
      FlatIsFind(mounts, key);
      var found, rest := Route(key);
      exists' := found.Some? && rest in mounts[found.value].store;
    }

    method Delete(key: Str)
      requires Valid() && IsKey(key)
      modifies this
      ensures Valid() && Contents() == old(Contents()) - {key}
      ensures PrefixesOf(mounts, old(mounts)) && (old(AllHomed(mounts)) ==> AllHomed(mounts))
    {
      hide Flat, Keyed, AllHomed;
      FlatIsFind(mounts, key);
      var found, rest := Route(key);
      if found.None? {
        assert Contents() - {key} == Contents();
        return;
      }
      var i := found.value;
      FlatAfterDelete(mounts, i, key);
      if AllHomed(mounts) { HomedAfter(mounts, i, mounts[i].store - {rest}, key); }
      mounts := mounts[i := mounts[i].(store := mounts[i].store - {rest})];
    }
  }
}
