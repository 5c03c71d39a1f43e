/** Batches over mounted datastores (datastore/mount/mount.go). */
module MountBatches {
  import opened Words
  import opened Keys
  import opened Queries
  import opened Mounts
  import opened MountStore
  import Autobatch

  type Log = seq<Autobatch.Logged>

  /** The operations held for each mount, under keys inside it. */
  type Batches = map<Str, map<Str, Autobatch.Op>>

  function Held(bs: Batches, prefix: Str, k: Str): Option<Autobatch.Op> {
    if prefix in bs && k in bs[prefix] then Some(bs[prefix][k]) else None
  }

  function With(bs: Batches, prefix: Str, k: Str, op: Autobatch.Op): Batches {
    bs[prefix := (if prefix in bs then bs[prefix] else map[])[k := op]]
  }

  /** The operation held for a full key. */
  function HeldFor(ms: seq<Mount>, bs: Batches, x: Str): Option<Autobatch.Op> {
    LookupFirst(ms, x, 0);
    match Lookup(ms, x)
    case None => None
    case Some(i) => Held(bs, ms[i].prefix, Rest(ms[i].prefix, x))
  }

  function Latest(log: Log, x: Str): Option<Autobatch.Op> {
    if x in Autobatch.Collapse(log) then Some(Autobatch.Collapse(log)[x]) else None
  }

  /** The full key of k is looked up in the mount that the batch is for. */
  predicate Placed(ms: seq<Mount>, p: Str, k: Str) {
    LookupFirst(ms, Child(p, k), 0);
    var i := Lookup(ms, Child(p, k));
    i.Some? && ms[i.value].prefix == p
  }

  /** All keys are clean and, but for the root, in their place, and all batches have a mount. */
  ghost predicate Orderly(ms: seq<Mount>, bs: Batches, log: Log) {
    && (forall x <- Autobatch.Collapse(log) :: IsKey(x))
    && (forall p, k | p in bs && k in bs[p] :: IsKey(k) && (Placed(ms, p, k) || p == k == ROOT))
    && (forall p <- bs :: exists i :: 0 <= i < |ms| && ms[i].prefix == p)
  }

  /** What is held for each key is the last operation on it. */
  ghost predicate Recorded(ms: seq<Mount>, bs: Batches, log: Log) {
    Orderly(ms, bs, log) && forall x | IsKey(x) :: HeldFor(ms, bs, x) == Latest(log, x)
  }

  lemma {:induction false} PrefixesDistinct(ms: seq<Mount>, i: nat, j: nat)
    requires Descending(ms) && i < |ms| && j < |ms| && ms[i].prefix == ms[j].prefix
    ensures i == j
  {
    CompareEqual(ms[i].prefix, ms[j].prefix);
    CompareFlip(ms[i].prefix, ms[j].prefix);
  }

  lemma HeldWith(bs: Batches, p: Str, k: Str, op: Autobatch.Op, q: Str, l: Str)
    ensures Held(With(bs, p, k, op), q, l) == if q == p && l == k then Some(op) else Held(bs, q, l)
  {
  }

  lemma {:induction false} HeldForWith(ms: seq<Mount>, bs: Batches, key: Str, op: Autobatch.Op, i: nat, x: Str)
    requires Descending(ms) && Keyed(ms) && IsKey(key) && IsKey(x) && Lookup(ms, key) == Some(i) && i < |ms|
    ensures HeldFor(ms, With(bs, ms[i].prefix, Rest(ms[i].prefix, key), op), x)
         == if x == key then Some(op) else HeldFor(ms, bs, x)
  {
    assert ms[i] in ms;
    hide With, Held, IsKey, Descending, Lookup, Rest;
    LookupFirst(ms, key, 0);
    LookupFirst(ms, x, 0);
    if Lookup(ms, x).Some? {
      var j := Lookup(ms, x).value;
      assert ms[j] in ms;
      HeldWith(bs, ms[i].prefix, Rest(ms[i].prefix, key), op, ms[j].prefix, Rest(ms[j].prefix, x));
      RestPutsBack(ms[i].prefix, key);
      RestPutsBack(ms[j].prefix, x);
      if ms[i].prefix == ms[j].prefix { PrefixesDistinct(ms, i, j); }
    }
  }

  lemma {:induction false} LatestNext(log: Log, key: Str, op: Autobatch.Op)
    ensures var more := log + [Autobatch.Logged(key, op)];
            && Autobatch.Collapse(more) == Autobatch.Collapse(log)[key := op]
            && forall x :: Latest(more, x) == if x == key then Some(op) else Latest(log, x)
  {
    var more := log + [Autobatch.Logged(key, op)];
    assert more[..|log|] == log;
  }

  lemma {:induction false} OrderlyNext(ms: seq<Mount>, bs: Batches, log: Log, more: Log, p: Str, k: Str, op: Autobatch.Op)
    requires Orderly(ms, bs, log) && IsKey(k) && (exists i :: 0 <= i < |ms| && ms[i].prefix == p)
    requires Placed(ms, p, k) || p == k == ROOT
    requires forall x <- Autobatch.Collapse(more) :: x in Autobatch.Collapse(log) || IsKey(x)
    ensures Orderly(ms, With(bs, p, k, op), more)
  {
    hide Autobatch.Collapse, IsKey, Placed;
  }

  lemma {:induction false} RecordedNext(ms: seq<Mount>, bs: Batches, log: Log, key: Str, op: Autobatch.Op, i: nat)
    requires Recorded(ms, bs, log) && Descending(ms) && Keyed(ms) && IsKey(key) && Lookup(ms, key) == Some(i) && i < |ms|
    ensures Recorded(ms, With(bs, ms[i].prefix, Rest(ms[i].prefix, key), op), log + [Autobatch.Logged(key, op)])
  {
    var k, more := Rest(ms[i].prefix, key), log + [Autobatch.Logged(key, op)];
    assert ms[i] in ms;
    hide With, IsKey, HeldFor, Latest, Autobatch.Collapse, Rest, Descending, Orderly;
    LatestNext(log, key, op);
    LookupFirst(ms, key, 0);
    RestPutsBack(ms[i].prefix, key);
    assert Placed(ms, ms[i].prefix, k);
    OrderlyNext(ms, bs, log, more, ms[i].prefix, k, op);
    forall x | IsKey(x) ensures HeldFor(ms, With(bs, ms[i].prefix, k, op), x) == Latest(more, x) {
      HeldForWith(ms, bs, key, op, i, x);
    }
  }

  /** The root key itself, which no mount is an ancestor of, in a batch of the root mount. */
  lemma {:induction false} RecordedStray(ms: seq<Mount>, bs: Batches, log: Log, op: Autobatch.Op)
    requires Recorded(ms, bs, log) && ROOT in bs && Keyed(ms)
    ensures Recorded(ms, With(bs, ROOT, ROOT, op), log)
  {
    RootIsKey();
    assert exists i :: 0 <= i < |ms| && ms[i].prefix == ROOT;
    hide With, Held, IsKey, Latest, Autobatch.Collapse, Rest, Orderly, Lookup;
    OrderlyNext(ms, bs, log, log, ROOT, ROOT, op);
    forall x | IsKey(x) ensures HeldFor(ms, With(bs, ROOT, ROOT, op), x) == HeldFor(ms, bs, x) {
      LookupFirst(ms, x, 0);
      if Lookup(ms, x).Some? {
        var j := Lookup(ms, x).value;
        assert ms[j] in ms;
        RestPutsBack(ms[j].prefix, x);
        HeldWith(bs, ROOT, ROOT, op, ms[j].prefix, Rest(ms[j].prefix, x));
      }
    }
  }

  lemma {:induction false} SamePlaces(ms: seq<Mount>, ns: seq<Mount>, bs: Batches, x: Str)
    requires PrefixesOf(ns, ms)
    ensures HeldFor(ns, bs, x) == HeldFor(ms, bs, x)
  {
    hide Held, Rest;
    LookupFirst(ms, x, 0);
    LookupsSame(ns, ms, x);
  }

  lemma {:induction false} StaysPlaced(ms: seq<Mount>, ns: seq<Mount>, p: Str, k: Str)
    requires PrefixesOf(ns, ms) && Placed(ms, p, k)
    ensures Placed(ns, p, k)
  {
    hide Child;
    LookupFirst(ms, Child(p, k), 0);
    LookupsSame(ns, ms, Child(p, k));
  }

  lemma {:induction false} StaysOrderly(ms: seq<Mount>, ns: seq<Mount>, bs: Batches, log: Log)
    requires Orderly(ms, bs, log) && PrefixesOf(ns, ms)
    ensures Orderly(ns, bs, log)
  {
    hide IsKey, Placed, Autobatch.Collapse;
    forall p, k | p in bs && k in bs[p] ensures Placed(ns, p, k) || p == k == ROOT {
      if Placed(ms, p, k) { StaysPlaced(ms, ns, p, k); }
    }
    forall p <- bs ensures exists i :: 0 <= i < |ns| && ns[i].prefix == p {
      var i :| 0 <= i < |ms| && ms[i].prefix == p;
      assert ns[i].prefix == p;
    }
  }

  /** Changes to the stores leave a batch as it is. */
  lemma {:induction false} RecordedStays(ms: seq<Mount>, ns: seq<Mount>, bs: Batches, log: Log)
    requires Recorded(ms, bs, log) && PrefixesOf(ns, ms)
    ensures Recorded(ns, bs, log)
  {
    hide IsKey, HeldFor, Latest, Orderly, PrefixesOf;
    StaysOrderly(ms, ns, bs, log);
    forall x | IsKey(x) ensures HeldFor(ns, bs, x) == Latest(log, x) { SamePlaces(ms, ns, bs, x); }
  }

  // --- Committing --------------------------------------------------------------------------------

  function Overlaid(m: Mount, bs: Batches): Mount {
    if m.prefix in bs then m.(store := Autobatch.Overlay(m.store, bs[m.prefix])) else m
  }

  function Committed(ms: seq<Mount>, bs: Batches): (ns: seq<Mount>)
    ensures |ns| == |ms| && forall i :: 0 <= i < |ms| ==> ns[i] == Overlaid(ms[i], bs)
  {
    seq(|ms|, i requires 0 <= i < |ms| => Overlaid(ms[i], bs))
  }

  lemma OverlaidPrefix(m: Mount, bs: Batches)
    ensures Overlaid(m, bs).prefix == m.prefix
  {
  }

  ghost predicate CleanKeys(bs: Batches) {
    forall p, k | p in bs && k in bs[p] :: IsKey(k)
  }

  lemma {:induction false} OverlaidKeyed(m: Mount, bs: Batches)
    requires (forall k <- m.store :: IsKey(k)) && CleanKeys(bs)
    ensures forall k <- Overlaid(m, bs).store :: IsKey(k)
  {
    hide IsKey;
  }

  lemma {:induction false} CommittedKeyed(ms: seq<Mount>, bs: Batches, log: Log)
    requires Recorded(ms, bs, log) && Keyed(ms) && Descending(ms)
    ensures var ns := Committed(ms, bs); Keyed(ns) && Descending(ns) && PrefixesOf(ns, ms)
  {
    hide IsKey, Recorded, Overlaid, Descending, CleanKeys, PrefixesOf;
    RecordedIsClean(ms, bs, log);
    SamePrefixes(ms, bs);
    var ns := Committed(ms, bs);
    SameDescent(ms, ns);
    forall m <- ns ensures IsKey(m.prefix) && forall k <- m.store :: IsKey(k) {
      var i :| 0 <= i < |ns| && ns[i] == m;
      assert ms[i] in ms;
      OverlaidKeyed(ms[i], bs);
      OverlaidPrefix(ms[i], bs);
    }
  }

  lemma {:induction false} SameDescent(ms: seq<Mount>, ns: seq<Mount>)
    requires Descending(ms) && PrefixesOf(ns, ms)
    ensures Descending(ns)
  {
    hide Compare;
    forall i, j | 0 <= i < j < |ns| ensures Before(ns[i], ns[j]) { assert Before(ms[i], ms[j]); }
  }

  lemma RecordedIsClean(ms: seq<Mount>, bs: Batches, log: Log)
    requires Recorded(ms, bs, log)
    ensures CleanKeys(bs)
  {
  }

  lemma RecordedIsOrderly(ms: seq<Mount>, bs: Batches, log: Log)
    requires Recorded(ms, bs, log)
    ensures Orderly(ms, bs, log)
  {
  }

  /** What a value turns into under the last operation on its key. */
  function After(was: Option<Str>, op: Option<Autobatch.Op>): Option<Str> {
    if op.None? then was else if op.value.Put? then Some(op.value.value) else None
  }

  function At(m: map<Str, Str>, k: Str): Option<Str> {
    if k in m then Some(m[k]) else None
  }

  lemma OverlaidAt(m: Mount, bs: Batches, k: Str)
    ensures At(Overlaid(m, bs).store, k) == After(At(m.store, k), Held(bs, m.prefix, k))
  {
  }

  /** The value shown for a key after the commit is what the last operation on it left. */
  lemma {:induction false} FindCommitted(ms: seq<Mount>, bs: Batches, log: Log, x: Str)
    requires Recorded(ms, bs, log) && IsKey(x)
    ensures Find(Committed(ms, bs), x) == After(Find(ms, x), Latest(log, x))
  {
    var ns := Committed(ms, bs);
    assert HeldFor(ms, bs, x) == Latest(log, x);
    hide Overlaid, Held, IsKey, Recorded, Latest, Lookup, Rest, After;
    assert PrefixesOf(ns, ms) by { SamePrefixes(ms, bs); }
    LookupByPrefixes(ns, ms, x, 0);
    assert Lookup(ns, x) == Lookup(ms, x) by { LookupsSame(ns, ms, x); }
    LookupFirst(ms, x, 0);
    LookupFirst(ns, x, 0);
    if Lookup(ms, x).Some? {
      var i := Lookup(ms, x).value;
      OverlaidAt(ms[i], bs, Rest(ms[i].prefix, x));
      assert ns[i].prefix == ms[i].prefix;
    } else {
      NotHeld(Find(ms, x));
    }
  }

  lemma NotHeld(was: Option<Str>)
    ensures After(was, None) == was
  {
  }

  lemma SamePrefixes(ms: seq<Mount>, bs: Batches)
    ensures PrefixesOf(Committed(ms, bs), ms)
  {
  }

  lemma {:induction false} LookupsSame(ns: seq<Mount>, ms: seq<Mount>, x: Str)
    requires PrefixesOf(ns, ms)
    ensures Lookup(ns, x) == Lookup(ms, x)
  {
    LookupByPrefixes(ns, ms, x, 0);
  }

  lemma OverlayKeys(m: map<Str, Str>, log: Log, x: Str)
    ensures At(Autobatch.Overlay(m, Autobatch.Collapse(log)), x) == After(At(m, x), Latest(log, x))
  {
  }

  predicate RootPut(bs: Batches) {
    Held(bs, ROOT, ROOT).Some? && Held(bs, ROOT, ROOT).value.Put?
  }

  lemma OverlaidHas(m: Mount, bs: Batches, k: Str)
    ensures k in Overlaid(m, bs).store ==> k in m.store || (Held(bs, m.prefix, k).Some? && Held(bs, m.prefix, k).value.Put?)
    ensures Held(bs, m.prefix, k).Some? && Held(bs, m.prefix, k).value.Put? ==> k in Overlaid(m, bs).store
  {
  }

  lemma {:induction false} CommitHomesAt(ms: seq<Mount>, bs: Batches, log: Log, i: nat, k: Str)
    requires Orderly(ms, bs, log) && Descending(ms) && AllHomed(ms) && !RootPut(bs)
    requires i < |ms| && k in Overlaid(ms[i], bs).store
    ensures Homed(ms, i, k)
  {
    hide IsKey, Descending, Overlaid, Child;
    OverlaidHas(ms[i], bs, k);
    if k !in ms[i].store {
      assert Placed(ms, ms[i].prefix, k);
      LookupFirst(ms, Child(ms[i].prefix, k), 0);
      PrefixesDistinct(ms, i, Lookup(ms, Child(ms[i].prefix, k)).value);
    }
  }

  lemma {:induction false} RootMounted(ms: seq<Mount>, bs: Batches, log: Log) returns (i: nat)
    requires Orderly(ms, bs, log) && ROOT in bs
    ensures i < |ms| && ms[i].prefix == ROOT
  {
    i :| 0 <= i < |ms| && ms[i].prefix == ROOT;
  }

  /** A commit puts keys where lookup finds them, unless the root key was put into the root mount's batch. */
  lemma {:induction false} CommitHomes(ms: seq<Mount>, bs: Batches, log: Log)
    requires Recorded(ms, bs, log) && Keyed(ms) && Descending(ms) && AllHomed(ms)
    ensures AllHomed(Committed(ms, bs)) <==> !RootPut(bs)
  {
    RecordedIsOrderly(ms, bs, log);
    CommittedKeyed(ms, bs, log);
    var ns := Committed(ms, bs);
    hide Recorded, Orderly, Keyed, Descending, Lookup, Child, Overlaid;
    if RootPut(bs) {
      var i := RootMounted(ms, bs, log);
      OverlaidHas(ms[i], bs, ROOT);
      assert ns[i].prefix == ROOT;
      RootIsLost(ns, i);
    } else {
      forall i, k | 0 <= i < |ns| && k in ns[i].store ensures Homed(ns, i, k) {
        CommitHomesAt(ms, bs, log, i, k);
        LookupsSame(ns, ms, Child(ms[i].prefix, k));
        assert ns[i].prefix == ms[i].prefix;
      }
    }
  }

  lemma {:induction false} RootIsLost(ms: seq<Mount>, i: nat)
    requires Keyed(ms) && i < |ms| && ms[i].prefix == ROOT
    ensures !Homed(ms, i, ROOT)
  {
    LookupFirst(ms, ROOT, 0);
  }

  /** Committing the batches is doing the operations, as issued, on the visible map. */
  lemma {:induction false} CommitReplays(ms: seq<Mount>, bs: Batches, log: Log)
    requires Recorded(ms, bs, log) && Keyed(ms) && Descending(ms)
    ensures Flat(Committed(ms, bs)) == Autobatch.Replay(Flat(ms), log)
  {
    CommittedKeyed(ms, bs, log);
    Autobatch.ReplayCollapses(Flat(ms), log);
    FlatKeysAreKeys(ms);
    RecordedIsOrderly(ms, bs, log);
    var ns, m := Committed(ms, bs), Autobatch.Overlay(Flat(ms), Autobatch.Collapse(log));
    assert forall x <- m :: IsKey(x);
    hide Autobatch.Replay, Autobatch.Collapse, Autobatch.Overlay, Committed, Keyed, Find, Recorded, Latest, After, Flat, IsKey;
    forall x | IsKey(x) ensures (x in m <==> Find(ns, x).Some?) && (Find(ns, x).Some? ==> m[x] == Find(ns, x).value) {
      FindCommitted(ms, bs, log, x);
      FlatIsFind(ms, x);
      OverlayKeys(Flat(ms), log, x);
      assert At(Flat(ms), x) == Find(ms, x);
    }
    SameFlat(ns, m);
  }

  class MountBatch {
    const d: MountedDatastore
    var batches: Batches
    ghost var log: Log

    /** However the stores have changed since, the batch is for the same mounts. */
    ghost predicate Valid()
      reads this, d
    {
      d.Valid() && Recorded(d.mounts, batches, log)
    }

    constructor (d: MountedDatastore)
      requires d.Valid()
      ensures Valid() && this.d == d && log == []
    {
      this.d := d;
      batches, log := map[], [];
    }

    /** lookupBatch and the Put or Delete on the batch it finds; false is ErrBatchUnsupported. */
    method Add(key: Str, op: Autobatch.Op) returns (ok: bool)
      requires Valid() && IsKey(key)
      modifies this
      ensures Valid()
      ensures ok <==> Lookup(d.mounts, key).Some? || ROOT in old(batches)
      ensures log == old(log) + (if Lookup(d.mounts, key).Some? then [Autobatch.Logged(key, op)] else [])
      ensures Lookup(d.mounts, key).None? && ok ==> key == ROOT && batches == With(old(batches), ROOT, ROOT, op)
    {
      hide Recorded;
      var found, rest := d.Route(key);
      var loc := if found.Some? then d.mounts[found.value].prefix else NewKey([SLASH]);
      assert NewKey([SLASH]) == ROOT by { RootIsKey(); NewKeyOfKey(ROOT); }
      if found.Some? {
        RecordedNext(d.mounts, batches, log, key, op, found.value);
        log := log + [Autobatch.Logged(key, op)];
      } else {
        rest := key;
        if loc !in batches { return false; }
        OnlyRootIsLost(d.mounts, batches, log, key);
        RecordedStray(d.mounts, batches, log, op);
      }
      batches := With(batches, loc, rest, op);
      ok := true;
    }

    /** Each batch is committed to its own store, in whatever order the map is walked. */
    method Commit()
      requires Valid()
      modifies d
      ensures d.Valid() && d.mounts == Committed(old(d.mounts), batches)
      ensures d.Contents() == Autobatch.Replay(old(d.Contents()), log)
      ensures old(AllHomed(d.mounts)) && Held(batches, ROOT, ROOT).None? ==> AllHomed(d.mounts)
    {
      hide Committed, Recorded, Autobatch.Overlay, Autobatch.Replay, Flat, Keyed, Descending, AllHomed;
      ghost var ms := d.mounts;
      CommitReplays(ms, batches, log);
      if AllHomed(ms) { CommitHomes(ms, batches, log); }
      CommittedKeyed(ms, batches, log);
      var left := batches.Keys;
      NothingCommitted(ms, batches);
      while left != {}
        invariant left <= batches.Keys && d.mounts == Committed(ms, batches - left)
        decreases |left|
      {
        var p :| p in left;
        HasMount(ms, batches, left, log, p);
        var i :| 0 <= i < |d.mounts| && d.mounts[i].prefix == p;
        CommitOne(ms, batches, left, p, i);
        d.mounts := d.mounts[i := d.mounts[i].(store := Autobatch.Overlay(d.mounts[i].store, batches[p]))];
        left := left - {p};
      }
      AllCommitted(batches);
    }
  }

  lemma {:induction false} HasMount(ms: seq<Mount>, bs: Batches, left: set<Str>, log: Log, p: Str)
    requires Recorded(ms, bs, log) && p in bs
    ensures var now := Committed(ms, bs - left); exists i :: 0 <= i < |now| && now[i].prefix == p
  {
    var i :| 0 <= i < |ms| && ms[i].prefix == p;
    assert Committed(ms, bs - left)[i].prefix == p;
  }

  lemma {:induction false} OnlyRootIsLost(ms: seq<Mount>, bs: Batches, log: Log, key: Str)
    requires Recorded(ms, bs, log) && ROOT in bs && IsKey(key) && Lookup(ms, key).None?
    ensures key == ROOT
  {
    var i :| 0 <= i < |ms| && ms[i].prefix == ROOT;
    LookupFirst(ms, key, 0);
    KeyShape(key);
  }

  lemma NothingCommitted(ms: seq<Mount>, bs: Batches)
    ensures Committed(ms, bs - bs.Keys) == ms
  {
    assert bs - bs.Keys == map[];
  }

  lemma AllCommitted(bs: Batches)
    ensures bs - {} == bs
  {
  }

  lemma {:induction false} CommitOne(ms: seq<Mount>, bs: Batches, left: set<Str>, p: Str, i: nat)
    requires Descending(ms) && p in left && left <= bs.Keys && i < |ms| && Committed(ms, bs - left)[i].prefix == p
    ensures var now := Committed(ms, bs - left);
            now[i := now[i].(store := Autobatch.Overlay(now[i].store, bs[p]))] == Committed(ms, bs - (left - {p}))
  {
    forall j | 0 <= j < |ms| && j != i ensures ms[j].prefix != p {
      if ms[j].prefix == p { PrefixesDistinct(ms, i, j); }
    }
    hide Autobatch.Overlay;
  }
}
