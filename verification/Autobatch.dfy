/** Batches and the write buffer (datastore: batch.go, basic_ds.go, autobatch/autobatch.go). */
module Autobatch {
  import opened Words
  import opened Keys

  datatype Op = Put(value: Str) | Delete

  /** One operation on a plain map. */
  function Do(m: map<Str, Str>, k: Str, op: Op): map<Str, Str> {
    if op.Put? then m[k := op.value] else m - {k}
  }

  datatype Logged = Logged(key: Str, op: Op)

  /** The operations in the order they were issued. */
  function Replay(m: map<Str, Str>, log: seq<Logged>): map<Str, Str> {
    if log == [] then m else
      var last := log[|log| - 1];
      Do(Replay(m, log[..|log| - 1]), last.key, last.op)
  }

  /** The last operation on each key. */
  function Collapse(log: seq<Logged>): map<Str, Op> {
    if log == [] then map[] else
      var last := log[|log| - 1];
      Collapse(log[..|log| - 1])[last.key := last.op]
  }

  /** A map with one operation per key laid over it. */
  function Overlay(m: map<Str, Str>, ops: map<Str, Op>): map<Str, Str> {
    map k | k in m.Keys + ops.Keys && (k in ops ==> ops[k].Put?) :: if k in ops then ops[k].value else m[k]
  }

  /** Keeping only the last operation on each key loses nothing. */
  lemma {:induction false} ReplayCollapses(m: map<Str, Str>, log: seq<Logged>)
    ensures Replay(m, log) == Overlay(m, Collapse(log))
  {
    if log == [] {
      assert Overlay(m, map[]) == m;
    } else {
      ReplayCollapses(m, log[..|log| - 1]);
      OverlayDo(m, Collapse(log[..|log| - 1]), log[|log| - 1].key, log[|log| - 1].op);
    }
  }

  lemma {:induction false} OverlayDo(m: map<Str, Str>, ops: map<Str, Op>, k: Str, op: Op)
    ensures Overlay(m, ops[k := op]) == Do(Overlay(m, ops), k, op)
  {
    var a, b := Overlay(m, ops[k := op]), Do(Overlay(m, ops), k, op);
    assert forall x :: x in a <==> x in b;
    assert forall x <- a :: a[x] == b[x];
  }

  /** Operations on different keys can be done in any order: one may be taken out and done first. */
  lemma {:induction false} OverlayTake(m: map<Str, Str>, ops: map<Str, Op>, k: Str)
    requires k in ops
    ensures Overlay(Do(m, k, ops[k]), ops - {k}) == Overlay(m, ops)
  {
    var a, b := Overlay(Do(m, k, ops[k]), ops - {k}), Overlay(m, ops);
    assert forall x :: x in a <==> x in b;
    assert forall x <- a :: a[x] == b[x];
  }

  class MapDatastore {
    var values: map<Str, Str>

    constructor ()
      ensures values == map[]
    {
      values := map[];
    }

    method Apply(k: Str, op: Op)
      modifies this
      ensures values == Do(old(values), k, op)
    {
      if op.Delete? { values := values - {k}; } else { values := values[k := op.value]; }
    }
  }

  class BasicBatch {
    var ops: map<Str, Op>
    const target: MapDatastore
    ghost var log: seq<Logged>

    ghost predicate Valid()
      reads this
    {
      ops == Collapse(log)
    }

    constructor (target: MapDatastore)
      ensures Valid() && this.target == target && log == []
    {
      this.target := target;
      ops := map[];
      log := [];
    }

    method Add(k: Str, op: Op)
      requires Valid()
      modifies this
      ensures Valid() && log == old(log) + [Logged(k, op)]
    {
      ops := ops[k := op];
      log := log + [Logged(k, op)];
      assert log[..|log| - 1] == old(log);
    }

    /** In whatever order the map is walked, the target ends up as if the operations had been done as issued. */
    method Commit()
      requires Valid()
      modifies target
      ensures target.values == Replay(old(target.values), log)
    {
      ReplayCollapses(target.values, log);
      hide Overlay, Replay, Collapse, Do;
      var left := ops;
      while left != map[]
        invariant Overlay(target.values, left) == Overlay(old(target.values), ops)
        decreases |left|
      {
        var k :| k in left;
        OverlayTake(target.values, left, k);
        target.Apply(k, left[k]);
        left := left - {k};
      }
      OverlayNothing(target.values);
    }
  }

  lemma OverlayNothing(m: map<Str, Str>)
    ensures Overlay(m, map[]) == m
  {
  }

  // --- The buffer --------------------------------------------------------------------------------

  predicate AtOrUnder(prefix: Str, k: Str) {
    k == prefix || IsAncestorOf(prefix, k)
  }

  /** The operations of a log are those of a map, each once. */
  ghost predicate Lists(log: seq<Logged>, ops: map<Str, Op>) {
    Collapse(log) == ops
  }

  lemma {:induction false} ListNext(log: seq<Logged>, ops: map<Str, Op>, k: Str, op: Op)
    requires Lists(log, ops)
    ensures Lists(log + [Logged(k, op)], ops[k := op])
  {
    var more := log + [Logged(k, op)];
    assert more[..|more| - 1] == log;
  }

  function Under(ops: map<Str, Op>, prefix: Str): map<Str, Op> {
    map k | k in ops && AtOrUnder(prefix, k) :: ops[k]
  }

  /** Part of the operations has been passed on, the rest is left. */
  predicate Moving(done: map<Str, Op>, left: map<Str, Op>, whole: map<Str, Op>) {
    && (forall k <- done :: k !in left && k in whole && done[k] == whole[k])
    && (forall k <- left :: k in whole && left[k] == whole[k])
    && (forall k <- whole :: k in done || k in left)
  }

  lemma {:induction false} MoveOne(done: map<Str, Op>, left: map<Str, Op>, whole: map<Str, Op>, k: Str)
    requires Moving(done, left, whole) && k in left
    ensures Moving(done[k := left[k]], left - {k}, whole)
    ensures |left - {k}| == |left| - 1
  {
    Smaller(left, k);
  }

  lemma {:induction false} Smaller(m: map<Str, Op>, k: Str)
    requires k in m
    ensures |m - {k}| == |m| - 1
  {
    assert (m - {k}).Keys == m.Keys - {k};
    assert |m| == |m.Keys| && |m - {k}| == |(m - {k}).Keys|;
  }

  /** Doing part of the operations and keeping the others over the result. */
  lemma {:induction false} OverlaySplit(m: map<Str, Str>, done: map<Str, Op>, left: map<Str, Op>, whole: map<Str, Op>)
    requires Moving(done, left, whole)
    ensures Overlay(Overlay(m, done), left) == Overlay(m, whole)
  {
    var a, b := Overlay(Overlay(m, done), left), Overlay(m, whole);
    assert forall x :: x in a <==> x in b;
    assert forall x <- a :: a[x] == b[x];
  }

  /** Sync's walk: todo are keys not yet looked at, buffer what stays so far. */
  ghost predicate Syncing(done: map<Str, Op>, todo: set<Str>, buffer: map<Str, Op>, whole: map<Str, Op>, prefix: Str) {
    && Moving(done, buffer, whole)
    && todo <= buffer.Keys
    && (forall k <- done :: AtOrUnder(prefix, k))
    && (forall k <- buffer :: k in todo || !AtOrUnder(prefix, k))
    && |buffer| <= |whole|
  }

  lemma {:induction false} SyncTake(done: map<Str, Op>, todo: set<Str>, buffer: map<Str, Op>, whole: map<Str, Op>, prefix: Str, k: Str)
    requires Syncing(done, todo, buffer, whole, prefix) && k in todo && AtOrUnder(prefix, k)
    ensures Syncing(done[k := buffer[k]], todo - {k}, buffer - {k}, whole, prefix)
  {
    hide AtOrUnder;
    MoveOne(done, buffer, whole, k);
  }

  lemma {:induction false} SyncSkip(done: map<Str, Op>, todo: set<Str>, buffer: map<Str, Op>, whole: map<Str, Op>, prefix: Str, k: Str)
    requires Syncing(done, todo, buffer, whole, prefix) && k in todo && !AtOrUnder(prefix, k)
    ensures Syncing(done, todo - {k}, buffer, whole, prefix)
  {
    hide AtOrUnder, Moving;
  }

  lemma {:induction false} SyncEnd(done: map<Str, Op>, buffer: map<Str, Op>, whole: map<Str, Op>, prefix: Str)
    requires Syncing(done, {}, buffer, whole, prefix)
    ensures done == Under(whole, prefix) && (forall k <- buffer :: !AtOrUnder(prefix, k)) && |buffer| <= |whole|
  {
    hide AtOrUnder;
    assert forall k :: k in done <==> k in Under(whole, prefix);
  }

  class Datastore {
    const child: MapDatastore
    const maxBufferEntries: int
    var buffer: map<Str, Op>

    ghost predicate Valid()
      reads this
    {
      buffer == map[] || |buffer| <= maxBufferEntries
    }

    /** What a user of the datastore sees. */
    ghost function View(): map<Str, Str>
      reads this, child
    {
      Overlay(child.values, buffer)
    }

    constructor (child: MapDatastore, size: int)
      ensures Valid() && this.child == child && View() == child.values
    {
      this.child := child;
      maxBufferEntries := size;
      buffer := map[];
      new;
      OverlayNothing(child.values);
    }

    method Flush()
      modifies this, child
      ensures Valid() && View() == old(View()) && child.values == View() && buffer == map[]
    {
      hide Overlay, Replay, Collapse, Do, Lists, Moving;
      var b := new BasicBatch(child);
      var left := buffer;
      ghost var done: map<Str, Op> := map[];
      NothingListed();
      NothingMoved(buffer);
      while left != map[]
        invariant fresh(b) && b.Valid() && b.target == child && unchanged(this) && unchanged(child)
        invariant Lists(b.log, done) && Moving(done, left, buffer)
        decreases |left|
      {
        var k :| k in left;
        MoveOne(done, left, buffer, k);
        ListNext(b.log, done, k, left[k]);
        done := done[k := left[k]];
        b.Add(k, left[k]);
        left := left - {k};
      }
      AllMoved(done, buffer);
      Passed(b.log, done, child.values);
      buffer := map[];
      b.Commit();
      OverlayNothing(child.values);
    }

    method Write(k: Str, op: Op)
      requires Valid()
      modifies this, child
      ensures Valid() && View() == Do(old(View()), k, op)
    {
      OverlayDo(child.values, buffer, k, op);
      buffer := buffer[k := op];
      if |buffer| > maxBufferEntries { Flush(); }
    }

    method Get(k: Str) returns (r: Option<Str>)
      ensures r == if k in View() then Some(View()[k]) else None
    {
      if k in buffer {
        if buffer[k].Delete? { return None; }
        return Some(buffer[k].value);
      }
      return if k in child.values then Some(child.values[k]) else None;
    }

    method Has(k: Str) returns (r: bool)
      ensures r <==> k in View()
    {
      if k in buffer { return !buffer[k].Delete?; }
      return k in child.values;
    }

    /** What is at or under the prefix reaches the child; the view does not change. */
    method Sync(prefix: Str)
      requires Valid()
      modifies this, child
      ensures Valid() && View() == old(View())
      ensures child.values == Overlay(old(child.values), Under(old(buffer), prefix))
      ensures forall k <- buffer :: !AtOrUnder(prefix, k)
    {
      hide Overlay, Replay, Collapse, Do, Lists, Syncing, AtOrUnder;
      var b := new BasicBatch(child);
      var todo := buffer.Keys;
      ghost var done: map<Str, Op> := map[];
      NothingListed();
      NothingSynced(buffer, prefix);
      while todo != {}
        invariant fresh(b) && b.Valid() && b.target == child && unchanged(child)
        invariant todo <= buffer.Keys && Lists(b.log, done) && Syncing(done, todo, buffer, old(buffer), prefix)
        decreases |todo|
      {
        var k :| k in todo;
        if AtOrUnder(prefix, k) {
          SyncTake(done, todo, buffer, old(buffer), prefix, k);
          ListNext(b.log, done, k, buffer[k]);
          done := done[k := buffer[k]];
          b.Add(k, buffer[k]);
          buffer := buffer - {k};
        } else {
          SyncSkip(done, todo, buffer, old(buffer), prefix, k);
        }
        todo := todo - {k};
      }
      SyncEnd(done, buffer, old(buffer), prefix);
      Passed(b.log, done, child.values);
      SyncedView(child.values, done, buffer, old(buffer), prefix);
      b.Commit();
    }
  }

  lemma NothingMoved(ops: map<Str, Op>)
    ensures Moving(map[], ops, ops)
  {
  }

  lemma NothingSynced(ops: map<Str, Op>, prefix: Str)
    ensures Syncing(map[], ops.Keys, ops, ops, prefix)
  {
  }

  lemma AllMoved(done: map<Str, Op>, whole: map<Str, Op>)
    requires Moving(done, map[], whole)
    ensures done == whole
  {
    assert forall k :: k in done <==> k in whole;
  }

  lemma SyncedView(m: map<Str, Str>, done: map<Str, Op>, buffer: map<Str, Op>, whole: map<Str, Op>, prefix: Str)
    requires Syncing(done, {}, buffer, whole, prefix)
    ensures Overlay(Overlay(m, done), buffer) == Overlay(m, whole)
  {
    OverlaySplit(m, done, buffer, whole);
  }

  lemma Passed(log: seq<Logged>, done: map<Str, Op>, m: map<Str, Str>)
    requires Lists(log, done)
    ensures Replay(m, log) == Overlay(m, done)
  {
    ReplayCollapses(m, log);
  }

  lemma NothingListed()
    ensures Lists([], map[])
  {
  }
}
