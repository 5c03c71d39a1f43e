/** The merge of child query results (querySet in datastore/mount/mount.go). */
module QueryMerge {
  import opened Queries

  /** All entries of several result lists. */
  function Pool(lists: seq<seq<Entry>>): multiset<Entry> {
    if lists == [] then multiset{} else multiset(lists[0]) + Pool(lists[1..])
  }

  lemma {:induction false} PoolConcat(a: seq<seq<Entry>>, b: seq<seq<Entry>>)
    ensures Pool(a + b) == Pool(a) + Pool(b)
  {
    if a == [] {
      assert a + b == b;
    } else {
      assert (a + b)[1..] == a[1..] + b;
      PoolConcat(a[1..], b);
    }
  }

  lemma {:induction false} PoolOne(l: seq<Entry>)
    ensures Pool([l]) == multiset(l)
  {
    var one := [l];
    assert one[1..] == [];
  }

  lemma {:induction false} PoolUpdate(lists: seq<seq<Entry>>, i: nat, l: seq<Entry>)
    requires i < |lists|
    ensures Pool(lists[i := l]) + multiset(lists[i]) == Pool(lists) + multiset(l)
  {
    if i == 0 {
      assert lists[0 := l][1..] == lists[1..];
    } else {
      assert lists[i := l][1..] == lists[1..][i - 1 := l];
      PoolUpdate(lists[1..], i - 1, l);
      var h, a, b := multiset(lists[0]), Pool(lists[1..][i - 1 := l]), Pool(lists[1..]);
      assert (h + a) + multiset(lists[i]) == h + (a + multiset(lists[i])) == h + (b + multiset(l)) == (h + b) + multiset(l);
    }
  }

  lemma {:induction false} PoolIn(lists: seq<seq<Entry>>, e: Entry)
    ensures e in Pool(lists) <==> exists i :: 0 <= i < |lists| && e in lists[i]
  {
    if lists != [] {
      PoolIn(lists[1..], e);
      if e in Pool(lists[1..]) {
        var i :| 0 <= i < |lists[1..]| && e in lists[1..][i];
        assert e in lists[i + 1];
      }
      if i :| 0 <= i < |lists| && e in lists[i] {
        if i > 0 { assert lists[1..][i - 1] == lists[i]; }
      }
    }
  }

  /** Each list sorted, and keys distinct across lists. */
  ghost predicate Mergeable(orders: seq<Order>, lists: seq<seq<Entry>>) {
    && (forall i :: 0 <= i < |lists| ==> lists[i] != [] && Ordered(orders, lists[i]))
    && forall i, j, a, b :: 0 <= i < j < |lists| && a in lists[i] && b in lists[j] ==> a.key != b.key
  }

  ghost predicate Least(orders: seq<Order>, lists: seq<seq<Entry>>) {
    lists != [] ==> forall i :: 0 < i < |lists| && lists[i] != [] && lists[0] != [] ==> !Less(orders, lists[i][0], lists[0][0])
  }

  /** The head of the least list comes before everything else. */
  lemma {:induction false} LeastFirst(orders: seq<Order>, lists: seq<seq<Entry>>)
    requires PlainOrders(orders) && Mergeable(orders, lists) && Least(orders, lists) && lists != []
    ensures forall x <- lists[0][1..] :: Less(orders, lists[0][0], x)
    ensures forall i, x :: 0 < i < |lists| && x in lists[i] ==> Less(orders, lists[0][0], x)
  {
    var e := lists[0][0];
    forall i, x | 0 < i < |lists| && x in lists[i] ensures Less(orders, e, x) {
      var h := lists[i][0];
      assert e in lists[0] && h in lists[i];
      LessTotal(orders, h, e);
      if x != h { LessTrans(orders, e, h, x); }
    }
  }

  /** Pending results, the next one of each list at its front; container/heap keeps a least one first. */
  class QuerySet {
    const orders: seq<Order>
    var heads: seq<seq<Entry>>

    ghost predicate Valid()
      reads this
    {
      && (forall i :: 0 <= i < |heads| ==> heads[i] != [])
      && (PlainOrders(orders) && Mergeable(orders, heads) ==> Least(orders, heads))
    }

    constructor (orders: seq<Order>)
      ensures Valid() && heads == [] && this.orders == orders
    {
      this.orders := orders;
      heads := [];
    }

    /** Restores the heap order: some least head moves to the front. */
    method Settle()
      requires forall i :: 0 <= i < |heads| ==> heads[i] != []
      modifies `heads
      ensures Valid() && Pool(heads) == Pool(old(heads))
      ensures Mergeable(orders, old(heads)) ==> Mergeable(orders, heads)
    {
      hide Less, Pool, Mergeable;
      var i := 1;
      while i < |heads|
        invariant 1 <= i && |heads| == |old(heads)| && (heads != [] ==> i <= |heads|)
        invariant Pool(heads) == Pool(old(heads))
        invariant forall j :: 0 <= j < |heads| ==> heads[j] != []
        invariant Mergeable(orders, old(heads)) ==> Mergeable(orders, heads)
        invariant PlainOrders(orders) ==>
                    forall j :: 0 < j < i && j < |heads| ==> !Less(orders, heads[j][0], heads[0][0])
      {
        if Less(orders, heads[i][0], heads[0][0]) {
          if PlainOrders(orders) { Swapped(orders, heads, i); }
          SwapPool(heads, i);
          if Mergeable(orders, heads) { SwapMergeable(orders, heads, i); }
          heads := Exchange(heads, i);
        }
        i := i + 1;
      }
    }

    method AddResults(results: seq<Entry>)
      requires Valid()
      modifies `heads
      ensures Valid() && Pool(heads) == Pool(old(heads)) + multiset(results)
      ensures Mergeable(orders, old(heads) + (if results == [] then [] else [results])) ==> Mergeable(orders, heads)
    {
      if results == [] {
        assert heads + [] == heads;
        return;
      }
      PoolConcat(heads, [results]);
      PoolOne(results);
      heads := heads + [results];
      Settle();
    }

    /** The least pending entry. */
    method Next() returns (e: Entry)
      requires Valid() && heads != []
      modifies `heads
      ensures Valid() && e in Pool(old(heads)) && Pool(heads) == Pool(old(heads)) - multiset{e}
      ensures PlainOrders(orders) && Mergeable(orders, old(heads)) ==>
                Mergeable(orders, heads) && forall x <- Pool(heads) :: Less(orders, e, x)
    {
      ghost var was := heads;
      e := heads[0][0];
      Taken(orders, heads);
      if |heads[0]| > 1 {
        heads := heads[0 := heads[0][1..]];
      } else {
        heads := heads[1..];
      }
      Settle();
    }
  }

  lemma {:induction false} Swapped(orders: seq<Order>, lists: seq<seq<Entry>>, i: nat)
    requires PlainOrders(orders) && 0 < i < |lists| && forall j :: 0 <= j < |lists| ==> lists[j] != []
    requires forall j :: 0 < j < i ==> !Less(orders, lists[j][0], lists[0][0])
    requires Less(orders, lists[i][0], lists[0][0])
    ensures !Less(orders, lists[0][0], lists[i][0])
    ensures forall j :: 0 < j < i ==> !Less(orders, lists[j][0], lists[i][0])
  {
    var m, e := lists[0][0], lists[i][0];
    if Less(orders, m, e) {
      LessTrans(orders, m, e, m);
      LessIrreflexive(orders, m);
    }
    forall j | 0 < j < i ensures !Less(orders, lists[j][0], e) {
      if Less(orders, lists[j][0], e) { LessTrans(orders, lists[j][0], e, m); }
    }
  }

  function Exchange(lists: seq<seq<Entry>>, i: nat): seq<seq<Entry>>
    requires 0 < i < |lists|
  {
    lists[0 := lists[i]][i := lists[0]]
  }

  lemma {:induction false} SwapPool(lists: seq<seq<Entry>>, i: nat)
    requires 0 < i < |lists|
    ensures Pool(Exchange(lists, i)) == Pool(lists)
  {
    hide Pool;
    var mid := lists[0 := lists[i]];
    PoolUpdate(lists, 0, lists[i]);
    PoolUpdate(mid, i, lists[0]);
    var a, b, c := Pool(Exchange(lists, i)), Pool(lists), multiset(lists[i]);
    assert a + c == b + c;
    assert a == (a + c) - c == (b + c) - c == b;
  }

  lemma {:induction false} SwapMergeable(orders: seq<Order>, lists: seq<seq<Entry>>, i: nat)
    requires 0 < i < |lists| && Mergeable(orders, lists)
    ensures Mergeable(orders, Exchange(lists, i))
  {
    hide Less;
    var l := Exchange(lists, i);
    forall j | 0 <= j < |l| ensures l[j] != [] && Ordered(orders, l[j]) {
      assert l[j] == lists[if j == 0 then i else if j == i then 0 else j];
    }
    forall j: int, k: int, a: Entry, b: Entry | 0 <= j < k < |l| && a in l[j] && b in l[k] ensures a.key != b.key {
      var j' := if j == 0 then i else if j == i then 0 else j;
      var k' := if k == i then 0 else k;
      assert l[j] == lists[j'] && l[k] == lists[k'];
    }
  }

  /** Taking the first entry of the first list. */
  lemma {:induction false} Taken(orders: seq<Order>, lists: seq<seq<Entry>>)
    requires lists != [] && lists[0] != []
    ensures var l := if |lists[0]| > 1 then lists[0 := lists[0][1..]] else lists[1..];
            && lists[0][0] in Pool(lists)
            && Pool(l) == Pool(lists) - multiset{lists[0][0]}
            && (PlainOrders(orders) && Mergeable(orders, lists) && Least(orders, lists) ==>
                  Mergeable(orders, l) && forall x <- Pool(l) :: Less(orders, lists[0][0], x))
  {
    hide Less, PlainOrders;
    var e := lists[0][0];
    var l := if |lists[0]| > 1 then lists[0 := lists[0][1..]] else lists[1..];
    assert lists[0] == [e] + lists[0][1..];
    PoolUpdate(lists, 0, lists[0][1..]);
    assert multiset(lists[0]) == multiset{e} + multiset(lists[0][1..]);
    PoolIn(lists, e);
    if |lists[0]| == 1 {
      assert lists[0 := []][1..] == lists[1..];
    }
    if PlainOrders(orders) && Mergeable(orders, lists) && Least(orders, lists) {
      LeastFirst(orders, lists);
      TailMergeable(orders, lists);
      forall x <- Pool(l) ensures Less(orders, e, x) {
        PoolIn(l, x);
        var i :| 0 <= i < |l| && x in l[i];
        if |lists[0]| == 1 { assert l[i] == lists[i + 1]; }
      }
    }
  }

  lemma {:induction false} TailMergeable(orders: seq<Order>, lists: seq<seq<Entry>>)
    requires lists != [] && Mergeable(orders, lists)
    ensures Mergeable(orders, if |lists[0]| > 1 then lists[0 := lists[0][1..]] else lists[1..])
  {
    hide Less;
    if |lists[0]| > 1 {
      var l := lists[0 := lists[0][1..]];
      assert forall a :: a in l[0] ==> a in lists[0];
    }
  }

  /** Draining the set: a permutation of the results, in order if each list was. */
  method Drain(qs: QuerySet) returns (out: seq<Entry>)
    requires qs.Valid()
    modifies qs
    ensures multiset(out) == old(Pool(qs.heads))
    ensures PlainOrders(qs.orders) && old(Mergeable(qs.orders, qs.heads)) ==> Ordered(qs.orders, out)
  {
    hide Less, Mergeable, Pool, Precedes, Ordered;
    ghost var sorted := PlainOrders(qs.orders) && Mergeable(qs.orders, qs.heads);
    out := [];
    DrainStart(qs.orders, Pool(qs.heads));
    assert multiset(out) == multiset{};
    while qs.heads != []
      invariant qs.Valid() && multiset(out) + Pool(qs.heads) == old(Pool(qs.heads))
      invariant sorted ==> Mergeable(qs.orders, qs.heads) && Ordered(qs.orders, out)
      invariant sorted ==> Precedes(qs.orders, out, Pool(qs.heads))
      decreases |Pool(qs.heads)|
    {
      ghost var pool := Pool(qs.heads);
      var e := qs.Next();
      if sorted { Appended(qs.orders, out, e, pool); }
      assert multiset(out + [e]) == multiset(out) + multiset{e};
      out := out + [e];
    }
  }

  lemma DrainStart(orders: seq<Order>, pool: multiset<Entry>)
    ensures Ordered(orders, []) && Precedes(orders, [], pool) && Pool([]) == multiset{}
  {}

  ghost predicate Precedes(orders: seq<Order>, out: seq<Entry>, pool: multiset<Entry>) {
    forall x, y :: x in out && y in pool ==> Less(orders, x, y)
  }

  lemma {:induction false} Appended(orders: seq<Order>, out: seq<Entry>, e: Entry, pool: multiset<Entry>)
    requires Ordered(orders, out) && Precedes(orders, out, pool) && e in pool
    requires forall x <- pool - multiset{e} :: Less(orders, e, x)
    ensures Ordered(orders, out + [e]) && Precedes(orders, out + [e], pool - multiset{e})
  {
    hide Less;
  }
}
