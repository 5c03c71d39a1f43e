/** Query on a mount datastore is the naive query on the flat map (datastore/mount/mount.go). */
module FlatQuery {
  import opened Words
  import opened Keys
  import opened Queries
  import opened Mounts
  import opened MountStore
  import opened MountQuery
  import opened QueryMerge

  function EntryOf(k: Str, v: Str, keysOnly: bool): Entry {
    Entry(k, if keysOnly then [] else v, |v|)
  }

  /** es lists the entries of m, in some order. */
  ghost predicate Enumerates(es: seq<Entry>, m: map<Str, Str>, keysOnly: bool) {
    && Distinct(es)
    && (forall e <- es :: e.key in m && e == EntryOf(e.key, m[e.key], keysOnly))
    && (forall k <- m :: EntryOf(k, m[k], keysOnly) in es)
  }

  function Prefixed(p: Str): Entry -> Entry {
    (e: Entry) => e.(key := Child(p, e.key))
  }

  /** The query passed on to a mounted store: no filters, offset or limit. */
  function ChildQuery(q: Query, rest: Str): Query {
    Query(rest, [], q.orders, 0, 0, q.keysOnly)
  }

  /** What one mounted store contributes, under full keys; enums fixes how each store enumerates itself. */
  function ChildResults(ms: seq<Mount>, q: Query, enums: seq<seq<Entry>>, h: Hit): seq<Entry>
    requires h.mount < |ms| == |enums|
  {
    MapEntries(Prefixed(ms[h.mount].prefix), NaiveQueryApply(ChildQuery(q, h.rest), enums[h.mount]))
  }

  ghost predicate Stores(ms: seq<Mount>, enums: seq<seq<Entry>>, keysOnly: bool) {
    |ms| == |enums| && forall i :: 0 <= i < |ms| ==> Enumerates(enums[i], ms[i].store, keysOnly)
  }

  /** No key that the store lists for this hit is masked by a more specific mount. */
  ghost predicate UnmaskedHit(ms: seq<Mount>, h: Hit)
    requires h.mount < |ms|
  {
    forall k | k in ms[h.mount].store && Under(h.rest, k) :: Homed(ms, h.mount, k)
  }

  ghost predicate Unmasked(ms: seq<Mount>, hits: seq<Hit>) {
    forall h | h in hits && h.mount < |ms| :: UnmaskedHit(ms, h)
  }

  lemma HomedUnmasked(ms: seq<Mount>, hits: seq<Hit>)
    requires AllHomed(ms)
    ensures Unmasked(ms, hits)
  {
  }

  // --- What the child queries return -------------------------------------------------------------

  lemma {:induction false} PrefixFilterIn(p: Str, es: seq<Entry>)
    requires IsKey(p)
    ensures forall e :: e in FilterAll(PrefixFilters(p), es) <==> e in es && Under(p, e.key)
    ensures Distinct(es) ==> Distinct(FilterAll(PrefixFilters(p), es))
  {
    NewKeyOfKey(p);
    KeyShape(p);
    if p != ROOT {
      var f := KeyPrefix(p + [SLASH]);
      var fs := [f];
      assert fs[1..] == [];
      assert PrefixFilters(p) == fs && FilterAll(fs, es) == FilterBy(f, es);
      FilterIn(f, es);
      if Distinct(es) { FilterDistinct(f, es); }
    }
  }

  lemma {:induction false} SortSame(orders: seq<Order>, es: seq<Entry>)
    ensures multiset(NaiveOrder(orders, es)) == multiset(es)
    ensures forall e :: e in NaiveOrder(orders, es) <==> e in es
  {
    if orders != [] { SortIn(orders, es); }
    forall e ensures e in NaiveOrder(orders, es) <==> e in es {
      assert e in multiset(NaiveOrder(orders, es)) <==> e in multiset(es);
    }
  }

  lemma {:induction false} OnceEach(es: seq<Entry>, e: Entry)
    requires Distinct(es)
    ensures multiset(es)[e] <= 1
    ensures e in es <==> multiset(es)[e] == 1
  {
    if e in es {
      var k :| 0 <= k < |es| && es[k] == e;
      assert es == es[..k] + [e] + es[k + 1..];
      assert e !in es[..k] && e !in es[k + 1..];
    }
  }

  lemma {:induction false} SameEntries(a: seq<Entry>, b: seq<Entry>)
    requires Distinct(a) && Distinct(b) && forall e :: e in a <==> e in b
    ensures multiset(a) == multiset(b)
  {
    forall e ensures multiset(a)[e] == multiset(b)[e] {
      OnceEach(a, e);
      OnceEach(b, e);
    }
  }

  lemma {:induction false} DistinctByMultiset(a: seq<Entry>, b: seq<Entry>)
    requires Distinct(a) && multiset(a) == multiset(b)
    ensures Distinct(b)
  {
    forall i, j | 0 <= i < j < |b| ensures b[i].key != b[j].key {
      OnceEach(a, b[i]);
      assert b == b[..i] + [b[i]] + b[i + 1..j] + [b[j]] + b[j + 1..];
      assert b[i] in multiset(b) && b[j] in multiset(b) && b[i] != b[j];
      var k :| 0 <= k < |a| && a[k] == b[i];
      var l :| 0 <= l < |a| && a[l] == b[j];
    }
  }

  lemma {:induction false} LessPrefixed(orders: seq<Order>, p: Str, a: Entry, b: Entry)
    requires PlainOrders(orders) && IsKey(p) && IsKey(a.key) && IsKey(b.key) && a.key != ROOT && b.key != ROOT
    ensures Less(orders, Prefixed(p)(a), Prefixed(p)(b)) <==> Less(orders, a, b)
  {
    if p != ROOT { ComparePrefix(p, a.key, b.key); }
    if orders != [] { LessPrefixed(orders[1..], p, a, b); }
  }

  /** Before the keys are completed. */
  lemma {:induction false} LocalResults(ms: seq<Mount>, q: Query, enums: seq<seq<Entry>>, h: Hit)
    requires Keyed(ms) && Stores(ms, enums, q.keysOnly) && h.mount < |ms| && IsKey(h.rest)
    ensures var rs := NaiveQueryApply(ChildQuery(q, h.rest), enums[h.mount]);
            && Distinct(rs)
            && (forall e :: e in rs <==> e in enums[h.mount] && Under(h.rest, e.key))
            && (PlainOrders(q.orders) && q.orders != [] ==> Ordered(q.orders, rs))
            && (UnmaskedHit(ms, h) ==> forall e <- rs :: IsKey(e.key) && e.key != ROOT)
  {
    var es := enums[h.mount];
    PrefixFilterIn(h.rest, es);
    var sel := FilterAll(PrefixFilters(h.rest), es);
    SortSame(q.orders, sel);
    DistinctByMultiset(sel, NaiveOrder(q.orders, sel));
    if PlainOrders(q.orders) && q.orders != [] { SortOrdered(q.orders, sel); }
    var rs := NaiveQueryApply(ChildQuery(q, h.rest), es);
    assert rs == NaiveOrder(q.orders, sel);
    if UnmaskedHit(ms, h) {
      forall e <- rs ensures IsKey(e.key) && e.key != ROOT {
        FindHomed(ms, h.mount, e.key);
      }
    }
  }

  /** The entry that a stored key gives to a query. */
  function Listed(m: Mount, k: Str, keysOnly: bool): Entry
    requires k in m.store
  {
    EntryOf(Child(m.prefix, k), m.store[k], keysOnly)
  }

  lemma {:induction false} ResultsOf(ms: seq<Mount>, q: Query, enums: seq<seq<Entry>>, h: Hit)
    requires Keyed(ms) && Stores(ms, enums, q.keysOnly) && h.mount < |ms| && IsKey(h.rest)
    ensures var rs := ChildResults(ms, q, enums, h);
            var m := ms[h.mount];
            forall e :: e in rs <==> exists k :: k in m.store && Under(h.rest, k) && e == Listed(m, k, q.keysOnly)
  {
    var m, local := ms[h.mount], NaiveQueryApply(ChildQuery(q, h.rest), enums[h.mount]);
    LocalResults(ms, q, enums, h);
    MapIn(Prefixed(m.prefix), local);
    var rs := ChildResults(ms, q, enums, h);
    forall e <- rs
      ensures exists k :: k in m.store && Under(h.rest, k) && e == Listed(m, k, q.keysOnly)
    {
      var i :| 0 <= i < |rs| && rs[i] == e;
      var k := local[i].key;
      assert local[i] in local;
      assert k in m.store && Under(h.rest, k) && e == Listed(m, k, q.keysOnly);
    }
    forall e, k | k in m.store && Under(h.rest, k) && e == Listed(m, k, q.keysOnly)
      ensures e in rs
    {
      var l := EntryOf(k, m.store[k], q.keysOnly);
      assert l in local;
      var i :| 0 <= i < |local| && local[i] == l;
      assert rs[i] == e;
    }
  }

  lemma {:induction false} ResultsOrdered(ms: seq<Mount>, q: Query, enums: seq<seq<Entry>>, h: Hit)
    requires Keyed(ms) && Stores(ms, enums, q.keysOnly) && h.mount < |ms| && IsKey(h.rest) && UnmaskedHit(ms, h)
    ensures Distinct(ChildResults(ms, q, enums, h))
    ensures PlainOrders(q.orders) && q.orders != [] ==> Ordered(q.orders, ChildResults(ms, q, enums, h))
  {
    hide Less;
    var p, local := ms[h.mount].prefix, NaiveQueryApply(ChildQuery(q, h.rest), enums[h.mount]);
    assert ms[h.mount] in ms;
    LocalResults(ms, q, enums, h);
    MapIn(Prefixed(p), local);
    forall i, j | 0 <= i < j < |local| ensures Child(p, local[i].key) != Child(p, local[j].key) {
      assert local[i] in local && local[j] in local;
      ChildIsBelow(p, local[i].key);
      ChildIsBelow(p, local[j].key);
    }
    if PlainOrders(q.orders) && q.orders != [] {
      forall i, j | 0 <= i < j < |local| ensures Less(q.orders, Prefixed(p)(local[i]), Prefixed(p)(local[j])) {
        assert local[i] in local && local[j] in local;
        LessPrefixed(q.orders, p, local[i], local[j]);
      }
    }
  }

  // --- All the child queries together ------------------------------------------------------------

  ghost predicate Hits(ms: seq<Mount>, hits: seq<Hit>) {
    && (forall h <- hits :: h.mount < |ms| && IsKey(h.rest))
    && forall a, b :: 0 <= a < b < |hits| ==> hits[a].mount != hits[b].mount
  }

  ghost function Gather(ms: seq<Mount>, q: Query, enums: seq<seq<Entry>>, hits: seq<Hit>): seq<Entry>
    requires |ms| == |enums| && Hits(ms, hits)
  {
    if hits == [] then [] else
      Gather(ms, q, enums, hits[..|hits| - 1]) + ChildResults(ms, q, enums, hits[|hits| - 1])
  }

  lemma {:induction false} GatherIn(ms: seq<Mount>, q: Query, enums: seq<seq<Entry>>, hits: seq<Hit>, e: Entry)
    requires |ms| == |enums| && Hits(ms, hits)
    ensures e in Gather(ms, q, enums, hits) <==> exists h :: h in hits && e in ChildResults(ms, q, enums, h)
  {
    hide ChildResults;
    if hits != [] {
      var front, last := hits[..|hits| - 1], hits[|hits| - 1];
      GatherIn(ms, q, enums, front, e);
      assert hits == front + [last];
      assert forall h :: h in hits <==> h in front || h == last;
    }
  }

  lemma {:induction false} Apart(ms: seq<Mount>, q: Query, enums: seq<seq<Entry>>, g: Hit, h: Hit, a: Entry, b: Entry)
    requires Keyed(ms) && Stores(ms, enums, q.keysOnly) && g.mount < |ms| && h.mount < |ms| && IsKey(g.rest) && IsKey(h.rest)
    requires UnmaskedHit(ms, g) && UnmaskedHit(ms, h)
    requires g.mount != h.mount && a in ChildResults(ms, q, enums, g) && b in ChildResults(ms, q, enums, h)
    ensures a.key != b.key
  {
    ResultsOf(ms, q, enums, g);
    ResultsOf(ms, q, enums, h);
    hide ChildResults, Keyed, Stores, Lookup;
    var k :| k in ms[g.mount].store && Under(g.rest, k) && a == Listed(ms[g.mount], k, q.keysOnly);
    var l :| l in ms[h.mount].store && Under(h.rest, l) && b == Listed(ms[h.mount], l, q.keysOnly);
    assert Homed(ms, g.mount, k) && Homed(ms, h.mount, l);
  }

  /** What earlier hits gave shares no key with what the next one gives. */
  lemma {:induction false} GatherApart(ms: seq<Mount>, q: Query, enums: seq<seq<Entry>>, hits: seq<Hit>, i: nat)
    requires Keyed(ms) && Stores(ms, enums, q.keysOnly) && Hits(ms, hits) && Unmasked(ms, hits) && i < |hits|
    ensures forall a, b :: a in Gather(ms, q, enums, hits[..i]) && b in ChildResults(ms, q, enums, hits[i]) ==> a.key != b.key
  {
    hide Gather, Keyed, Enumerates, ChildResults, UnmaskedHit;
    forall a, b | a in Gather(ms, q, enums, hits[..i]) && b in ChildResults(ms, q, enums, hits[i])
      ensures a.key != b.key
    {
      GatherIn(ms, q, enums, hits[..i], a);
      var g :| g in hits[..i] && a in ChildResults(ms, q, enums, g);
      Apart(ms, q, enums, g, hits[i], a, b);
    }
  }

  lemma {:induction false} GatherDistinct(ms: seq<Mount>, q: Query, enums: seq<seq<Entry>>, hits: seq<Hit>)
    requires Keyed(ms) && Stores(ms, enums, q.keysOnly) && Hits(ms, hits) && Unmasked(ms, hits)
    ensures Distinct(Gather(ms, q, enums, hits))
  {
    if hits != [] {
      hide Keyed, Stores, ChildResults, Ordered, UnmaskedHit;
      var n := |hits| - 1;
      GatherDistinct(ms, q, enums, hits[..n]);
      GatherApart(ms, q, enums, hits, n);
      ResultsOrdered(ms, q, enums, hits[n]);
    }
  }

  lemma {:induction false} LookupHits(ms: seq<Mount>, key: Str)
    requires Keyed(ms) && IsKey(key)
    ensures Hits(ms, LookupAllFrom(ms, key, 0))
  {
    HitsFrom(ms, key, 0);
    RootIsKey();
    forall h <- LookupAllFrom(ms, key, 0) ensures h.mount < |ms| && IsKey(h.rest) {
      if !IsAncestorOf(key, ms[h.mount].prefix) { NewKeyIsKey(TrimPrefix(key, ms[h.mount].prefix)); }
    }
  }

  /** What the flat map holds under the query's prefix is listed by the store it lives in. */
  lemma {:induction false} FlatIsListed(ms: seq<Mount>, q: Query, enums: seq<seq<Entry>>, x: Str) returns (h: Hit, k: Str)
    requires Keyed(ms) && Stores(ms, enums, q.keysOnly) && x in Flat(ms) && Under(NewKey(q.prefix), x)
    requires Hits(ms, LookupAllFrom(ms, NewKey(q.prefix), 0))
    ensures h in LookupAllFrom(ms, NewKey(q.prefix), 0) && k in ms[h.mount].store && Under(h.rest, k)
    ensures Homed(ms, h.mount, k) && x == Child(ms[h.mount].prefix, k) && Flat(ms)[x] == ms[h.mount].store[k]
  {
    hide LookupAllFrom, Under, NewKey;
    var key := NewKey(q.prefix);
    NewKeyIsKey(q.prefix);
    FlatKeysAreKeys(ms);
    FlatIsFind(ms, x);
    LookupFirst(ms, x, 0);
    var n := Lookup(ms, x).value;
    assert ms[n] in ms;
    RestPutsBack(ms[n].prefix, x);
    k := Rest(ms[n].prefix, x);
    FindHomed(ms, n, k);
    Coverage(ms, key, n, k);
    h :| h in LookupAllFrom(ms, key, 0) && h.mount == n && Under(h.rest, k);
  }

  /** Without masked keys the child queries find exactly the entries of the flat map under the prefix. */
  lemma {:induction false} GatherIsSelected(ms: seq<Mount>, q: Query, enums: seq<seq<Entry>>, flat: seq<Entry>, e: Entry)
    requires Keyed(ms) && Stores(ms, enums, q.keysOnly) && Enumerates(flat, Flat(ms), q.keysOnly)
    requires Hits(ms, LookupAllFrom(ms, NewKey(q.prefix), 0))
    ensures e in FilterAll(PrefixFilters(q.prefix), flat) ==> e in Gather(ms, q, enums, LookupAllFrom(ms, NewKey(q.prefix), 0))
    ensures Unmasked(ms, LookupAllFrom(ms, NewKey(q.prefix), 0)) && e in Gather(ms, q, enums, LookupAllFrom(ms, NewKey(q.prefix), 0))
            ==> e in FilterAll(PrefixFilters(q.prefix), flat)
  {
    hide Gather, ChildResults, Keyed, FilterAll, Find, LookupAllFrom, Under, NewKey, Flat;
    var key := NewKey(q.prefix);
    NewKeyIsKey(q.prefix);
    SamePrefixFilters(q.prefix);
    PrefixFilterIn(key, flat);
    var hits := LookupAllFrom(ms, key, 0);
    GatherIn(ms, q, enums, hits, e);
    if Unmasked(ms, hits) && e in Gather(ms, q, enums, hits) {
      var h :| h in hits && e in ChildResults(ms, q, enums, h);
      ResultsOf(ms, q, enums, h);
      var m := ms[h.mount];
      var k :| k in m.store && Under(h.rest, k) && e == Listed(m, k, q.keysOnly);
      assert UnmaskedHit(ms, h);
      Coverage(ms, key, h.mount, k);
      FindHomed(ms, h.mount, k);
    }
    if e in flat && Under(key, e.key) {
      var h, k := FlatIsListed(ms, q, enums, e.key);
      ResultsOf(ms, q, enums, h);
      assert e == Listed(ms[h.mount], k, q.keysOnly);
    }
  }

  lemma {:induction false} SamePrefixFilters(p: Str)
    ensures PrefixFilters(p) == PrefixFilters(NewKey(p))
  {
    NewKeyIsKey(p);
    NewKeyOfKey(NewKey(p));
    if p == [] { NewKeyOfEmpty(); }
  }

  lemma {:induction false} ExtendMergeable(orders: seq<Order>, heads: seq<seq<Entry>>, results: seq<Entry>)
    requires Mergeable(orders, heads) && results != [] && Ordered(orders, results)
    requires forall a, b :: a in Pool(heads) && b in results ==> a.key != b.key
    ensures Mergeable(orders, heads + [results])
  {
    hide Ordered, Less;
    var lists := heads + [results];
    forall i, j, a: Entry, b: Entry | 0 <= i < j < |lists| && a in lists[i] && b in lists[j] ensures a.key != b.key {
      PoolIn(heads, a);
      if j == |heads| { assert a in Pool(heads); }
    }
  }

  // --- The query ---------------------------------------------------------------------------------

  /** After the prefix: filters, offset and limit, applied to the merged results. */
  function Finish(q: Query, merged: seq<Entry>): seq<Entry> {
    NaiveLimit(q.limit, NaiveOffset(q.offset, FilterAll(q.filters, merged)))
  }

  lemma {:induction false} SelectedDistinct(q: Query, m: map<Str, Str>, flat: seq<Entry>)
    requires Enumerates(flat, m, q.keysOnly)
    ensures Distinct(FilterAll(PrefixFilters(q.prefix), flat))
  {
    NewKeyIsKey(q.prefix);
    SamePrefixFilters(q.prefix);
    PrefixFilterIn(NewKey(q.prefix), flat);
  }

  lemma {:induction false} GatherFlat(ms: seq<Mount>, q: Query, enums: seq<seq<Entry>>, flat: seq<Entry>, hits: seq<Hit>)
    requires Keyed(ms) && Stores(ms, enums, q.keysOnly) && Enumerates(flat, Flat(ms), q.keysOnly)
    requires Hits(ms, hits) && hits == LookupAllFrom(ms, NewKey(q.prefix), 0) && Unmasked(ms, hits)
    ensures multiset(Gather(ms, q, enums, hits)) == multiset(FilterAll(PrefixFilters(q.prefix), flat))
  {
    hide Gather, Keyed, Enumerates, FilterAll, LookupAllFrom, NewKey, Flat, Unmasked, PrefixFilters;
    GatherDistinct(ms, q, enums, hits);
    var sel := FilterAll(PrefixFilters(q.prefix), flat);
    SelectedDistinct(q, Flat(ms), flat);
    forall e ensures e in Gather(ms, q, enums, hits) <==> e in sel { GatherIsSelected(ms, q, enums, flat, e); }
    SameEntries(Gather(ms, q, enums, hits), sel);
  }

  lemma {:induction false} SelectedUnder(q: Query, m: map<Str, Str>, flat: seq<Entry>, e: Entry)
    requires Enumerates(flat, m, q.keysOnly) && e in FilterAll(PrefixFilters(q.prefix), flat)
    ensures e.key in m && Under(NewKey(q.prefix), e.key)
  {
    NewKeyIsKey(q.prefix);
    SamePrefixFilters(q.prefix);
    PrefixFilterIn(NewKey(q.prefix), flat);
  }

  // --- Masking -----------------------------------------------------------------------------------

  /** Two hits that list the same full key. */
  lemma {:induction false} GatherTwice(ms: seq<Mount>, q: Query, enums: seq<seq<Entry>>, hits: seq<Hit>,
                                       a: nat, b: nat, d: Entry, e: Entry)
    requires |ms| == |enums| && Hits(ms, hits) && a < b < |hits|
    requires d in ChildResults(ms, q, enums, hits[a]) && e in ChildResults(ms, q, enums, hits[b]) && d.key == e.key
    ensures !Distinct(Gather(ms, q, enums, hits))
  {
    hide ChildResults, Hits;
    FrontHits(ms, hits);
    var front, last := hits[..|hits| - 1], hits[|hits| - 1];
    var before, more := Gather(ms, q, enums, front), ChildResults(ms, q, enums, last);
    if b == |hits| - 1 {
      assert front[a] in front;
      GatherIn(ms, q, enums, front, d);
      RepeatsAcross(before, more, d, e);
    } else {
      GatherTwice(ms, q, enums, front, a, b, d, e);
      RepeatsBefore(before, more);
    }
  }

  lemma FrontHits(ms: seq<Mount>, hits: seq<Hit>)
    requires Hits(ms, hits) && hits != []
    ensures Hits(ms, hits[..|hits| - 1]) && hits[|hits| - 1].mount < |ms|
  {
    assert hits[|hits| - 1] in hits;
  }

  lemma {:induction false} RepeatsAcross(before: seq<Entry>, more: seq<Entry>, d: Entry, e: Entry)
    requires d in before && e in more && d.key == e.key
    ensures !Distinct(before + more)
  {
    var i :| 0 <= i < |before| && before[i] == d;
    var j :| 0 <= j < |more| && more[j] == e;
    assert (before + more)[i] == d && (before + more)[|before| + j] == e;
  }

  lemma {:induction false} RepeatsBefore(before: seq<Entry>, more: seq<Entry>)
    requires !Distinct(before)
    ensures !Distinct(before + more)
  {
    var i, j :| 0 <= i < j < |before| && before[i].key == before[j].key;
    assert (before + more)[i] == before[i] && (before + more)[j] == before[j];
  }

  /** A masked key that is visible all the same is listed by two stores. */
  lemma {:induction false} ListedTwice(ms: seq<Mount>, q: Query, enums: seq<seq<Entry>>, hits: seq<Hit>, g: Hit, k: Str)
    requires Keyed(ms) && Stores(ms, enums, q.keysOnly)
    requires Hits(ms, hits) && hits == LookupAllFrom(ms, NewKey(q.prefix), 0)
    requires g in hits && k in ms[g.mount].store && Under(g.rest, k) && !Homed(ms, g.mount, k)
    requires var x := Child(ms[g.mount].prefix, k); x in Flat(ms) && Under(NewKey(q.prefix), x)
    ensures !Distinct(Gather(ms, q, enums, hits))
  {
    hide Gather, ChildResults, Keyed, Flat, LookupAllFrom, Under, NewKey, Enumerates, Lookup, Distinct;
    var d := Listed(ms[g.mount], k, q.keysOnly);
    var h, l := FlatIsListed(ms, q, enums, d.key);
    var e := Listed(ms[h.mount], l, q.keysOnly);
    ResultsOf(ms, q, enums, g);
    ResultsOf(ms, q, enums, h);
    var i :| 0 <= i < |hits| && hits[i] == g;
    var j :| 0 <= j < |hits| && hits[j] == h;
    if i < j { GatherTwice(ms, q, enums, hits, i, j, d, e); } else { GatherTwice(ms, q, enums, hits, j, i, e, d); }
  }

  /** A masked key that is listed is either not in the flat map or there twice. */
  lemma {:induction false} MaskedShows(ms: seq<Mount>, q: Query, enums: seq<seq<Entry>>, flat: seq<Entry>,
                                       hits: seq<Hit>, g: Hit, k: Str)
    requires Keyed(ms) && Stores(ms, enums, q.keysOnly) && Enumerates(flat, Flat(ms), q.keysOnly)
    requires Hits(ms, hits) && hits == LookupAllFrom(ms, NewKey(q.prefix), 0)
    requires g in hits && k in ms[g.mount].store && Under(g.rest, k) && !Homed(ms, g.mount, k)
    ensures multiset(Gather(ms, q, enums, hits)) != multiset(FilterAll(PrefixFilters(q.prefix), flat))
  {
    hide Gather, ChildResults, Keyed, FilterAll, Flat, LookupAllFrom, Under, NewKey, PrefixFilters, Enumerates,
         Homed, Distinct;
    var sel, d := FilterAll(PrefixFilters(q.prefix), flat), Listed(ms[g.mount], k, q.keysOnly);
    SelectedDistinct(q, Flat(ms), flat);
    if multiset(Gather(ms, q, enums, hits)) == multiset(sel) {
      DistinctByMultiset(sel, Gather(ms, q, enums, hits));
      ResultsOf(ms, q, enums, g);
      GatherIn(ms, q, enums, hits, d);
      assert d in multiset(sel);
      SelectedUnder(q, Flat(ms), flat, d);
      ListedTwice(ms, q, enums, hits, g, k);
    }
  }

  /** The child queries together give the visible entries under the prefix, each once, exactly if no
      store lists a key that a more specific mount masks. */
  lemma {:induction false} MaskingExact(ms: seq<Mount>, q: Query, enums: seq<seq<Entry>>, flat: seq<Entry>, hits: seq<Hit>)
    requires Keyed(ms) && Stores(ms, enums, q.keysOnly) && Enumerates(flat, Flat(ms), q.keysOnly)
    requires Hits(ms, hits) && hits == LookupAllFrom(ms, NewKey(q.prefix), 0)
    ensures multiset(Gather(ms, q, enums, hits)) == multiset(FilterAll(PrefixFilters(q.prefix), flat))
            <==> Unmasked(ms, hits)
  {
    hide Gather, Keyed, Stores, Enumerates, FilterAll, Flat, LookupAllFrom, NewKey, PrefixFilters;
    if Unmasked(ms, hits) {
      GatherFlat(ms, q, enums, flat, hits);
    } else {
      var g :| g in hits && g.mount < |ms| && !UnmaskedHit(ms, g);
      var k :| k in ms[g.mount].store && Under(g.rest, k) && !Homed(ms, g.mount, k);
      MaskedShows(ms, q, enums, flat, hits, g, k);
    }
  }

  /** An ordered merge of what was gathered, finished, is the naive query on the flat map. */
  lemma {:induction false} OrderedQuery(q: Query, flat: seq<Entry>, merged: seq<Entry>)
    requires PlainOrders(q.orders) && q.orders != [] && Ordered(q.orders, merged)
    requires Distinct(FilterAll(PrefixFilters(q.prefix), flat))
    requires multiset(merged) == multiset(FilterAll(PrefixFilters(q.prefix), flat))
    ensures Finish(q, merged) == NaiveQueryApply(q, flat)
  {
    hide Ordered, FilterAll, Less, PrefixFilters;
    var sel := FilterAll(PrefixFilters(q.prefix), flat);
    SortOrdered(q.orders, sel);
    OrderedUnique(q.orders, merged, Sort(q.orders, sel));
    FilterAllSort(q.filters, q.orders, sel);
  }

  lemma {:induction false} EnumerationExists(m: map<Str, Str>, keysOnly: bool) returns (es: seq<Entry>)
    ensures Enumerates(es, m, keysOnly)
    decreases |m|
  {
    if m == map[] { return []; }
    hide Enumerates;
    var k :| k in m;
    var rest := EnumerationExists(m - {k}, keysOnly);
    es := [EntryOf(k, m[k], keysOnly)] + rest;
    EnumerateOneMore(m, k, keysOnly, rest);
  }

  lemma {:induction false} EnumerateOneMore(m: map<Str, Str>, k: Str, keysOnly: bool, rest: seq<Entry>)
    requires k in m && Enumerates(rest, m - {k}, keysOnly)
    ensures Enumerates([EntryOf(k, m[k], keysOnly)] + rest, m, keysOnly)
  {
    var es := [EntryOf(k, m[k], keysOnly)] + rest;
    forall l <- m ensures EntryOf(l, m[l], keysOnly) in es {
      if l == k { assert es[0] in es; } else { assert l in m - {k}; }
    }
    forall i, j | 0 <= i < j < |es| ensures es[i].key != es[j].key {
      assert es[j] in rest;
    }
  }

  function Outside(p: Str, es: seq<Entry>): seq<Entry> {
    if es == [] then [] else (if Under(p, es[0].key) then [] else [es[0]]) + Outside(p, es[1..])
  }

  lemma {:induction false} OutsideIn(p: Str, es: seq<Entry>)
    ensures forall e :: e in Outside(p, es) <==> e in es && !Under(p, e.key)
    ensures Distinct(es) ==> Distinct(Outside(p, es))
    ensures p == ROOT ==> Outside(p, es) == []
  {
    if es != [] { OutsideIn(p, es[1..]); }
  }

  lemma {:induction false} FilterKeeps(f: Filter, es: seq<Entry>, more: seq<Entry>)
    requires forall e <- es :: Passes(f, e)
    requires forall e <- more :: !Passes(f, e)
    ensures FilterBy(f, es + more) == es
    decreases |es| + |more|
  {
    if es != [] {
      FilterKeeps(f, es[1..], more);
      assert (es + more)[1..] == es[1..] + more;
    } else if more != [] {
      FilterKeeps(f, es, more[1..]);
      assert (es + more)[1..] == es + more[1..];
    }
  }

  /** Without orders, what was gathered in any order is what some enumeration of the flat map selects. */
  lemma {:induction false} SomeEnumeration(m: map<Str, Str>, q: Query, flat: seq<Entry>, merged: seq<Entry>) returns (es: seq<Entry>)
    requires Enumerates(flat, m, q.keysOnly) && Distinct(FilterAll(PrefixFilters(q.prefix), flat))
    requires multiset(merged) == multiset(FilterAll(PrefixFilters(q.prefix), flat))
    ensures Enumerates(es, m, q.keysOnly) && FilterAll(PrefixFilters(q.prefix), es) == merged
  {
    var p := NewKey(q.prefix);
    NewKeyIsKey(q.prefix);
    SamePrefixFilters(q.prefix);
    PrefixFilterIn(p, flat);
    OutsideIn(p, flat);
    var sel := FilterAll(PrefixFilters(q.prefix), flat);
    DistinctByMultiset(sel, merged);
    forall e ensures e in merged <==> e in sel { assert e in multiset(merged) <==> e in multiset(sel); }
    es := merged + Outside(p, flat);
    OnlyMerged(p, merged, Outside(p, flat));
  }

  lemma {:induction false} OnlyMerged(p: Str, merged: seq<Entry>, rest: seq<Entry>)
    requires IsKey(p)
    requires forall e <- merged :: Under(p, e.key)
    requires forall e <- rest :: !Under(p, e.key)
    requires p == ROOT ==> rest == []
    ensures FilterAll(PrefixFilters(p), merged + rest) == merged
  {
    NewKeyOfKey(p);
    KeyShape(p);
    if p != ROOT {
      var f := KeyPrefix(p + [SLASH]);
      var fs := [f];
      assert fs[1..] == [];
      FilterKeeps(f, merged, rest);
    } else {
      assert merged + rest == merged;
    }
  }

  lemma NothingToMerge(orders: seq<Order>)
    ensures Mergeable(orders, []) && Pool([]) == multiset{}
  {
  }

  const FOO: Str := [SLASH, 'f' as int]
  const FOO_THING: Str := [SLASH, 'f' as int, SLASH, 't' as int]

  /** An empty store at /f, and the root store with the key /f/t. */
  function MaskingMounts(): seq<Mount> {
    [Mount(FOO, map[]), Mount(ROOT, map[FOO_THING := []])]
  }

  lemma MaskingKeys()
    ensures IsKey(FOO) && IsKey(FOO_THING)
  {
    var f: Str, t: Str := ['f' as int], ['t' as int];
    var one: seq<Str>, two: seq<Str> := [f], [f, t];
    assert one[1..] == [] && two[1..] == [t] && [t][1..] == [];
    assert Join([t]) == [SLASH] + t + Join([]);
    assert Join(one) == [SLASH] + f + Join([]) == FOO;
    assert Join(two) == [SLASH] + f + Join([t]) == FOO_THING;
    assert AllNames(one) && FOO == Render(one);
    assert AllNames(two) && FOO_THING == Render(two);
  }

  lemma {:induction false} MaskingFlat()
    ensures Keyed(MaskingMounts()) && Flat(MaskingMounts()) == map[]
    ensures Lookup(MaskingMounts(), FOO_THING) == Some(0)
  {
    var ms := MaskingMounts();
    MaskingKeys();
    RootIsKey();
    hide NewKey, IsKey;
    assert IsAncestorOf(FOO, FOO_THING);
    assert LookupFrom(ms, FOO_THING, 0) == Some(0);
    assert Find(ms, FOO_THING) == None;
    assert forall key <- FlatKeys(ms) :: key == FOO_THING;
  }

  /** The mount shows nothing, and yet its query lists the masked key. */
  lemma {:induction false} MaskedKeyIsListed(enums: seq<seq<Entry>>)
    requires Stores(MaskingMounts(), enums, false)
    ensures Keyed(MaskingMounts()) && Flat(MaskingMounts()) == map[]
    ensures Hits(MaskingMounts(), LookupAllFrom(MaskingMounts(), NewKey([]), 0))
    ensures Gather(MaskingMounts(), NO_QUERY, enums, LookupAllFrom(MaskingMounts(), NewKey([]), 0)) != []
  {
    var ms := MaskingMounts();
    MaskingFlat();
    RootIsKey();
    NewKeyOfEmpty();
    assert TrimPrefix(ROOT, ROOT) == [];
    assert Rest(ROOT, ROOT) == ROOT;
    hide NewKey, IsKey, Keyed, Flat, Lookup, LookupAllFrom, Stores;
    LookupHits(ms, ROOT);
    var hits := LookupAllFrom(ms, ROOT, 0);
    Reached(ms, ROOT, 0, 1);
    HitsFrom(ms, ROOT, 0);
    var h :| h in hits && h.mount == 1;
    assert h.rest == ROOT && !Homed(ms, 1, FOO_THING);
    MaskedShows(ms, NO_QUERY, enums, [], hits, h, FOO_THING);
  }

  method FilterResults(q: Query, merged: seq<Entry>) returns (out: seq<Entry>)
    ensures out == Finish(q, merged)
  {
    out := merged;
    var i := 0;
    while i < |q.filters|
      invariant i <= |q.filters| && FilterAll(q.filters[i..], out) == FilterAll(q.filters, merged)
    {
      out := FilterBy(q.filters[i], out);
      i := i + 1;
    }
    if q.offset > 0 { out := NaiveOffset(q.offset, out); }
    if q.limit > 0 { out := NaiveLimit(q.limit, out); }
  }

  method MergeChildren(ms: seq<Mount>, q: Query, enums: seq<seq<Entry>>, hits: seq<Hit>) returns (merged: seq<Entry>)
    requires Keyed(ms) && Stores(ms, enums, q.keysOnly) && Hits(ms, hits)
    ensures multiset(merged) == multiset(Gather(ms, q, enums, hits))
    ensures Unmasked(ms, hits) && PlainOrders(q.orders) && q.orders != [] ==> Ordered(q.orders, merged)
  {
    hide Keyed, Enumerates, Ordered, Mergeable, ChildResults, Pool, UnmaskedHit;
    var qs := new QuerySet(q.orders);
    ghost var sorted := Unmasked(ms, hits) && PlainOrders(q.orders) && q.orders != [];
    var i := 0;
    NothingToMerge(q.orders);
    while i < |hits|
      invariant i <= |hits| && fresh(qs) && qs.Valid() && qs.orders == q.orders
      invariant Pool(qs.heads) == multiset(Gather(ms, q, enums, hits[..i]))
      invariant sorted ==> Mergeable(q.orders, qs.heads)
    {
      var results := ChildResults(ms, q, enums, hits[i]);
      assert hits[..i + 1][..i] == hits[..i];
      if sorted && results != [] { MergeNext(ms, q, enums, hits, i, qs.heads); }
      assert qs.heads + [] == qs.heads;
      qs.AddResults(results);
      i := i + 1;
    }
    assert hits[..|hits|] == hits;
    merged := Drain(qs);
  }

  lemma {:induction false} MergeNext(ms: seq<Mount>, q: Query, enums: seq<seq<Entry>>, hits: seq<Hit>, i: nat,
                                     heads: seq<seq<Entry>>)
    requires Keyed(ms) && Stores(ms, enums, q.keysOnly) && Hits(ms, hits) && Unmasked(ms, hits) && i < |hits|
    requires PlainOrders(q.orders) && q.orders != [] && Mergeable(q.orders, heads)
    requires Pool(heads) == multiset(Gather(ms, q, enums, hits[..i])) && ChildResults(ms, q, enums, hits[i]) != []
    ensures Mergeable(q.orders, heads + [ChildResults(ms, q, enums, hits[i])])
  {
    hide Keyed, Enumerates, Ordered, Mergeable, ChildResults, Pool, UnmaskedHit, Gather;
    GatherApart(ms, q, enums, hits, i);
    ResultsOrdered(ms, q, enums, hits[i]);
    ExtendMergeable(q.orders, heads, ChildResults(ms, q, enums, hits[i]));
  }

  /** The hits of a query. */
  function HitsOf(d: MountedDatastore, q: Query): seq<Hit>
    reads d
  {
    LookupAllFrom(d.mounts, NewKey(q.prefix), 0)
  }

  /** Unless a hit store lists a masked key: with key and value orders the result is that of the naive
      query on the visible map; whatever the orders, that of the query without orders on some enumeration
      of it. A query that only has a prefix gives the visible entries exactly if no masked key is listed. */
  method RunQuery(d: MountedDatastore, q: Query, enums: seq<seq<Entry>>) returns (out: seq<Entry>)
    requires d.Valid() && Stores(d.mounts, enums, q.keysOnly)
    ensures Unmasked(d.mounts, HitsOf(d, q)) && PlainOrders(q.orders) && q.orders != [] ==>
              forall flat :: Enumerates(flat, d.Contents(), q.keysOnly) ==> out == NaiveQueryApply(q, flat)
    ensures Unmasked(d.mounts, HitsOf(d, q)) ==>
              exists flat :: Enumerates(flat, d.Contents(), q.keysOnly) && out == NaiveQueryApply(q.(orders := []), flat)
    ensures q.filters == [] && q.offset <= 0 && q.limit <= 0 ==>
              forall flat :: Enumerates(flat, d.Contents(), q.keysOnly) ==>
                (multiset(out) == multiset(FilterAll(PrefixFilters(q.prefix), flat)) <==> Unmasked(d.mounts, HitsOf(d, q)))
  {
    hide Keyed, Enumerates, Ordered, Flat, LookupAllFrom, FilterAll, Unmasked, PrefixFilters;
    var prefix := NewKey(q.prefix);
    NewKeyIsKey(q.prefix);
    LookupHits(d.mounts, prefix);
    var hits := LookupAll(d.mounts, prefix);
    var merged := MergeChildren(d.mounts, q, enums, hits);
    out := FilterResults(q, merged);
    forall flat | Enumerates(flat, d.Contents(), q.keysOnly)
      ensures multiset(merged) == multiset(FilterAll(PrefixFilters(q.prefix), flat)) <==> Unmasked(d.mounts, hits)
      ensures Distinct(FilterAll(PrefixFilters(q.prefix), flat))
    {
      MaskingExact(d.mounts, q, enums, flat, hits);
      SelectedDistinct(q, d.Contents(), flat);
    }
    if Unmasked(d.mounts, hits) && PlainOrders(q.orders) && q.orders != [] {
      forall flat | Enumerates(flat, d.Contents(), q.keysOnly) ensures out == NaiveQueryApply(q, flat) {
        OrderedQuery(q, flat, merged);
      }
    }
    if Unmasked(d.mounts, hits) {
      ghost var flat := EnumerationExists(d.Contents(), q.keysOnly);
      ghost var es := SomeEnumeration(d.Contents(), q, flat, merged);
      assert out == NaiveQueryApply(q.(orders := []), es);
    }
    if q.filters == [] && q.offset <= 0 && q.limit <= 0 { PlainFinish(q, merged); }
  }

  lemma PlainFinish(q: Query, merged: seq<Entry>)
    requires q.filters == [] && q.offset <= 0 && q.limit <= 0
    ensures Finish(q, merged) == merged
  {
  }
}
