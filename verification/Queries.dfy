/** Entries, filters, orders and the naive query pipeline (datastore/query). */
module Queries {
  import opened Keys

  datatype Entry = Entry(key: Str, value: Str, size: int)

  datatype Op = Equal | NotEqual | GreaterThan | GreaterThanOrEqual | LessThan | LessThanOrEqual

  datatype Filter =
    | ValueCompare(op: Op, value: Str)
    | KeyCompare(op: Op, key: Str)
    | KeyPrefix(prefix: Str)
    | Custom(test: Entry -> bool)

  datatype Order = ByValue | ByValueDescending | ByKey | ByKeyDescending | ByFunction(compare: (Entry, Entry) -> int)

  datatype Query = Query(prefix: Str, filters: seq<Filter>, orders: seq<Order>, limit: int, offset: int, keysOnly: bool)

  const NO_QUERY := Query([], [], [], 0, 0, false)

  // --- Comparison --------------------------------------------------------------------------------

  /** strings.Compare and bytes.Compare. */
  function Compare(a: Str, b: Str): (c: int)
    ensures c == -1 || c == 0 || c == 1
  {
    if a == [] then (if b == [] then 0 else -1)
    else if b == [] then 1
    else if a[0] < b[0] then -1
    else if a[0] > b[0] then 1
    else Compare(a[1..], b[1..])
  }

  lemma {:induction false} CompareEqual(a: Str, b: Str)
    ensures Compare(a, b) == 0 <==> a == b
  {
    if a != [] && b != [] && a[0] == b[0] {
      CompareEqual(a[1..], b[1..]);
      assert a == [a[0]] + a[1..] && b == [b[0]] + b[1..];
    }
  }

  lemma {:induction false} CompareFlip(a: Str, b: Str)
    ensures Compare(b, a) == -Compare(a, b)
  {
    if a != [] && b != [] && a[0] == b[0] { CompareFlip(a[1..], b[1..]); }
  }

  lemma {:induction false} CompareTrans(a: Str, b: Str, c: Str)
    requires Compare(a, b) < 0 && Compare(b, c) < 0
    ensures Compare(a, c) < 0
  {
    if a != [] && a[0] == b[0] == c[0] { CompareTrans(a[1..], b[1..], c[1..]); }
  }

  lemma {:induction false} ComparePrefix(p: Str, a: Str, b: Str)
    ensures Compare(p + a, p + b) == Compare(a, b)
  {
    if p == [] {
      assert p + a == a && p + b == b;
    } else {
      assert (p + a)[1..] == p[1..] + a && (p + b)[1..] == p[1..] + b;
      ComparePrefix(p[1..], a, b);
    }
  }

  predicate Holds(op: Op, cmp: int) {
    match op
    case Equal => cmp == 0
    case NotEqual => cmp != 0
    case GreaterThan => cmp > 0
    case GreaterThanOrEqual => cmp >= 0
    case LessThan => cmp < 0
    case LessThanOrEqual => cmp <= 0
  }

  predicate Passes(f: Filter, e: Entry) {
    match f
    case ValueCompare(op, value) => Holds(op, Compare(e.value, value))
    case KeyCompare(op, key) => Holds(op, Compare(e.key, key))
    case KeyPrefix(prefix) => HasPrefix(e.key, prefix)
    case Custom(test) => test(e)
  }

  function OrderCompare(o: Order, a: Entry, b: Entry): int {
    match o
    case ByValue => Compare(a.value, b.value)
    case ByValueDescending => -Compare(a.value, b.value)
    case ByKey => Compare(a.key, b.key)
    case ByKeyDescending => -Compare(a.key, b.key)
    case ByFunction(compare) => compare(a, b)
  }

  /** Orders are tried in turn; a comparison other than -1 and 1 decides nothing; keys break ties. */
  predicate Less(orders: seq<Order>, a: Entry, b: Entry) {
    if orders == [] then Compare(a.key, b.key) < 0
    else
      var c := OrderCompare(orders[0], a, b);
      if c == -1 then true else if c == 1 then false else Less(orders[1..], a, b)
  }

  // --- The pipeline ------------------------------------------------------------------------------

  function FilterBy(f: Filter, es: seq<Entry>): seq<Entry> {
    if es == [] then []
    else if Passes(f, es[0]) then [es[0]] + FilterBy(f, es[1..])
    else FilterBy(f, es[1..])
  }

  function FilterAll(fs: seq<Filter>, es: seq<Entry>): seq<Entry> {
    if fs == [] then es else FilterAll(fs[1..], FilterBy(fs[0], es))
  }

  function Insert(orders: seq<Order>, e: Entry, es: seq<Entry>): seq<Entry> {
    if es == [] then [e]
    else if Less(orders, es[0], e) then [es[0]] + Insert(orders, e, es[1..])
    else [e] + es
  }

  function Sort(orders: seq<Order>, es: seq<Entry>): seq<Entry> {
    if es == [] then [] else Insert(orders, es[0], Sort(orders, es[1..]))
  }

  function NaiveOrder(orders: seq<Order>, es: seq<Entry>): seq<Entry> {
    if orders == [] then es else Sort(orders, es)
  }

  function NaiveOffset(offset: int, es: seq<Entry>): seq<Entry> {
    if offset <= 0 then es else if offset >= |es| then [] else es[offset..]
  }

  /** 0 means no limit, and a negative limit is never reached. */
  function NaiveLimit(limit: int, es: seq<Entry>): seq<Entry> {
    if limit <= 0 || limit >= |es| then es else es[..limit]
  }

  function PrefixFilters(prefix: Str): seq<Filter> {
    if prefix == [] || NewKey(prefix) == ROOT then [] else [KeyPrefix(NewKey(prefix) + [SLASH])]
  }

  /** What a query with the clean prefix p selects. */
  predicate Under(p: Str, k: Str) {
    p == ROOT || HasPrefix(k, p + [SLASH])
  }

  function NaiveQueryApply(q: Query, es: seq<Entry>): seq<Entry> {
    var selected := FilterAll(q.filters, FilterAll(PrefixFilters(q.prefix), es));
    NaiveLimit(q.limit, NaiveOffset(q.offset, NaiveOrder(q.orders, selected)))
  }

  // --- Key and value orders are total ------------------------------------------------------------

  predicate PlainOrders(orders: seq<Order>) {
    forall i :: 0 <= i < |orders| ==> !orders[i].ByFunction?
  }

  lemma {:induction false} LessTotal(orders: seq<Order>, a: Entry, b: Entry)
    requires PlainOrders(orders) && a.key != b.key
    ensures Less(orders, a, b) <==> !Less(orders, b, a)
  {
    CompareEqual(a.key, b.key);
    CompareFlip(a.key, b.key);
    if orders != [] {
      CompareFlip(a.value, b.value);
      LessTotal(orders[1..], a, b);
    }
  }

  lemma {:induction false} OrderCompareTrans(o: Order, a: Entry, b: Entry, c: Entry)
    requires !o.ByFunction? && OrderCompare(o, a, b) <= 0 && OrderCompare(o, b, c) <= 0
    ensures OrderCompare(o, a, c) <= 0
    ensures OrderCompare(o, a, c) == 0 <==> OrderCompare(o, a, b) == 0 && OrderCompare(o, b, c) == 0
  {
    CompareAll(a.key, b.key, c.key);
    CompareAll(a.value, b.value, c.value);
  }

  lemma {:induction false} CompareAll(a: Str, b: Str, c: Str)
    ensures Compare(a, b) <= 0 && Compare(b, c) <= 0 ==> Compare(a, c) <= 0
    ensures Compare(a, b) >= 0 && Compare(b, c) >= 0 ==> Compare(a, c) >= 0
    ensures Compare(a, b) <= 0 && Compare(b, c) <= 0 && Compare(a, c) == 0 ==> Compare(a, b) == 0 && Compare(b, c) == 0
    ensures Compare(a, b) >= 0 && Compare(b, c) >= 0 && Compare(a, c) == 0 ==> Compare(a, b) == 0 && Compare(b, c) == 0
    ensures Compare(a, b) == 0 && Compare(b, c) == 0 ==> Compare(a, c) == 0
  {
    CompareEqual(a, b);
    CompareEqual(b, c);
    CompareEqual(a, c);
    CompareFlip(a, b);
    CompareFlip(b, c);
    CompareFlip(a, c);
    if Compare(a, b) < 0 && Compare(b, c) < 0 { CompareTrans(a, b, c); }
    if Compare(a, b) > 0 && Compare(b, c) > 0 { CompareTrans(c, b, a); }
  }

  lemma {:induction false} LessTrans(orders: seq<Order>, a: Entry, b: Entry, c: Entry)
    requires PlainOrders(orders) && Less(orders, a, b) && Less(orders, b, c)
    ensures Less(orders, a, c)
  {
    if orders == [] {
      CompareTrans(a.key, b.key, c.key);
    } else {
      OrderCompareTrans(orders[0], a, b, c);
      if OrderCompare(orders[0], a, b) == 0 && OrderCompare(orders[0], b, c) == 0 {
        LessTrans(orders[1..], a, b, c);
      }
    }
  }

  // --- Sorting -----------------------------------------------------------------------------------

  predicate Distinct(es: seq<Entry>) {
    forall i, j :: 0 <= i < j < |es| ==> es[i].key != es[j].key
  }

  predicate Ordered(orders: seq<Order>, es: seq<Entry>) {
    forall i, j :: 0 <= i < j < |es| ==> Less(orders, es[i], es[j])
  }

  lemma {:induction false} InsertOrdered(orders: seq<Order>, e: Entry, es: seq<Entry>)
    requires PlainOrders(orders) && Ordered(orders, es)
    requires forall x <- es :: x.key != e.key
    ensures Ordered(orders, Insert(orders, e, es))
    ensures multiset(Insert(orders, e, es)) == multiset{e} + multiset(es)
  {
    hide Less;
    if es != [] {
      assert es == [es[0]] + es[1..];
      LessTotal(orders, es[0], e);
      if Less(orders, es[0], e) {
        var rest := Insert(orders, e, es[1..]);
        InsertOrdered(orders, e, es[1..]);
        forall x <- rest ensures Less(orders, es[0], x) {
          assert x in multiset(rest);
        }
        OrderedCons(orders, es[0], rest);
      } else {
        forall x <- es ensures Less(orders, e, x) {
          if x != es[0] { LessTrans(orders, e, es[0], x); }
        }
        OrderedCons(orders, e, es);
      }
    }
  }

  lemma OrderedCons(orders: seq<Order>, e: Entry, es: seq<Entry>)
    requires Ordered(orders, es) && forall x <- es :: Less(orders, e, x)
    ensures Ordered(orders, [e] + es)
  {
    hide Less;
  }

  /** Sort permutes its input into order, strictly, when keys are distinct. */
  lemma {:induction false} SortOrdered(orders: seq<Order>, es: seq<Entry>)
    requires PlainOrders(orders) && Distinct(es)
    ensures Ordered(orders, Sort(orders, es)) && multiset(Sort(orders, es)) == multiset(es)
  {
    if es != [] {
      assert es == [es[0]] + es[1..];
      SortOrdered(orders, es[1..]);
      forall x <- Sort(orders, es[1..]) ensures x.key != es[0].key {
        assert x in multiset(es[1..]);
        var i :| 0 <= i < |es[1..]| && es[1..][i] == x;
        assert es[i + 1] == x;
      }
      InsertOrdered(orders, es[0], Sort(orders, es[1..]));
    }
  }

  lemma {:induction false} LessIrreflexive(orders: seq<Order>, a: Entry)
    requires PlainOrders(orders)
    ensures !Less(orders, a, a)
  {
    CompareEqual(a.key, a.key);
    CompareEqual(a.value, a.value);
    if orders != [] { LessIrreflexive(orders[1..], a); }
  }

  /** There is one way to put entries in order, so it does not matter which algorithm sorts them. */
  lemma {:induction false} OrderedUnique(orders: seq<Order>, r: seq<Entry>, s: seq<Entry>)
    requires PlainOrders(orders) && Ordered(orders, r) && Ordered(orders, s) && multiset(r) == multiset(s)
    ensures r == s
  {
    hide Less, Compare;
    assert |multiset(r)| == |r| && |multiset(s)| == |s|;
    if r != [] {
      SameHead(orders, r, s);
      assert r == [r[0]] + r[1..] && s == [s[0]] + s[1..];
      assert multiset(r[1..]) == multiset(r) - multiset{r[0]};
      assert multiset(s[1..]) == multiset(s) - multiset{s[0]};
      OrderedUnique(orders, r[1..], s[1..]);
    }
  }

  lemma {:induction false} SameHead(orders: seq<Order>, r: seq<Entry>, s: seq<Entry>)
    requires PlainOrders(orders) && Ordered(orders, r) && Ordered(orders, s) && multiset(r) == multiset(s)
    requires r != [] && s != []
    ensures r[0] == s[0]
  {
    hide Less;
    assert r[0] in multiset(s) && s[0] in multiset(r);
    var i :| 0 <= i < |s| && s[i] == r[0];
    var j :| 0 <= j < |r| && r[j] == s[0];
    if i > 0 && j > 0 {
      LessTrans(orders, r[0], s[0], r[0]);
      LessIrreflexive(orders, r[0]);
    }
  }

  // --- Filtering and sorting commute -------------------------------------------------------------

  lemma {:induction false} FilterIn(f: Filter, es: seq<Entry>)
    ensures forall x <- FilterBy(f, es) :: x in es && Passes(f, x)
    ensures forall x <- es :: Passes(f, x) ==> x in FilterBy(f, es)
  {
    if es != [] {
      FilterIn(f, es[1..]);
      assert es == [es[0]] + es[1..];
    }
  }

  lemma {:induction false} FilterDistinct(f: Filter, es: seq<Entry>)
    requires Distinct(es)
    ensures Distinct(FilterBy(f, es))
  {
    if es != [] {
      FilterDistinct(f, es[1..]);
      FilterIn(f, es[1..]);
      forall x <- FilterBy(f, es[1..]) ensures x.key != es[0].key {
        var i :| 0 <= i < |es[1..]| && es[1..][i] == x;
        assert es[i + 1] == x;
      }
    }
  }

  lemma {:induction false} FilterInsert(f: Filter, orders: seq<Order>, e: Entry, es: seq<Entry>)
    requires PlainOrders(orders) && Ordered(orders, es)
    ensures FilterBy(f, Insert(orders, e, es)) == if Passes(f, e) then Insert(orders, e, FilterBy(f, es)) else FilterBy(f, es)
  {
    hide Less, Passes;
    if es == [] {
      assert [e][1..] == [];
    } else if Less(orders, es[0], e) {
      FilterInsert(f, orders, e, es[1..]);
      var ins := [es[0]] + Insert(orders, e, es[1..]);
      assert ins[1..] == Insert(orders, e, es[1..]);
      if Passes(f, es[0]) {
        var kept := [es[0]] + FilterBy(f, es[1..]);
        assert kept[1..] == FilterBy(f, es[1..]);
      }
    } else {
      assert ([e] + es)[1..] == es;
      var kept := FilterBy(f, es);
      FilterIn(f, es);
      if kept != [] && Less(orders, kept[0], e) {
        assert kept[0] in es;
        LessTrans(orders, es[0], kept[0], e);
        assert false;
      }
    }
  }

  lemma {:induction false} FilterSort(f: Filter, orders: seq<Order>, es: seq<Entry>)
    requires PlainOrders(orders) && Distinct(es)
    ensures FilterBy(f, Sort(orders, es)) == Sort(orders, FilterBy(f, es))
  {
    hide Less, Passes;
    if es != [] {
      FilterSort(f, orders, es[1..]);
      SortOrdered(orders, es[1..]);
      FilterInsert(f, orders, es[0], Sort(orders, es[1..]));
      if Passes(f, es[0]) {
        assert ([es[0]] + FilterBy(f, es[1..]))[1..] == FilterBy(f, es[1..]);
      }
    }
  }

  /** Filtering sorted entries is sorting filtered entries. */
  lemma {:induction false} FilterAllSort(fs: seq<Filter>, orders: seq<Order>, es: seq<Entry>)
    requires PlainOrders(orders) && Distinct(es)
    ensures FilterAll(fs, NaiveOrder(orders, es)) == NaiveOrder(orders, FilterAll(fs, es))
  {
    if fs != [] {
      if orders != [] { FilterSort(fs[0], orders, es); }
      FilterDistinct(fs[0], es);
      FilterAllSort(fs[1..], orders, FilterBy(fs[0], es));
    }
  }

  // --- Renaming keys -----------------------------------------------------------------------------

  function MapEntries(g: Entry -> Entry, es: seq<Entry>): seq<Entry> {
    if es == [] then [] else [g(es[0])] + MapEntries(g, es[1..])
  }

  lemma {:induction false} MapIn(g: Entry -> Entry, es: seq<Entry>)
    ensures |MapEntries(g, es)| == |es| && forall i :: 0 <= i < |es| ==> MapEntries(g, es)[i] == g(es[i])
  {
    if es != [] { MapIn(g, es[1..]); }
  }

  lemma {:induction false} MapFilter(g: Entry -> Entry, f: Filter, f': Filter, es: seq<Entry>)
    requires forall e <- es :: Passes(f, e) <==> Passes(f', g(e))
    ensures MapEntries(g, FilterBy(f, es)) == FilterBy(f', MapEntries(g, es))
  {
    hide Passes;
    if es != [] {
      MapFilter(g, f, f', es[1..]);
      var kept, mapped := FilterBy(f, es[1..]), MapEntries(g, es);
      assert mapped[1..] == MapEntries(g, es[1..]);
      if Passes(f, es[0]) {
        assert ([es[0]] + kept)[1..] == kept;
      }
    }
  }

  lemma {:induction false} MapFilterAll(g: Entry -> Entry, fs: seq<Filter>, fs': seq<Filter>, es: seq<Entry>)
    requires |fs| == |fs'|
    requires forall i, e :: 0 <= i < |fs| && e in es ==> (Passes(fs[i], e) <==> Passes(fs'[i], g(e)))
    ensures MapEntries(g, FilterAll(fs, es)) == FilterAll(fs', MapEntries(g, es))
  {
    if fs != [] {
      MapFilter(g, fs[0], fs'[0], es);
      FilterIn(fs[0], es);
      MapFilterAll(g, fs[1..], fs'[1..], FilterBy(fs[0], es));
    }
  }

  /** Both orders agree on any two entries, given their images. */
  ghost predicate SameLess(g: Entry -> Entry, orders: seq<Order>, orders': seq<Order>, es: seq<Entry>) {
    forall i, j :: 0 <= i < |es| && 0 <= j < |es| && i != j ==>
      (Less(orders, es[i], es[j]) <==> Less(orders', g(es[i]), g(es[j])))
  }

  lemma {:induction false} MapInsert(g: Entry -> Entry, orders: seq<Order>, orders': seq<Order>, e: Entry, es: seq<Entry>)
    requires forall x <- es :: Less(orders, x, e) <==> Less(orders', g(x), g(e))
    ensures MapEntries(g, Insert(orders, e, es)) == Insert(orders', g(e), MapEntries(g, es))
  {
    if es == [] {
      assert [e][1..] == [];
    } else {
      assert es[0] in es;
      var mapped := MapEntries(g, es);
      assert mapped[1..] == MapEntries(g, es[1..]);
      if Less(orders, es[0], e) {
        MapInsert(g, orders, orders', e, es[1..]);
        assert ([es[0]] + Insert(orders, e, es[1..]))[1..] == Insert(orders, e, es[1..]);
      } else {
        assert ([e] + es)[1..] == es;
      }
    }
  }

  lemma {:induction false} SortIn(orders: seq<Order>, es: seq<Entry>)
    ensures multiset(Sort(orders, es)) == multiset(es)
  {
    if es != [] {
      SortIn(orders, es[1..]);
      InsertIn(orders, es[0], Sort(orders, es[1..]));
      assert es == [es[0]] + es[1..];
    }
  }

  lemma {:induction false} InsertIn(orders: seq<Order>, e: Entry, es: seq<Entry>)
    ensures multiset(Insert(orders, e, es)) == multiset{e} + multiset(es)
  {
    if es != [] {
      InsertIn(orders, e, es[1..]);
      assert es == [es[0]] + es[1..];
    }
  }

  lemma {:induction false} MapSort(g: Entry -> Entry, orders: seq<Order>, orders': seq<Order>, es: seq<Entry>)
    requires SameLess(g, orders, orders', es)
    ensures MapEntries(g, Sort(orders, es)) == Sort(orders', MapEntries(g, es))
  {
    if es != [] {
      var rest, mapped := es[1..], MapEntries(g, es);
      assert mapped[1..] == MapEntries(g, rest);
      assert SameLess(g, orders, orders', rest) by {
        forall i, j | 0 <= i < |rest| && 0 <= j < |rest| && i != j
          ensures Less(orders, rest[i], rest[j]) <==> Less(orders', g(rest[i]), g(rest[j]))
        {
          assert rest[i] == es[i + 1] && rest[j] == es[j + 1];
        }
      }
      MapSort(g, orders, orders', rest);
      SortIn(orders, rest);
      forall x <- Sort(orders, rest) ensures Less(orders, x, es[0]) <==> Less(orders', g(x), g(es[0])) {
        assert x in multiset(rest);
        var i :| 0 <= i < |rest| && rest[i] == x;
        assert es[i + 1] == x;
      }
      MapInsert(g, orders, orders', es[0], Sort(orders, rest));
    }
  }

  lemma {:induction false} MapCut(g: Entry -> Entry, offset: int, limit: int, es: seq<Entry>)
    ensures MapEntries(g, NaiveLimit(limit, NaiveOffset(offset, es)))
         == NaiveLimit(limit, NaiveOffset(offset, MapEntries(g, es)))
  {
    MapIn(g, es);
    MapIn(g, NaiveLimit(limit, NaiveOffset(offset, es)));
  }
}
