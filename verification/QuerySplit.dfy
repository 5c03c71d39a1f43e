/** Splitting a query over a key prefix preserves its meaning (datastore/keytransform). */
module QuerySplit {
  import opened Words
  import opened Keys
  import opened Queries
  import opened KeyTransform

  /** The key without the prefix. */
  function Strip(p: Str, k: Str): Str {
    if p == ROOT || |k| < |p| then k else k[|p|..]
  }

  function Stripped(p: Str): Entry -> Entry {
    (e: Entry) => e.(key := Strip(p, e.key))
  }

  /** The entries of a child store as the wrapper shows them: those strictly below the prefix. */
  function View(p: Str, es: seq<Entry>): seq<Entry> {
    MapEntries(Stripped(p), FilterAll(PrefixFilters(p), es))
  }

  /** The Query method: split, ask the child, rename, finish naively. */
  function TransformedQuery(p: Str, q: Query, es: seq<Entry>): seq<Entry> {
    var (naive, child) := Prepared(PrefixTransform(p), q);
    NaiveQueryApply(naive, MapEntries(Stripped(p), NaiveQueryApply(child, es)))
  }

  ghost predicate AllKeys(es: seq<Entry>) {
    forall e <- es :: IsKey(e.key)
  }

  /** Filters that mention clean keys; an empty key prefix matches everything. */
  predicate CleanFilters(fs: seq<Filter>) {
    forall i :: 0 <= i < |fs| ==> CleanFilter(fs[i])
  }

  predicate CleanFilter(f: Filter) {
    match f
    case KeyCompare(_, key) => NewKey(key) == key
    case KeyPrefix(prefix) => prefix == [] || NewKey(prefix) == prefix
    case _ => true
  }

  /** k lies strictly below p, and what is left of it is a key. */
  predicate Below(p: Str, k: Str) {
    p == ROOT || (|k| > |p| + 1 && k[..|p|] == p && k[|p|] == SLASH)
  }

  lemma {:induction false} BelowFromFilter(p: Str, k: Str)
    requires IsKey(p) && IsKey(k) && p != ROOT && HasPrefix(k, p + [SLASH])
    ensures Below(p, k)
  {
    KeyShape(p);
    KeyShape(k);
    assert k[..|p| + 1] == p + [SLASH];
    assert k[|p|] == (p + [SLASH])[|p|] && k[..|p|] == (p + [SLASH])[..|p|];
  }

  /** InvertKey gives the stripped key, without a panic. */
  lemma {:induction false} InvertIsStrip(p: Str, k: Str)
    requires IsKey(p) && IsKey(k) && Below(p, k)
    ensures InvertKey(PrefixTransform(p), k) == Some(Strip(p, k))
  {
    KeyShape(k);
  }

  // --- Filters -----------------------------------------------------------------------------------

  lemma {:induction false} CompareRoot(k: Str)
    requires |k| > 1 && k[0] == SLASH
    ensures Compare(k, ROOT) == 1
  {
    assert ROOT[1..] == [];
  }

  lemma {:induction false} CompareBelow(p: Str, k: Str, key: Str)
    requires IsKey(p) && IsKey(k) && IsKey(key) && Below(p, k)
    ensures Compare(k, Child(p, key)) == Compare(Strip(p, k), key)
  {
    KeyShape(k);
    KeyShape(p);
    if p != ROOT {
      var s := Strip(p, k);
      assert k == p + s;
      if key == ROOT {
        ComparePrefix(p, s, []);
        assert p + [] == p;
        CompareRoot(s);
      } else {
        ComparePrefix(p, s, key);
      }
    }
  }

  lemma {:induction false} PrefixBelow(p: Str, k: Str, prefix: Str)
    requires IsKey(p) && IsKey(k) && Below(p, k) && (prefix == [] || IsKey(prefix))
    ensures HasPrefix(k, Child(p, NewKey(prefix))) <==> HasPrefix(Strip(p, k), prefix)
  {
    KeyShape(k);
    KeyShape(p);
    if prefix == [] {
      assert NewKey([]) == ROOT by { NewKeyOfEmpty(); }
    } else {
      NewKeyOfKey(prefix);
    }
    var c := NewKey(prefix);
    if p != ROOT {
      var s := Strip(p, k);
      assert k == p + s;
      if c == ROOT {
        assert p <= k && [] <= s && ROOT <= s;
      } else {
        assert p + c <= p + s <==> c <= s by { PrefixCancel(p, c, s); }
      }
    }
  }

  lemma {:induction false} FilterBelow(p: Str, f: Filter, e: Entry)
    requires IsKey(p) && IsKey(e.key) && Below(p, e.key) && CleanFilter(f) && !f.Custom?
    ensures Passes(PushFilter(PrefixTransform(p), f).value, e) <==> Passes(f, Stripped(p)(e))
  {
    match f
    case KeyCompare(op, key) =>
      NewKeyIsKey(key);
      CompareBelow(p, e.key, key);
    case KeyPrefix(prefix) =>
      NewKeyIsKey(prefix);
      PrefixBelow(p, e.key, prefix);
    case _ =>
  }

  lemma {:induction false} CompareStripped(p: Str, k: Str, l: Str)
    requires Below(p, k) && Below(p, l)
    ensures Compare(Strip(p, k), Strip(p, l)) == Compare(k, l)
  {
    if p != ROOT {
      assert k == p + Strip(p, k) && l == p + Strip(p, l);
      ComparePrefix(p, Strip(p, k), Strip(p, l));
    }
  }

  // --- Any renaming ------------------------------------------------------------------------------

  lemma {:induction false} PushedFilters(t: Transform, fs: seq<Filter>)
    requires PushFilters(t, fs).Some?
    ensures var gs := PushFilters(t, fs).value;
            |gs| == |fs| && forall i :: 0 <= i < |fs| ==> !fs[i].Custom? && PushFilter(t, fs[i]) == Some(gs[i])
  {
    if fs != [] { PushedFilters(t, fs[1..]); }
  }

  /** The pushed filter decides on an entry as the filter itself does on the renamed entry. */
  predicate SameTest(t: Transform, g: Entry -> Entry, f: Filter, e: Entry) {
    f.Custom? || (Passes(PushFilter(t, f).value, e) <==> Passes(f, g(e)))
  }

  ghost predicate KeepsTests(t: Transform, g: Entry -> Entry, fs: seq<Filter>, es: seq<Entry>) {
    forall f, e | f in fs && e in es :: SameTest(t, g, f, e)
  }

  /** Renaming leaves the value alone and compares keys as before. */
  predicate SameOrder(g: Entry -> Entry, a: Entry, b: Entry) {
    g(a).value == a.value && g(b).value == b.value && Compare(g(a).key, g(b).key) == Compare(a.key, b.key)
  }

  ghost predicate KeepsOrder(g: Entry -> Entry, es: seq<Entry>) {
    forall a, b | a in es && b in es :: SameOrder(g, a, b)
  }

  /** Pushing the filters down and renaming afterwards is filtering the renamed entries. */
  lemma {:induction false} FiltersCommute(t: Transform, g: Entry -> Entry, fs: seq<Filter>, es: seq<Entry>)
    requires PushFilters(t, fs).Some? && KeepsTests(t, g, fs, es)
    ensures MapEntries(g, FilterAll(PushFilters(t, fs).value, es)) == FilterAll(fs, MapEntries(g, es))
  {
    var gs := PushFilters(t, fs).value;
    PushedFilters(t, fs);
    hide Passes;
    forall i, e | 0 <= i < |fs| && e in es
      ensures Passes(gs[i], e) <==> Passes(fs[i], g(e))
    {
      assert fs[i] in fs && SameTest(t, g, fs[i], e);
    }
    MapFilterAll(g, gs, fs, es);
  }

  /** Orders after a key order never matter, because keys are distinct. */
  lemma {:induction false} PushedLess(g: Entry -> Entry, orders: seq<Order>, preserving: bool, a: Entry, b: Entry)
    requires PushOrders(orders, preserving).Some? && a.key != b.key && SameOrder(g, a, b)
    ensures Less(PushOrders(orders, preserving).value, a, b) <==> Less(orders, g(a), g(b))
  {
    CompareEqual(a.key, b.key);
    if orders != [] {
      var os := PushOrders(orders, preserving).value;
      if !orders[0].ByKey? && !orders[0].ByKeyDescending? {
        PushedLess(g, orders[1..], preserving, a, b);
        assert os[1..] == PushOrders(orders[1..], preserving).value;
      }
    }
  }

  lemma {:induction false} PushedPlain(orders: seq<Order>, preserving: bool)
    requires PushOrders(orders, preserving).Some?
    ensures PlainOrders(PushOrders(orders, preserving).value)
    ensures PushOrders(orders, preserving).value == [] <==> orders == []
  {
    if orders != [] && !orders[0].ByKey? && !orders[0].ByKeyDescending? { PushedPlain(orders[1..], preserving); }
  }

  /** Sorting by the pushed orders and renaming afterwards is sorting the renamed entries. */
  lemma {:induction false} OrdersCommute(g: Entry -> Entry, orders: seq<Order>, preserving: bool, es: seq<Entry>)
    requires PushOrders(orders, preserving).Some? && Distinct(es) && KeepsOrder(g, es)
    ensures MapEntries(g, NaiveOrder(PushOrders(orders, preserving).value, es)) == NaiveOrder(orders, MapEntries(g, es))
  {
    var os := PushOrders(orders, preserving).value;
    PushedPlain(orders, preserving);
    if orders != [] {
      forall i, j | 0 <= i < |es| && 0 <= j < |es| && i != j
        ensures Less(os, es[i], es[j]) <==> Less(orders, g(es[i]), g(es[j]))
      {
        assert es[i].key != es[j].key by { if i < j {} else {} }
        assert SameOrder(g, es[i], es[j]);
        PushedLess(g, orders, preserving, es[i], es[j]);
      }
      MapSort(g, os, orders, es);
    }
  }

  lemma {:induction false} DistinctSelected(fs: seq<Filter>, es: seq<Entry>)
    requires Distinct(es)
    ensures Distinct(FilterAll(fs, es)) && forall e <- FilterAll(fs, es) :: e in es
  {
    if fs != [] {
      FilterDistinct(fs[0], es);
      FilterIn(fs[0], es);
      DistinctSelected(fs[1..], FilterBy(fs[0], es));
    }
  }

  lemma {:induction false} DistinctRenamed(g: Entry -> Entry, es: seq<Entry>)
    requires Distinct(es) && KeepsOrder(g, es)
    ensures Distinct(MapEntries(g, es))
  {
    MapIn(g, es);
    forall i, j | 0 <= i < j < |es| ensures g(es[i]).key != g(es[j]).key {
      assert SameOrder(g, es[i], es[j]);
      CompareEqual(es[i].key, es[j].key);
      CompareEqual(g(es[i]).key, g(es[j]).key);
    }
  }

  /** On distinct keys the pushed orders sort like all of them. */
  lemma {:induction false} SameSort(orders: seq<Order>, preserving: bool, es: seq<Entry>)
    requires PushOrders(orders, preserving).Some? && Distinct(es)
    ensures NaiveOrder(PushOrders(orders, preserving).value, es) == NaiveOrder(orders, es)
  {
    var same := (e: Entry) => e;
    OrdersCommute(same, orders, preserving, es);
    MapIdentity(same, es);
    MapIdentity(same, NaiveOrder(PushOrders(orders, preserving).value, es));
  }

  /** Orders pushed to the child and filters left to the wrapper: the filters may come later. */
  lemma {:induction false} FilterAfterSort(g: Entry -> Entry, q: Query, preserving: bool, es: seq<Entry>)
    requires PushOrders(q.orders, preserving).Some? && Distinct(es) && KeepsOrder(g, es)
    ensures FilterAll(q.filters, MapEntries(g, NaiveOrder(PushOrders(q.orders, preserving).value, es)))
         == NaiveOrder(q.orders, FilterAll(q.filters, MapEntries(g, es)))
  {
    var view, os := MapEntries(g, es), PushOrders(q.orders, preserving).value;
    DistinctRenamed(g, es);
    OrdersCommute(g, q.orders, preserving, es);
    PushedPlain(q.orders, preserving);
    SameSort(q.orders, preserving, view);
    FilterAllSort(q.filters, os, view);
    DistinctSelected(q.filters, view);
    SameSort(q.orders, preserving, FilterAll(q.filters, view));
  }

  /** The pipeline after its filters. */
  function Page(q: Query, es: seq<Entry>): seq<Entry> {
    NaiveLimit(q.limit, NaiveOffset(q.offset, NaiveOrder(q.orders, es)))
  }

  lemma {:induction false} NothingLeft(es: seq<Entry>)
    ensures FilterAll(PrefixFilters([]), es) == es && NaiveQueryApply(NO_QUERY, es) == es
  {}

  /** What the child does to the entries it selected, the renaming and what is left to do naively: with
      a renaming that keeps tests and order, all of it is the pipeline on the renamed entries. */
  lemma {:induction false} WorkSplits(t: Transform, g: Entry -> Entry, q: Query, es: seq<Entry>)
    requires Distinct(es) && KeepsOrder(g, es) && KeepsTests(t, g, q.filters, es)
    ensures var (naive, child) := Prepared(t, q);
            Page(q, FilterAll(q.filters, MapEntries(g, es))) ==
              NaiveQueryApply(naive, MapEntries(g, Page(child, FilterAll(child.filters, es))))
  {
    var (naive, child) := Prepared(t, q);
    var preserving := t.PrefixTransform?;
    if PushFilters(t, q.filters).Some? {
      FiltersCommute(t, g, q.filters, es);
      var kept := FilterAll(child.filters, es);
      DistinctSelected(child.filters, es);
      if PushOrders(q.orders, preserving).Some? {
        OrdersCommute(g, q.orders, preserving, kept);
        MapCut(g, q.offset, q.limit, NaiveOrder(child.orders, kept));
        NothingLeft(MapEntries(g, Page(child, kept)));
      }
    } else if PushOrders(q.orders, preserving).Some? {
      FilterAfterSort(g, q, preserving, es);
    }
  }

  lemma {:induction false} MapIdentity(g: Entry -> Entry, es: seq<Entry>)
    requires forall e <- es :: g(e) == e
    ensures MapEntries(g, es) == es
  {
    MapIn(g, es);
  }

  // --- The prefix --------------------------------------------------------------------------------

  lemma {:induction false} OneFilter(f: Filter, es: seq<Entry>)
    ensures FilterAll([f], es) == FilterBy(f, es)
  {
    assert [f][1..] == [];
  }

  /** A stronger filter makes a weaker one before it superfluous. */
  lemma {:induction false} FilterSubsumed(weak: Filter, strong: Filter, es: seq<Entry>)
    requires forall e <- es :: Passes(strong, e) ==> Passes(weak, e)
    ensures FilterBy(strong, FilterBy(weak, es)) == FilterBy(strong, es)
  {
    hide Passes;
    if es != [] {
      FilterSubsumed(weak, strong, es[1..]);
      if Passes(weak, es[0]) {
        assert ([es[0]] + FilterBy(weak, es[1..]))[1..] == FilterBy(weak, es[1..]);
      }
    }
  }

  function ChildPrefix(p: Str, q: Query): Str {
    ConvertKey(PrefixTransform(p), NewKey(q.prefix))
  }

  lemma {:induction false} PrefixFiltersOf(k: Str)
    requires IsKey(k)
    ensures PrefixFilters(k) == if k == ROOT then [] else [KeyPrefix(k + [SLASH])]
  {
    NewKeyOfKey(k);
    KeyShape(k);
  }

  /** What the child selects by its prefix lies below the transform's prefix. */
  lemma {:induction false} SelectedBelow(p: Str, q: Query, es: seq<Entry>)
    requires IsKey(p) && AllKeys(es)
    ensures forall e <- FilterAll(PrefixFilters(ChildPrefix(p, q)), es) :: e in es && Below(p, e.key)
  {
    var c := NewKey(q.prefix);
    NewKeyIsKey(q.prefix);
    ChildIsKey(p, c);
    var cp := ChildPrefix(p, q);
    PrefixFiltersOf(cp);
    KeyShape(p);
    KeyShape(c);
    if cp != ROOT {
      var f := KeyPrefix(cp + [SLASH]);
      OneFilter(f, es);
      FilterIn(f, es);
      forall e <- FilterBy(f, es) ensures Below(p, e.key) {
        if p != ROOT {
          BelowFromFilter(p, e.key) by { ShorterPrefix(p, c, e.key); }
        }
      }
    }
  }

  lemma {:induction false} ShorterPrefix(p: Str, c: Str, k: Str)
    requires IsKey(p) && IsKey(c) && p != ROOT && HasPrefix(k, Child(p, c) + [SLASH])
    ensures HasPrefix(k, p + [SLASH])
  {
    KeyShape(c);
    var long := Child(p, c) + [SLASH];
    assert p + [SLASH] <= long;
    assert forall i :: 0 <= i < |p| + 1 ==> (p + [SLASH])[i] == long[i] == k[i];
  }

  lemma {:induction false} SelectionCommutes(p: Str, q: Query, es: seq<Entry>)
    requires IsKey(p) && AllKeys(es)
    ensures MapEntries(Stripped(p), FilterAll(PrefixFilters(ChildPrefix(p, q)), es))
         == FilterAll(PrefixFilters(q.prefix), View(p, es))
  {
    var c, cp := NewKey(q.prefix), ChildPrefix(p, q);
    NewKeyIsKey(q.prefix);
    ChildIsKey(p, c);
    PrefixFiltersOf(cp);
    PrefixFiltersOf(p);
    if q.prefix == [] { NewKeyOfEmpty(); }
    if p == ROOT {
      MapIdentity(Stripped(p), es);
      MapIdentity(Stripped(p), FilterAll(PrefixFilters(cp), es));
    } else if c != ROOT {
      SelectionBelow(p, c, es);
    }
  }

  lemma {:induction false} SelectionBelow(p: Str, c: Str, es: seq<Entry>)
    requires IsKey(p) && IsKey(c) && AllKeys(es) && p != ROOT && c != ROOT
    ensures MapEntries(Stripped(p), FilterAll([KeyPrefix(p + c + [SLASH])], es))
         == FilterAll([KeyPrefix(c + [SLASH])], MapEntries(Stripped(p), FilterAll([KeyPrefix(p + [SLASH])], es)))
  {
    var weak, strong, f := KeyPrefix(p + [SLASH]), KeyPrefix(p + c + [SLASH]), KeyPrefix(c + [SLASH]);
    OneFilter(weak, es);
    OneFilter(strong, es);
    var es' := FilterBy(weak, es);
    OneFilter(f, MapEntries(Stripped(p), es'));
    FilterIn(weak, es);
    forall e <- es ensures Passes(strong, e) ==> Passes(weak, e) {
      if Passes(strong, e) { ShorterPrefix(p, c, e.key); }
    }
    hide FilterBy, FilterAll;
    FilterSubsumed(weak, strong, es);
    forall e <- es' ensures Passes(strong, e) <==> Passes(f, Stripped(p)(e)) {
      assert e in es && Passes(weak, e);
      SelectsBelow(p, c, e);
    }
    hide Passes;
    MapFilter(Stripped(p), strong, f, es');
  }

  lemma {:induction false} SelectsBelow(p: Str, c: Str, e: Entry)
    requires IsKey(p) && IsKey(e.key) && p != ROOT && HasPrefix(e.key, p + [SLASH])
    ensures HasPrefix(e.key, p + c + [SLASH]) <==> HasPrefix(Strip(p, e.key), c + [SLASH])
  {
    BelowFromFilter(p, e.key);
    assert e.key == p + Strip(p, e.key);
    assert p + c + [SLASH] == p + (c + [SLASH]);
    PrefixCancel(p, c + [SLASH], Strip(p, e.key));
  }

  // --- The theorem -------------------------------------------------------------------------------

  lemma {:induction false} BelowKeeps(p: Str, fs: seq<Filter>, es: seq<Entry>)
    requires IsKey(p) && AllKeys(es) && CleanFilters(fs) && (forall e <- es :: Below(p, e.key))
    ensures KeepsOrder(Stripped(p), es) && KeepsTests(PrefixTransform(p), Stripped(p), fs, es)
  {
    forall a, b | a in es && b in es ensures SameOrder(Stripped(p), a, b) {
      CompareStripped(p, a.key, b.key);
    }
    forall f, e | f in fs && e in es ensures SameTest(PrefixTransform(p), Stripped(p), f, e) {
      var i :| 0 <= i < |fs| && fs[i] == f;
      if !f.Custom? { FilterBelow(p, f, e); }
    }
  }

  /**
   The wrapper's Query, for any query and any enumeration of the child's entries, returns what the
   naive pipeline returns on the view; pushing filters and orders down, cutting the orders after a
   key order and moving offset and limit make no difference.
   */
  lemma {:induction false} QuerySplits(p: Str, q: Query, es: seq<Entry>)
    requires IsKey(p) && AllKeys(es) && Distinct(es) && CleanFilters(q.filters)
    ensures TransformedQuery(p, q, es) == NaiveQueryApply(q, View(p, es))
  {
    var selected := FilterAll(PrefixFilters(ChildPrefix(p, q)), es);
    SelectedBelow(p, q, es);
    SelectionCommutes(p, q, es);
    DistinctSelected(PrefixFilters(ChildPrefix(p, q)), es);
    BelowKeeps(p, q.filters, selected);
    WorkSplits(PrefixTransform(p), Stripped(p), q, selected);
  }

  lemma {:induction false} ResultSelected(q: Query, es: seq<Entry>, e: Entry)
    requires e in NaiveQueryApply(q, es)
    ensures e in FilterAll(q.filters, FilterAll(PrefixFilters(q.prefix), es))
  {
    hide FilterAll, PrefixFilters;
    var kept := FilterAll(q.filters, FilterAll(PrefixFilters(q.prefix), es));
    SortIn(q.orders, kept);
    assert e in NaiveOrder(q.orders, kept);
    assert e in multiset(NaiveOrder(q.orders, kept));
  }

  /** Every key the child returns can be inverted. */
  lemma {:induction false} InvertNeverPanics(p: Str, q: Query, es: seq<Entry>)
    requires IsKey(p) && AllKeys(es) && Distinct(es)
    ensures forall e <- NaiveQueryApply(Prepared(PrefixTransform(p), q).1, es) ::
              InvertKey(PrefixTransform(p), e.key) == Some(Strip(p, e.key))
  {
    var child := Prepared(PrefixTransform(p), q).1;
    var selected := FilterAll(PrefixFilters(child.prefix), es);
    SelectedBelow(p, q, es);
    DistinctSelected(PrefixFilters(child.prefix), es);
    DistinctSelected(child.filters, selected);
    hide NaiveQueryApply, FilterAll, PrefixFilters, Prepared;
    forall e <- NaiveQueryApply(child, es) ensures InvertKey(PrefixTransform(p), e.key) == Some(Strip(p, e.key)) {
      ResultSelected(child, es, e);
      InvertIsStrip(p, e.key);
    }
  }

  // --- The root key ------------------------------------------------------------------------------

  predicate AtOrBelow(p: Str, e: Entry) {
    e.key == p || HasPrefix(e.key, p + [SLASH])
  }

  function Shown(p: Str): Entry -> Entry {
    (e: Entry) => e.(key := if e.key == p then ROOT else Strip(p, e.key))
  }

  /** All that Get can find through the wrapper, the root key included. */
  function WholeView(p: Str, es: seq<Entry>): seq<Entry> {
    MapEntries(Shown(p), FilterBy(Custom(e => AtOrBelow(p, e)), es))
  }

  lemma {:induction false} FilterByCommutes(f: Filter, g: Filter, es: seq<Entry>)
    ensures FilterBy(f, FilterBy(g, es)) == FilterBy(g, FilterBy(f, es))
  {
    hide Passes;
    if es != [] {
      var e, rest := es[0], es[1..];
      FilterByCommutes(f, g, rest);
      if Passes(f, e) { assert ([e] + FilterBy(f, rest))[1..] == FilterBy(f, rest); }
      if Passes(g, e) { assert ([e] + FilterBy(g, rest))[1..] == FilterBy(g, rest); }
    }
  }

  lemma {:induction false} FilterAllCommutes(fs: seq<Filter>, g: Filter, es: seq<Entry>)
    ensures FilterAll(fs, FilterBy(g, es)) == FilterBy(g, FilterAll(fs, es))
  {
    if fs != [] {
      FilterByCommutes(fs[0], g, es);
      FilterAllCommutes(fs[1..], g, FilterBy(fs[0], es));
    }
  }

  lemma {:induction false} FilterAllIn(fs: seq<Filter>, es: seq<Entry>, e: Entry)
    ensures e in FilterAll(fs, es) <==> e in es && forall f <- fs :: Passes(f, e)
  {
    hide Passes, FilterBy;
    if fs != [] {
      FilterIn(fs[0], es);
      FilterAllIn(fs[1..], FilterBy(fs[0], es), e);
      assert fs == [fs[0]] + fs[1..];
    }
  }

  lemma {:induction false} FilterKeepsAll(g: Filter, es: seq<Entry>)
    requires forall e <- es :: Passes(g, e)
    ensures FilterBy(g, es) == es
  {
    hide Passes;
    if es != [] { FilterKeepsAll(g, es[1..]); }
  }

  function NotRoot(): Filter {
    Custom((e: Entry) => e.key != ROOT)
  }

  /** The view is the whole view less the root key. */
  lemma {:induction false} ViewIsRest(p: Str, es: seq<Entry>)
    requires IsKey(p) && p != ROOT && AllKeys(es)
    ensures View(p, es) == FilterBy(NotRoot(), WholeView(p, es))
  {
    var below, whole := KeyPrefix(p + [SLASH]), Custom(e => AtOrBelow(p, e));
    PrefixFiltersOf(p);
    OneFilter(below, es);
    FilterIn(whole, es);
    FilterSubsumed(whole, below, es);
    var kept := FilterBy(whole, es);
    forall e <- kept ensures Passes(below, e) <==> Passes(NotRoot(), Shown(p)(e)) {
      KeyShape(p);
      if HasPrefix(e.key, p + [SLASH]) { BelowFromFilter(p, e.key); }
    }
    MapFilter(Shown(p), below, NotRoot(), kept);
    SameBelow(p, FilterBy(below, es)) by { FilterIn(below, es); }
  }

  lemma {:induction false} SameBelow(p: Str, kept: seq<Entry>)
    requires forall e <- kept :: HasPrefix(e.key, p + [SLASH])
    ensures MapEntries(Stripped(p), kept) == MapEntries(Shown(p), kept)
  {
    MapIn(Stripped(p), kept);
    MapIn(Shown(p), kept);
    assert forall i :: 0 <= i < |kept| ==> Stripped(p)(kept[i]) == Shown(p)(kept[i]);
  }

  /** An entry stored at the wrapper's own root key that the query would select. */
  ghost predicate RootSelected(p: Str, q: Query, es: seq<Entry>) {
    NewKey(q.prefix) == ROOT && exists e <- es :: e.key == p && forall f <- q.filters :: Passes(f, Shown(p)(e))
  }

  function Selected(q: Query, es: seq<Entry>): seq<Entry> {
    FilterAll(q.filters, FilterAll(PrefixFilters(q.prefix), es))
  }

  /** What is selected from the whole view, the root key aside, is what is selected from the view. */
  lemma {:induction false} SelectedRest(p: Str, q: Query, es: seq<Entry>)
    requires IsKey(p) && p != ROOT && AllKeys(es)
    ensures Selected(q, View(p, es)) == FilterBy(NotRoot(), Selected(q, WholeView(p, es)))
  {
    hide View, WholeView, FilterAll, FilterBy;
    ViewIsRest(p, es);
    FilterAllCommutes(PrefixFilters(q.prefix), NotRoot(), WholeView(p, es));
    FilterAllCommutes(q.filters, NotRoot(), FilterAll(PrefixFilters(q.prefix), WholeView(p, es)));
  }

  lemma {:induction false} PrefixSelectsRoot(prefix: Str, e: Entry)
    requires e.key == ROOT
    ensures (forall f <- PrefixFilters(prefix) :: Passes(f, e)) <==> NewKey(prefix) == ROOT
  {
    NewKeyIsKey(prefix);
    KeyShape(NewKey(prefix));
    if prefix == [] { NewKeyOfEmpty(); }
    hide NewKey;
    var c := NewKey(prefix);
    if c != ROOT {
      var f := KeyPrefix(c + [SLASH]);
      assert PrefixFilters(prefix) == [f] && f in PrefixFilters(prefix);
      assert !Passes(f, e);
    }
  }

  lemma {:induction false} MapMember(g: Entry -> Entry, es: seq<Entry>, e: Entry)
    ensures e in MapEntries(g, es) <==> exists d <- es :: g(d) == e
  {
    MapIn(g, es);
    if e in MapEntries(g, es) {
      var i :| 0 <= i < |es| && MapEntries(g, es)[i] == e;
      assert es[i] in es;
    }
    if d :| d in es && g(d) == e {
      var i :| 0 <= i < |es| && es[i] == d;
      assert MapEntries(g, es)[i] == e;
    }
  }

  lemma {:induction false} ShownRoot(p: Str, d: Entry)
    requires IsKey(p) && p != ROOT && IsKey(d.key) && AtOrBelow(p, d)
    ensures Shown(p)(d).key == ROOT <==> d.key == p
  {
    if d.key != p { BelowFromFilter(p, d.key); }
  }

  lemma {:induction false} WholeViewRoot(p: Str, es: seq<Entry>, e: Entry)
    requires IsKey(p) && p != ROOT && AllKeys(es) && e.key == ROOT
    ensures e in WholeView(p, es) <==> exists d <- es :: d.key == p && Shown(p)(d) == e
  {
    var whole := Custom(e => AtOrBelow(p, e));
    hide FilterBy, IsKey, MapEntries;
    FilterIn(whole, es);
    MapMember(Shown(p), FilterBy(whole, es), e);
    if d :| d in FilterBy(whole, es) && Shown(p)(d) == e {
      assert Passes(whole, d);
      ShownRoot(p, d);
    }
    if d :| d in es && d.key == p && Shown(p)(d) == e {
      assert Passes(whole, d);
    }
  }

  lemma {:induction false} RootSelectedIn(q: Query, es: seq<Entry>, e: Entry)
    requires e.key == ROOT
    ensures e in Selected(q, es) <==> e in es && NewKey(q.prefix) == ROOT && forall f <- q.filters :: Passes(f, e)
  {
    hide FilterAll, PrefixFilters, NewKey, Passes;
    FilterAllIn(q.filters, FilterAll(PrefixFilters(q.prefix), es), e);
    FilterAllIn(PrefixFilters(q.prefix), es, e);
    PrefixSelectsRoot(q.prefix, e);
  }

  /** The root key is selected from the whole view exactly if it is stored and the query would select it. */
  lemma {:induction false} RootSelectedIf(p: Str, q: Query, es: seq<Entry>)
    requires IsKey(p) && p != ROOT && AllKeys(es)
    ensures (exists e <- Selected(q, WholeView(p, es)) :: e.key == ROOT) <==> RootSelected(p, q, es)
  {
    hide Selected, WholeView, NewKey, Passes;
    var wv := WholeView(p, es);
    if e :| e in Selected(q, wv) && e.key == ROOT {
      RootSelectedIn(q, wv, e);
      WholeViewRoot(p, es, e);
    }
    if RootSelected(p, q, es) {
      var d :| d in es && d.key == p && forall f <- q.filters :: Passes(f, Shown(p)(d));
      WholeViewRoot(p, es, Shown(p)(d));
      RootSelectedIn(q, wv, Shown(p)(d));
    }
  }

  lemma {:induction false} OrderedDiffers(orders: seq<Order>, a: seq<Entry>, b: seq<Entry>, e: Entry)
    requires e in a && e !in b
    ensures NaiveOrder(orders, a) != NaiveOrder(orders, b)
  {
    SortIn(orders, a);
    SortIn(orders, b);
    assert e in multiset(a) && e !in multiset(b);
  }

  /** A wrapper below the root answers a query on all it holds unless that selects its own root key, which it never
      lists. Without offset and limit it does so only then. */
  lemma {:induction false} RootKeyIsNotListed(p: Str, q: Query, es: seq<Entry>)
    requires IsKey(p) && p != ROOT && AllKeys(es) && Distinct(es) && CleanFilters(q.filters)
    ensures !RootSelected(p, q, es) ==> TransformedQuery(p, q, es) == NaiveQueryApply(q, WholeView(p, es))
    ensures q.offset <= 0 && q.limit <= 0 ==>
              (TransformedQuery(p, q, es) == NaiveQueryApply(q, WholeView(p, es)) <==> !RootSelected(p, q, es))
  {
    hide View, WholeView, FilterAll, FilterBy, NewKey, PrefixFilters, RootSelected;
    QuerySplits(p, q, es);
    SelectedRest(p, q, es);
    RootSelectedIf(p, q, es);
    var all, rest := Selected(q, WholeView(p, es)), Selected(q, View(p, es));
    if RootSelected(p, q, es) {
      var e :| e in all && e.key == ROOT;
      FilterIn(NotRoot(), all);
      assert !Passes(NotRoot(), e);
      OrderedDiffers(q.orders, all, rest, e);
    } else {
      FilterKeepsAll(NotRoot(), all);
    }
  }

  // --- Keys that are not clean, and other transforms ---------------------------------------------

  lemma {:induction false} ResolveShrinks(cs: seq<Str>, done: seq<Str>)
    ensures |Join(Resolve(cs, done))| <= |Join(done)| + |Join(cs)|
  {
    if cs != [] {
      if cs[0] == [] || cs[0] == [DOT] {
        ResolveShrinks(cs[1..], done);
      } else if cs[0] == [DOT, DOT] {
        var less := if done == [] then [] else done[..|done| - 1];
        ResolveShrinks(cs[1..], less);
        JoinAppend(less, done[|less|..]);
        assert done == less + done[|less|..];
      } else {
        ResolveShrinks(cs[1..], done + [cs[0]]);
        var one: seq<Str> := [cs[0]];
        JoinAppend(done, one);
        assert one[1..] == [];
        assert Join(one) == [SLASH] + cs[0] + Join([]);
      }
    }
  }

  lemma {:induction false} CleanIsShorter(s: Str)
    requires s != [] && s[0] == SLASH
    ensures |NewKey(s)| <= |s|
  {
    var cs := Split(s);
    JoinSplit(s);
    assert cs[0] == [];
    assert Join(cs) == [SLASH] + cs[0] + Join(cs[1..]);
    ResolveShrinks(cs[1..], []);
  }

  /** Pushing a key-prefix filter down is right for every key exactly if the prefix is clean or empty. */
  lemma {:induction false} PrefixFilterPushdown(p: Str, prefix: Str)
    requires IsKey(p)
    ensures (forall k :: IsKey(k) && k != ROOT ==>
              (Passes(PushFilter(PrefixTransform(p), KeyPrefix(prefix)).value, Entry(Child(p, k), [], 0))
               <==> Passes(KeyPrefix(prefix), Entry(k, [], 0))))
            <==> CleanFilter(KeyPrefix(prefix))
  {
    KeyShape(p);
    var c := NewKey(prefix);
    NewKeyIsKey(prefix);
    if CleanFilter(KeyPrefix(prefix)) {
      forall k | IsKey(k) && k != ROOT
        ensures HasPrefix(Child(p, k), Child(p, c)) <==> HasPrefix(k, prefix)
      {
        KeyShape(k);
        ChildIsKey(p, k);
        PrefixBelow(p, Child(p, k), prefix);
        assert Strip(p, Child(p, k)) == k;
      }
    } else {
      var k := if c != ROOT then c else [SLASH, 'a' as int];
      assert IsKey(k) by { if c == ROOT { ShortKey(); } }
      KeyShape(k);
      KeyShape(c);
      assert HasPrefix(Child(p, k), Child(p, c)) by {
        if p != ROOT && c == ROOT { assert p <= p + k; }
      }
      if prefix[0] == SLASH { CleanIsShorter(prefix); }
      if c == ROOT && HasPrefix(k, prefix) { ShortPrefixes(prefix); }
      assert !HasPrefix(k, prefix);
    }
  }

  lemma ShortKey()
    ensures IsKey([SLASH, 'a' as int])
  {
    var cs: seq<Str> := [['a' as int]];
    assert cs[1..] == [];
    assert Join(cs) == [SLASH] + cs[0] + Join(cs[1..]) == [SLASH, 'a' as int];
    assert AllNames(cs) && Render(cs) == [SLASH, 'a' as int];
  }

  /** The prefixes of /a are clean or empty. */
  lemma {:induction false} ShortPrefixes(prefix: Str)
    requires HasPrefix([SLASH, 'a' as int], prefix)
    ensures prefix == [] || NewKey(prefix) == prefix
  {
    ShortKey();
    if |prefix| == 1 {
      assert prefix == ROOT;
      RootIsKey();
      NewKeyOfKey(ROOT);
    } else if |prefix| == 2 {
      assert prefix == [SLASH, 'a' as int];
      NewKeyOfKey(prefix);
    }
  }

  lemma OneByteKey(x: Byte)
    requires x != SLASH && x != DOT
    ensures IsKey([SLASH, x])
  {
    var cs: seq<Str> := [[x]];
    assert cs[1..] == [];
    assert Join(cs) == [SLASH] + cs[0] + Join(cs[1..]) == [SLASH, x];
    assert AllNames(cs) && Render(cs) == [SLASH, x];
  }

  /** A string above the root that is no key has a key between the root and itself, if it means the root. */
  lemma {:induction false} KeyBetween(key: Str) returns (k: Str)
    requires NewKey(key) == ROOT != key && Compare(key, ROOT) > 0
    ensures IsKey(k) && k != ROOT && Compare(k, key) < 0
  {
    assert ROOT[1..] == [] && key[0] >= SLASH;
    var x: Byte := if key[0] > SLASH || key[1] == SLASH || key[1] == DOT then '!' as int else key[1];
    k := [SLASH, x];
    OneByteKey(x);
    NewKeyOfKey(k);
    hide NewKey;
    assert k[1..] == [x] && [x][1..] == [];
    if key[0] == SLASH {
      assert Compare(k, key) == Compare([x], key[1..]);
      if x == key[1] {
        assert |key| == 2 ==> key == k;
        assert Compare([x], key[1..]) == Compare([], key[1..][1..]);
      }
    }
  }

  /** Comparing a stored key with the pushed key is comparing with the cleaned one. */
  lemma {:induction false} PushedCompare(p: Str, k: Str, key: Str)
    requires IsKey(p) && IsKey(k) && k != ROOT
    ensures Compare(Child(p, k), Child(p, NewKey(key))) == Compare(k, NewKey(key))
  {
    KeyShape(p);
    KeyShape(k);
    NewKeyIsKey(key);
    ChildIsKey(p, k);
    CompareBelow(p, Child(p, k), NewKey(key));
  }

  predicate ComparedAlike(p: Str, op: Op, key: Str, k: Str) {
    var f := KeyCompare(op, key);
    Passes(PushFilter(PrefixTransform(p), f).value, Entry(Child(p, k), [], 0)) <==> Passes(f, Entry(k, [], 0))
  }

  lemma {:induction false} AlikeIfCleaned(p: Str, key: Str, k: Str)
    requires IsKey(p) && IsKey(k) && k != ROOT
    ensures (forall op :: ComparedAlike(p, op, key, k)) <==> Compare(k, NewKey(key)) == Compare(k, key)
  {
    PushedCompare(p, k, key);
    hide Compare, NewKey, IsKey, Child;
    if forall op :: ComparedAlike(p, op, key, k) {
      assert ComparedAlike(p, LessThan, key, k) && ComparedAlike(p, GreaterThan, key, k);
    }
  }

  /** Pushing comparisons with a key down is right for every operator and key exactly if that key is
      clean, or stands for the root and lies below all keys. */
  lemma {:induction false} CompareFilterPushdown(p: Str, key: Str)
    requires IsKey(p)
    ensures (forall op, k | IsKey(k) && k != ROOT :: ComparedAlike(p, op, key, k))
            <==> NewKey(key) == key || (NewKey(key) == ROOT && Compare(key, ROOT) < 0)
  {
    var c := NewKey(key);
    NewKeyIsKey(key);
    hide Compare, NewKey, IsKey, ComparedAlike;
    forall k | IsKey(k) && k != ROOT
      ensures (forall op :: ComparedAlike(p, op, key, k)) <==> Compare(k, c) == Compare(k, key)
    {
      AlikeIfCleaned(p, key, k);
    }
    CompareEqual(key, ROOT);
    if c == ROOT && Compare(key, ROOT) < 0 {
      forall k | IsKey(k) && k != ROOT ensures Compare(k, c) == Compare(k, key) {
        KeyShape(k);
        CompareRoot(k);
        CompareFlip(k, ROOT);
        CompareTrans(key, ROOT, k);
        CompareFlip(key, k);
      }
    } else if c != ROOT {
      CompareEqual(c, c);
      CompareEqual(c, key);
    } else if key != ROOT {
      var k := KeyBetween(key);
      KeyShape(k);
      CompareRoot(k);
    }
  }

  const A: Str := [SLASH, 'a' as int]
  const B: Str := [SLASH, 'b' as int]

  function Swap(k: Str): Str {
    if k == A then B else if k == B then A else k
  }

  /** Key comparisons are pushed down for every transform, but a transform that does not keep the
      order of keys then loses entries: here the one key /b, stored as /a, and the filter key > /a. */
  lemma {:induction false} PairLosesEntries()
    ensures var t := Pair(Swap, Swap);
            var q := NO_QUERY.(filters := [KeyCompare(GreaterThan, A)]);
            var stored := [Entry(A, [], 0)];
            && InvertKey(t, A) == Some(B)
            && NaiveQueryApply(Prepared(t, q).1, stored) == []
            && NaiveQueryApply(q, [Entry(B, [], 0)]) == [Entry(B, [], 0)]
  {
    var t := Pair(Swap, Swap);
    var f := KeyCompare(GreaterThan, A);
    var q := NO_QUERY.(filters := [f]);
    ShortKey();
    NewKeyOfKey(A);
    NewKeyOfEmpty();
    RootIsKey();
    NewKeyOfKey(ROOT);
    assert [f][1..] == [];
    var g := KeyCompare(GreaterThan, B);
    assert PushFilters(t, [f]) == Some([g] + []);
    assert Prepared(t, q).1 == Query(ROOT, [g], [], 0, 0, false);
    assert A[1..] == ['a' as int] && B[1..] == ['b' as int];
    assert Compare(A, B) == -1 && Compare(B, A) == 1;
    OneFilter(g, [Entry(A, [], 0)]);
    OneFilter(f, [Entry(B, [], 0)]);
    assert [Entry(A, [], 0)][1..] == [] && [Entry(B, [], 0)][1..] == [];
  }
}
