/** Which key transforms may have their queries split (datastore/keytransform). */
module PairSplit {
  import opened Words
  import opened Keys
  import opened Queries
  import opened KeyTransform
  import opened QuerySplit

  /** What is asked of a pair of functions: keys go to keys, and come back. */
  ghost predicate Invertible(t: Transform) {
    t.Pair? && forall k | IsKey(k) :: IsKey(t.convert(k)) && t.invert(t.convert(k)) == k
  }

  function Converted(t: Transform): Entry -> Entry
    requires t.Pair?
  {
    (e: Entry) => e.(key := t.convert(e.key))
  }

  function Inverted(t: Transform): Entry -> Entry
    requires t.Pair?
  {
    (e: Entry) => e.(key := t.invert(e.key))
  }

  /** The Query method: split, ask the child, rename, finish naively. */
  function PairQuery(t: Transform, q: Query, es: seq<Entry>): seq<Entry>
    requires t.Pair?
  {
    var (naive, child) := Prepared(t, q);
    NaiveQueryApply(naive, MapEntries(Inverted(t), NaiveQueryApply(child, es)))
  }

  /** Entries put in through the wrapper are found by a query as if they had kept their keys. */
  ghost predicate Answers(t: Transform, q: Query, vs: seq<Entry>)
    requires t.Pair?
  {
    CleanFilters(q.filters) && AllKeys(vs) && Distinct(vs) ==>
      PairQuery(t, q, MapEntries(Converted(t), vs)) == NaiveQueryApply(q, vs)
  }

  /** Two keys compare, are prefixes and lie below one another as their images do. */
  predicate Faithful(t: Transform, k: Str, l: Str)
    requires t.Pair?
  {
    && Compare(t.convert(k), t.convert(l)) == Compare(k, l)
    && (HasPrefix(t.convert(k), t.convert(l)) <==> HasPrefix(k, l))
    && (Under(t.convert(l), t.convert(k)) <==> Under(l, k))
  }

  // --- Comparisons alone -------------------------------------------------------------------------

  /** The comparison of k with l decides on the stored entry as on the entry itself. */
  predicate ComparesAlike(t: Transform, op: Op, k: Str, l: Str)
    requires t.Pair?
  {
    var e, f := Entry(k, [], 0), KeyCompare(op, l);
    Passes(PushFilter(t, f).value, Converted(t)(e)) <==> Passes(f, e)
  }

  lemma {:induction false} AlikeIfCompare(t: Transform, k: Str, l: Str)
    requires t.Pair? && IsKey(l)
    ensures (forall op :: ComparesAlike(t, op, k, l)) <==> Compare(t.convert(k), t.convert(l)) == Compare(k, l)
  {
    NewKeyOfKey(l);
    hide Compare, NewKey;
    if forall op :: ComparesAlike(t, op, k, l) {
      assert ComparesAlike(t, LessThan, k, l) && ComparesAlike(t, GreaterThan, k, l);
    }
  }

  /** Pushing key comparisons down is right for all of them exactly if the transform keeps the order. */
  lemma {:induction false} ComparisonPushdown(t: Transform)
    requires t.Pair?
    ensures (forall op, k, l | IsKey(k) && IsKey(l) :: ComparesAlike(t, op, k, l))
            <==> forall k, l | IsKey(k) && IsKey(l) && Compare(k, l) < 0 :: Compare(t.convert(k), t.convert(l)) < 0
  {
    hide Compare, ComparesAlike, IsKey;
    forall k, l | IsKey(k) && IsKey(l)
      ensures (forall op :: ComparesAlike(t, op, k, l)) <==> Compare(t.convert(k), t.convert(l)) == Compare(k, l)
    {
      AlikeIfCompare(t, k, l);
    }
    if forall k, l | IsKey(k) && IsKey(l) && Compare(k, l) < 0 :: Compare(t.convert(k), t.convert(l)) < 0 {
      forall k, l | IsKey(k) && IsKey(l) ensures Compare(t.convert(k), t.convert(l)) == Compare(k, l) {
        CompareFlip(k, l);
        CompareFlip(t.convert(k), t.convert(l));
        CompareEqual(k, l);
        CompareEqual(t.convert(k), t.convert(l));
      }
    }
  }

  // --- Faithful transforms answer every query ----------------------------------------------------

  ghost predicate AllFaithful(t: Transform)
    requires t.Pair?
  {
    forall k, l | IsKey(k) && IsKey(l) :: Faithful(t, k, l)
  }

  lemma {:induction false} RootStays(t: Transform, c: Str)
    requires Invertible(t) && AllFaithful(t) && IsKey(c)
    ensures t.convert(c) == ROOT <==> c == ROOT
  {
    RootIsKey();
    assert Faithful(t, ROOT, ROOT) && Faithful(t, ROOT, c);
  }

  lemma {:induction false} BackAgain(t: Transform, vs: seq<Entry>)
    requires Invertible(t) && AllKeys(vs)
    ensures var es := MapEntries(Converted(t), vs);
            && |es| == |vs| && MapEntries(Inverted(t), es) == vs
            && forall e <- es :: e == Converted(t)(Inverted(t)(e)) && Inverted(t)(e) in vs
  {
    var es := MapEntries(Converted(t), vs);
    MapIn(Converted(t), vs);
    MapIn(Inverted(t), es);
    forall i | 0 <= i < |vs| ensures Inverted(t)(es[i]) == vs[i] {
      assert vs[i] in vs;
    }
  }

  lemma {:induction false} ConvertedDistinct(t: Transform, vs: seq<Entry>)
    requires Invertible(t) && AllKeys(vs) && Distinct(vs)
    ensures Distinct(MapEntries(Converted(t), vs))
  {
    MapIn(Converted(t), vs);
    forall i, j | 0 <= i < j < |vs| ensures t.convert(vs[i].key) != t.convert(vs[j].key) {
      assert vs[i] in vs && vs[j] in vs;
    }
  }

  lemma {:induction false} FaithfulTest(t: Transform, f: Filter, e: Entry)
    requires Invertible(t) && AllFaithful(t) && CleanFilter(f) && !f.Custom? && IsKey(e.key)
    ensures Passes(PushFilter(t, f).value, Converted(t)(e)) <==> Passes(f, e)
  {
    match f
    case KeyCompare(op, key) =>
      NewKeyIsKey(key);
      assert Faithful(t, e.key, key);
    case KeyPrefix(prefix) =>
      NewKeyIsKey(prefix);
      if prefix == [] { NewKeyOfEmpty(); KeyShape(e.key); }
      assert Faithful(t, e.key, NewKey(prefix));
    case _ =>
  }

  /** es are images of entries with clean keys. */
  ghost predicate Images(t: Transform, es: seq<Entry>)
    requires t.Pair?
  {
    forall e <- es :: IsKey(Inverted(t)(e).key) && e == Converted(t)(Inverted(t)(e))
  }

  lemma {:induction false} FaithfulKeeps(t: Transform, fs: seq<Filter>, es: seq<Entry>)
    requires Invertible(t) && AllFaithful(t) && CleanFilters(fs) && Images(t, es)
    ensures KeepsOrder(Inverted(t), es) && KeepsTests(t, Inverted(t), fs, es)
  {
    forall a, b | a in es && b in es ensures SameOrder(Inverted(t), a, b) {
      assert Faithful(t, Inverted(t)(a).key, Inverted(t)(b).key);
    }
    forall f, e | f in fs && e in es ensures SameTest(t, Inverted(t), f, e) {
      var i :| 0 <= i < |fs| && fs[i] == f;
      if !f.Custom? { FaithfulTest(t, f, Inverted(t)(e)); }
    }
  }

  lemma FaithfulAt(t: Transform, k: Str, l: Str)
    requires t.Pair? && AllFaithful(t) && IsKey(k) && IsKey(l)
    ensures Faithful(t, k, l)
  {
  }

  lemma {:induction false} SelectsAlike(t: Transform, c: Str, e: Entry)
    requires Invertible(t) && AllFaithful(t) && IsKey(c) && c != ROOT
    requires IsKey(Inverted(t)(e).key) && e == Converted(t)(Inverted(t)(e))
    ensures HasPrefix(e.key, t.convert(c) + [SLASH]) <==> HasPrefix(Inverted(t)(e).key, c + [SLASH])
  {
    FaithfulAt(t, Inverted(t)(e).key, c);
    RootStays(t, c);
  }

  lemma NothingFiltered(es: seq<Entry>)
    ensures FilterAll([], es) == es
  {
  }

  lemma {:induction false} SelectionAgrees(t: Transform, prefix: Str, es: seq<Entry>)
    requires Invertible(t) && AllFaithful(t) && Images(t, es)
    ensures MapEntries(Inverted(t), FilterAll(PrefixFilters(t.convert(NewKey(prefix))), es))
         == FilterAll(PrefixFilters(prefix), MapEntries(Inverted(t), es))
  {
    hide NewKey, AllFaithful, IsKey, FilterAll, Faithful;
    var c := NewKey(prefix);
    NewKeyIsKey(prefix);
    if prefix == [] { NewKeyOfEmpty(); }
    RootStays(t, c);
    PrefixFiltersOf(t.convert(c));
    NothingFiltered(es);
    NothingFiltered(MapEntries(Inverted(t), es));
    if c != ROOT {
      var f, g := KeyPrefix(t.convert(c) + [SLASH]), KeyPrefix(c + [SLASH]);
      OneFilter(f, es);
      OneFilter(g, MapEntries(Inverted(t), es));
      forall e <- es ensures Passes(f, e) <==> Passes(g, Inverted(t)(e)) {
        SelectsAlike(t, c, e);
      }
      MapFilter(Inverted(t), f, g, es);
    }
  }

  lemma {:induction false} FaithfulAnswers(t: Transform, q: Query, vs: seq<Entry>)
    requires Invertible(t) && AllFaithful(t)
    ensures Answers(t, q, vs)
  {
    if CleanFilters(q.filters) && AllKeys(vs) && Distinct(vs) {
      var es := MapEntries(Converted(t), vs);
      var fs := PrefixFilters(t.convert(NewKey(q.prefix)));
      var selected := FilterAll(fs, es);
      BackAgain(t, vs);
      ConvertedDistinct(t, vs);
      assert Images(t, es);
      SelectionAgrees(t, q.prefix, es);
      DistinctSelected(fs, es);
      assert Images(t, selected);
      FaithfulKeeps(t, q.filters, selected);
      WorkSplits(t, Inverted(t), q, selected);
    }
  }

  // --- And no others -----------------------------------------------------------------------------

  function Ask(prefix: Str, fs: seq<Filter>): Query {
    NO_QUERY.(prefix := prefix, filters := fs)
  }

  function Pushed(t: Transform, fs: seq<Filter>): seq<Filter>
    requires |fs| <= 1 && (fs != [] ==> !fs[0].Custom?)
  {
    if fs == [] then [] else [PushFilter(t, fs[0]).value]
  }

  lemma {:induction false} AskSplits(t: Transform, prefix: Str, fs: seq<Filter>)
    requires t.Pair? && |fs| <= 1 && (fs != [] ==> !fs[0].Custom?)
    ensures Prepared(t, Ask(prefix, fs)) == (NO_QUERY, Ask(t.convert(NewKey(prefix)), Pushed(t, fs)))
  {
    hide NewKey;
    if fs != [] {
      var g := PushFilter(t, fs[0]).value;
      assert fs[1..] == [] && [g] + [] == [g];
      assert PushFilters(t, fs) == Some([g]);
    }
  }

  /** At most two filters on one entry. */
  lemma {:induction false} OnePasses(ps: seq<Filter>, fs: seq<Filter>, e: Entry)
    requires |ps| <= 1 && |fs| <= 1
    ensures FilterAll(fs, FilterAll(ps, [e])) ==
            if (ps != [] ==> Passes(ps[0], e)) && (fs != [] ==> Passes(fs[0], e)) then [e] else []
  {
    hide Passes;
    if ps != [] { assert ps == [ps[0]]; OneFilter(ps[0], [e]); }
    if fs != [] { assert fs == [fs[0]]; OneFilter(fs[0], [e]); OneFilter(fs[0], []); }
    assert [e][1..] == [];
  }

  predicate Selects(prefix: Str, fs: seq<Filter>, e: Entry) {
    Under(NewKey(prefix), e.key) && (fs != [] ==> Passes(fs[0], e))
  }

  lemma {:induction false} AskOne(prefix: Str, fs: seq<Filter>, e: Entry)
    requires |fs| <= 1
    ensures NaiveQueryApply(Ask(prefix, fs), [e]) == if Selects(prefix, fs, e) then [e] else []
  {
    if prefix == [] { NewKeyOfEmpty(); }
    hide NewKey;
    OnePasses(PrefixFilters(prefix), fs, e);
  }

  /** One stored entry, asked for by a prefix and at most one filter. */
  lemma {:induction false} OneAnswer(t: Transform, prefix: Str, fs: seq<Filter>, k: Str)
    requires Invertible(t) && IsKey(k) && |fs| <= 1 && CleanFilters(fs) && (fs != [] ==> !fs[0].Custom?)
    requires Answers(t, Ask(prefix, fs), [Entry(k, [], 0)])
    ensures Selects(t.convert(NewKey(prefix)), Pushed(t, fs), Entry(t.convert(k), [], 0))
            <==> Selects(prefix, fs, Entry(k, [], 0))
  {
    hide NewKey, Selects, NaiveQueryApply, Prepared, FilterAll, CleanFilters, IsKey, PushFilter;
    var e := Entry(k, [], 0);
    var d := Converted(t)(e);
    AskSplits(t, prefix, fs);
    AskOne(prefix, fs, e);
    AskOne(t.convert(NewKey(prefix)), Pushed(t, fs), d);
    assert AllKeys([e]) && MapEntries(Converted(t), [e]) == [d];
    var found := NaiveQueryApply(Prepared(t, Ask(prefix, fs)).1, [d]);
    MapIn(Inverted(t), found);
    NothingLeft(MapEntries(Inverted(t), found));
  }

  /** What OneAnswer says of a prefix alone. */
  lemma {:induction false} AnswersPrefix(t: Transform, l: Str, k: Str)
    requires Invertible(t) && IsKey(k) && IsKey(l) && forall q, vs :: Answers(t, q, vs)
    ensures Under(t.convert(l), t.convert(k)) <==> Under(l, k)
  {
    hide Answers, NewKey, Under, IsKey;
    NewKeyOfKey(l);
    NewKeyOfKey(t.convert(l));
    OneAnswer(t, l, [], k);
  }

  lemma {:induction false} AnswersRoot(t: Transform)
    requires Invertible(t) && forall q, vs :: Answers(t, q, vs)
    ensures t.convert(ROOT) == ROOT
  {
    hide Answers, IsKey;
    RootIsKey();
    AnswersPrefix(t, ROOT, ROOT);
  }

  /** A filter pushed to the child decides alike, as the prefix of everything selects everything. */
  lemma {:induction false} AnswersFilter(t: Transform, f: Filter, k: Str)
    requires Invertible(t) && IsKey(k) && CleanFilter(f) && !f.Custom?
    requires t.convert(ROOT) == ROOT && forall q, vs :: Answers(t, q, vs)
    ensures Passes(PushFilter(t, f).value, Entry(t.convert(k), [], 0)) <==> Passes(f, Entry(k, [], 0))
  {
    hide Answers, Passes, PushFilter, NewKey, IsKey;
    RootIsKey();
    NewKeyOfKey(ROOT);
    OneAnswer(t, ROOT, [f], k);
  }

  lemma {:induction false} AnswersFaithful(t: Transform, k: Str, l: Str)
    requires Invertible(t) && IsKey(k) && IsKey(l)
    requires forall q, vs :: Answers(t, q, vs)
    ensures Faithful(t, k, l)
  {
    hide Answers, Compare, NewKey, Under, IsKey;
    AnswersRoot(t);
    NewKeyOfKey(l);
    AnswersPrefix(t, l, k);
    AnswersFilter(t, KeyCompare(LessThan, l), k);
    AnswersFilter(t, KeyCompare(GreaterThan, l), k);
    AnswersFilter(t, KeyPrefix(l), k);
  }

  /** An invertible transform answers every query, however it is split, exactly if it is faithful. */
  lemma {:induction false} AnswersExactlyIf(t: Transform)
    requires Invertible(t)
    ensures (forall q, vs :: Answers(t, q, vs)) <==> AllFaithful(t)
  {
    hide Answers, Faithful;
    if AllFaithful(t) {
      forall q, vs ensures Answers(t, q, vs) { FaithfulAnswers(t, q, vs); }
    } else if forall q, vs :: Answers(t, q, vs) {
      forall k, l | IsKey(k) && IsKey(l) ensures Faithful(t, k, l) { AnswersFaithful(t, k, l); }
    }
  }
}
