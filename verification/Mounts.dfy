/** Datastores mounted at key prefixes: routing (datastore/mount/mount.go). */
module Mounts {
  import opened Words
  import opened Keys
  import opened Queries

  datatype Mount = Mount(prefix: Str, store: map<Str, Str>)

  // --- New ---------------------------------------------------------------------------------------

  predicate Before(a: Mount, b: Mount) {
    Compare(a.prefix, b.prefix) > 0
  }

  /** Most specific first. */
  predicate Descending(ms: seq<Mount>) {
    forall i, j :: 0 <= i < j < |ms| ==> Before(ms[i], ms[j])
  }

  predicate DistinctPrefixes(ms: seq<Mount>) {
    forall i, j :: 0 <= i < j < |ms| ==> ms[i].prefix != ms[j].prefix
  }

  function InsertMount(m: Mount, ms: seq<Mount>): seq<Mount> {
    if ms == [] || Before(m, ms[0]) then [m] + ms else [ms[0]] + InsertMount(m, ms[1..])
  }

  function SortMounts(ms: seq<Mount>): seq<Mount> {
    if ms == [] then [] else InsertMount(ms[0], SortMounts(ms[1..]))
  }

  lemma {:induction false} InsertDescends(m: Mount, ms: seq<Mount>)
    requires Descending(ms) && forall x <- ms :: x.prefix != m.prefix
    ensures Descending(InsertMount(m, ms)) && multiset(InsertMount(m, ms)) == multiset{m} + multiset(ms)
  {
    hide Before;
    if ms != [] {
      assert ms == [ms[0]] + ms[1..];
      if Before(m, ms[0]) {
        forall x <- ms ensures Before(m, x) {
          if x != ms[0] { BeforeTrans(m, ms[0], x); }
        }
      } else {
        BeforeTotal(m, ms[0]);
        InsertDescends(m, ms[1..]);
        var rest := InsertMount(m, ms[1..]);
        forall x <- rest ensures Before(ms[0], x) {
          assert x in multiset(rest);
        }
      }
    }
  }

  lemma {:induction false} BeforeTrans(a: Mount, b: Mount, c: Mount)
    requires Before(a, b) && Before(b, c)
    ensures Before(a, c)
  {
    CompareAll(a.prefix, b.prefix, c.prefix);
  }

  lemma {:induction false} BeforeTotal(a: Mount, b: Mount)
    requires a.prefix != b.prefix
    ensures Before(a, b) || Before(b, a)
  {
    CompareEqual(a.prefix, b.prefix);
    CompareFlip(a.prefix, b.prefix);
  }

  /** New: the mounts most specific first, whatever order they were given in. */
  lemma {:induction false} NewDescends(ms: seq<Mount>)
    requires DistinctPrefixes(ms)
    ensures Descending(SortMounts(ms)) && multiset(SortMounts(ms)) == multiset(ms)
  {
    if ms != [] {
      NewDescends(ms[1..]);
      assert ms == [ms[0]] + ms[1..];
      forall x <- SortMounts(ms[1..]) ensures x.prefix != ms[0].prefix {
        assert x in multiset(ms[1..]);
        var i :| 0 <= i < |ms[1..]| && ms[1..][i] == x;
        assert ms[i + 1] == x;
      }
      InsertDescends(ms[0], SortMounts(ms[1..]));
    }
  }

  // --- lookup ------------------------------------------------------------------------------------

  /** The first mount that is an ancestor of the key, from index i on. */
  function LookupFrom(ms: seq<Mount>, key: Str, i: nat): Option<nat>
    requires i <= |ms|
    decreases |ms| - i
  {
    if i == |ms| then None
    else if IsAncestorOf(ms[i].prefix, key) then Some(i)
    else LookupFrom(ms, key, i + 1)
  }

  function Lookup(ms: seq<Mount>, key: Str): Option<nat> {
    LookupFrom(ms, key, 0)
  }

  lemma {:induction false} LookupFirst(ms: seq<Mount>, key: Str, i: nat)
    requires i <= |ms|
    ensures match LookupFrom(ms, key, i)
            case Some(n) => i <= n < |ms| && IsAncestorOf(ms[n].prefix, key)
                            && forall j :: i <= j < n ==> !IsAncestorOf(ms[j].prefix, key)
            case None => forall j :: i <= j < |ms| ==> !IsAncestorOf(ms[j].prefix, key)
    decreases |ms| - i
  {
    if i < |ms| && !IsAncestorOf(ms[i].prefix, key) { LookupFirst(ms, key, i + 1); }
  }

  lemma {:induction false} CompareExtension(p: Str, s: Str)
    requires s != []
    ensures Compare(p + s, p) == 1
  {
    ComparePrefix(p, s, []);
    assert p + [] == p;
  }

  lemma {:induction false} AncestorIsPrefix(p: Str, k: Str)
    requires IsKey(p) && IsKey(k) && IsAncestorOf(p, k)
    ensures p <= k && |p| < |k|
  {
    KeyShape(p);
    KeyShape(k);
  }

  /** Of two prefixes of one key the longer one sorts first. */
  lemma {:induction false} LongerIsBefore(m: Mount, n: Mount, key: Str)
    requires m.prefix <= key && n.prefix <= key && |m.prefix| > |n.prefix|
    ensures Before(m, n) && !Before(n, m)
  {
    var p, q := n.prefix, m.prefix;
    assert q == p + q[|p|..];
    CompareExtension(p, q[|p|..]);
    CompareFlip(p, q);
  }

  /** lookup picks the longest strict ancestor among the mounts. */
  lemma {:induction false} LookupIsLongest(ms: seq<Mount>, key: Str)
    requires Descending(ms) && IsKey(key) && forall m <- ms :: IsKey(m.prefix)
    ensures match Lookup(ms, key)
            case Some(n) => n < |ms| && IsAncestorOf(ms[n].prefix, key)
                            && forall j :: 0 <= j < |ms| && IsAncestorOf(ms[j].prefix, key) ==> |ms[j].prefix| <= |ms[n].prefix|
            case None => forall j :: 0 <= j < |ms| ==> !IsAncestorOf(ms[j].prefix, key)
  {
    LookupFirst(ms, key, 0);
    hide IsAncestorOf, IsKey, Before, LookupFrom;
    match Lookup(ms, key)
    case None =>
    case Some(n) =>
      forall j | 0 <= j < |ms| && IsAncestorOf(ms[j].prefix, key)
        ensures |ms[j].prefix| <= |ms[n].prefix|
      {
        AncestorIsPrefix(ms[n].prefix, key);
        AncestorIsPrefix(ms[j].prefix, key);
        if |ms[j].prefix| > |ms[n].prefix| { LongerIsBefore(ms[j], ms[n], key); }
      }
  }

  // --- The key inside the mounted store ----------------------------------------------------------

  /** TrimPrefix and NewKey on a key below a mount: the rest, which Child puts back. */
  function Rest(prefix: Str, key: Str): Str {
    NewKey(TrimPrefix(key, prefix))
  }

  lemma {:induction false} JoinPrefix(cs: seq<Str>, ds: seq<Str>)
    requires AllNames(cs) && AllNames(ds) && |Join(ds)| > |Join(cs)|
    requires Join(ds)[..|Join(cs)|] == Join(cs) && Join(ds)[|Join(cs)|] == SLASH
    ensures |cs| < |ds| && ds[..|cs|] == cs
  {
    hide Join, Split, AllNames;
    var t := Join(ds)[|Join(cs)| + 1..];
    assert Join(ds) == Join(cs) + [SLASH] + t;
    SplitConcat(Join(cs), t);
    SplitJoin(cs);
    SplitJoin(ds);
    assert ([[]] + ds)[1..] == ds && ([[]] + cs + Split(t))[1..] == cs + Split(t);
  }

  lemma {:induction false} RestUnderRoot(key: Str)
    requires IsKey(key) && key != ROOT
    ensures Rest(ROOT, key) == key
  {
    KeyShape(key);
    var t := key[1..];
    assert [SLASH] + t == key && TrimPrefix(key, ROOT) == t;
    hide Split, Render, IsKey;
    SplitCons(SLASH, t);
    NewKeyOfKey(key);
    var parts: seq<Str> := [[]] + Split(t);
    assert parts[1..] == Split(t);
    assert Resolve(parts, []) == Resolve(Split(t), []);
  }

  lemma {:induction false} RestUnderNames(cs: seq<Str>, ds: seq<Str>)
    requires AllNames(cs) && AllNames(ds) && cs != [] && |Join(ds)| > |Join(cs)|
    requires Join(ds)[..|Join(cs)|] == Join(cs) && Join(ds)[|Join(cs)|] == SLASH
    ensures IsKey(Join(ds)[|Join(cs)|..])
  {
    hide Join;
    JoinPrefix(cs, ds);
    var more := ds[|cs|..];
    JoinAppend(cs, more);
    assert ds == cs + more;
    assert AllNames(more) && Join(ds)[|Join(cs)|..] == Render(more);
  }

  lemma {:induction false} RestPutsBack(prefix: Str, key: Str)
    requires IsKey(prefix) && IsKey(key) && IsAncestorOf(prefix, key)
    ensures IsKey(Rest(prefix, key)) && Rest(prefix, key) != ROOT && Child(prefix, Rest(prefix, key)) == key
  {
    hide Join, NewKey, AllNames;
    KeyShape(prefix);
    KeyShape(key);
    AncestorIsPrefix(prefix, key);
    if prefix == ROOT {
      RestUnderRoot(key);
    } else {
      var cs :| AllNames(cs) && prefix == Render(cs);
      var ds :| AllNames(ds) && key == Render(ds);
      RestUnderNames(cs, ds);
      NewKeyOfKey(key[|prefix|..]);
    }
  }

  lemma {:induction false} ChildIsBelow(prefix: Str, k: Str)
    requires IsKey(prefix) && IsKey(k) && k != ROOT
    ensures IsAncestorOf(prefix, Child(prefix, k)) && Rest(prefix, Child(prefix, k)) == k
  {
    KeyShape(prefix);
    KeyShape(k);
    ChildIsKey(prefix, k);
    RestPutsBack(prefix, Child(prefix, k));
    var r := Rest(prefix, Child(prefix, k));
    if prefix != ROOT {
      assert prefix + r == prefix + k;
      assert r == (prefix + r)[|prefix|..] && k == (prefix + k)[|prefix|..];
    }
  }
}
