/** Datastore keys: slash-separated clean paths (datastore/key.go). Go strings are byte strings. */
module Keys {
  import opened Words

  type Str = seq<Byte>

  const SLASH: Byte := '/' as int
  const DOT: Byte := '.' as int
  const ROOT: Str := [SLASH]

  // --- path.Clean on rooted paths ----------------------------------------------------------------

  /** The parts between slashes. */
  function Split(s: Str): (cs: seq<Str>)
    ensures cs != []
  {
    if s == [] then [[]]
    else
      var rest := Split(s[1..]);
      if s[0] == SLASH then [[]] + rest else [[s[0]] + rest[0]] + rest[1..]
  }

  /** A name that can stand between slashes of a clean path. */
  predicate IsName(c: Str) {
    c != [] && SLASH !in c && c != [DOT] && c != [DOT, DOT]
  }

  predicate AllNames(cs: seq<Str>) {
    forall i :: 0 <= i < |cs| ==> IsName(cs[i])
  }

  /** Resolves empty, dot and dot-dot parts against the names seen so far. */
  function Resolve(cs: seq<Str>, done: seq<Str>): seq<Str> {
    if cs == [] then done
    else if cs[0] == [] || cs[0] == [DOT] then Resolve(cs[1..], done)
    else if cs[0] == [DOT, DOT] then Resolve(cs[1..], if done == [] then [] else done[..|done| - 1])
    else Resolve(cs[1..], done + [cs[0]])
  }

  function Join(cs: seq<Str>): Str {
    if cs == [] then [] else [SLASH] + cs[0] + Join(cs[1..])
  }

  function Render(cs: seq<Str>): Str {
    if cs == [] then ROOT else Join(cs)
  }

  /** NewKey: the path is cleaned as if it began with a slash. */
  function NewKey(s: Str): Str {
    Render(Resolve(Split(s), []))
  }

  /** The keys that NewKey makes. */
  ghost predicate IsKey(k: Str) {
    exists cs :: AllNames(cs) && k == Render(cs)
  }

  // --- Operations on keys ------------------------------------------------------------------------

  /** Child, for keys; RawKey's sanity check on the concatenation never fails (ChildIsKey). */
  function Child(k: Str, k2: Str): Str {
    if k == ROOT then k2 else if k2 == ROOT then k else k + k2
  }

  predicate IsAncestorOf(k: Str, other: Str) {
    if |other| <= |k| then false
    else if k == ROOT then true
    else other[|k|] == SLASH && other[..|k|] == k
  }

  predicate HasPrefix(s: Str, p: Str) {
    p <= s
  }

  function TrimPrefix(s: Str, p: Str): Str {
    if p <= s then s[|p|..] else s
  }

  // --- Facts -------------------------------------------------------------------------------------

  lemma {:induction false} SplitNoSlash(s: Str)
    requires SLASH !in s
    ensures Split(s) == [s]
  {
    if s != [] {
      assert s[0] in s;
      assert forall x :: x in s[1..] ==> x in s;
      SplitNoSlash(s[1..]);
      assert [s[0]] + s[1..] == s;
    }
  }

  lemma {:induction false} SplitCons(c: Byte, s: Str)
    ensures Split([c] + s) == if c == SLASH then [[]] + Split(s) else [[c] + Split(s)[0]] + Split(s)[1..]
    ensures Split([]) == [[]]
  {
    assert ([c] + s)[1..] == s;
  }

  lemma {:induction false} SplitConcat(a: Str, t: Str)
    ensures Split(a + [SLASH] + t) == Split(a) + Split(t)
  {
    hide Split;
    if a == [] {
      SplitCons(SLASH, t);
      assert a + [SLASH] + t == [SLASH] + t;
    } else {
      var a' := a[1..];
      SplitConcat(a', t);
      SplitCons(a[0], a');
      SplitCons(a[0], a' + [SLASH] + t);
      assert a == [a[0]] + a' && a + [SLASH] + t == [a[0]] + (a' + [SLASH] + t);
    }
  }

  /** Joining undoes splitting. */
  lemma {:induction false} JoinSplit(s: Str)
    ensures Join(Split(s)) == [SLASH] + s
  {
    if s != [] {
      JoinSplit(s[1..]);
      var rest := Split(s[1..]);
      JoinCons(rest[0], rest[1..]);
      assert rest == [rest[0]] + rest[1..];
      SplitCons(s[0], s[1..]);
      assert s == [s[0]] + s[1..];
      hide Split, Join;
      if s[0] == SLASH {
        JoinCons([], rest);
      } else {
        JoinCons([s[0]] + rest[0], rest[1..]);
        Longer(s[0], rest[0], Join(rest[1..]), s[1..]);
      }
    }
  }

  lemma JoinCons(c: Str, cs: seq<Str>)
    ensures Join([c] + cs) == [SLASH] + c + Join(cs)
  {
    assert ([c] + cs)[1..] == cs;
  }

  lemma Longer(x: Byte, a: Str, b: Str, t: Str)
    requires [SLASH] + a + b == [SLASH] + t
    ensures [SLASH] + ([x] + a) + b == [SLASH] + ([x] + t)
  {
    assert a + b == ([SLASH] + a + b)[1..] == t;
  }

  predicate NoSlashes(cs: seq<Str>) {
    forall i :: 0 <= i < |cs| ==> SLASH !in cs[i]
  }

  /** Splitting undoes joining. */
  lemma {:induction false} SplitJoinParts(cs: seq<Str>)
    requires NoSlashes(cs)
    ensures Split(Join(cs)) == [[]] + cs
  {
    if cs != [] {
      var rest := Join(cs[1..]);
      assert Join(cs) == [SLASH] + (cs[0] + rest);
      hide Split, Join;
      SplitCons(SLASH, cs[0] + rest);
      SplitNoSlash(cs[0]);
      SplitJoinParts(cs[1..]);
      JoinStarts(cs[1..]);
      if |cs| == 1 {
        assert cs[0] + rest == cs[0];
        assert [cs[0]] == cs;
      } else {
        var t := rest[1..];
        SplitCons(SLASH, t);
        assert rest == [SLASH] + t;
        assert ([[]] + Split(t))[1..] == ([[]] + cs[1..])[1..];
        assert cs[0] + rest == cs[0] + [SLASH] + t;
        SplitConcat(cs[0], t);
        assert [cs[0]] + cs[1..] == cs;
      }
    }
  }

  lemma JoinStarts(cs: seq<Str>)
    ensures if cs == [] then Join(cs) == [] else Join(cs) != [] && Join(cs)[0] == SLASH
  {
  }

  lemma {:induction false} SplitJoin(cs: seq<Str>)
    requires AllNames(cs)
    ensures Split(Join(cs)) == [[]] + cs
  {
    hide Split, Join;
    SplitJoinParts(cs);
  }

  lemma {:induction false} ResolveNames(cs: seq<Str>, done: seq<Str>)
    requires AllNames(cs)
    ensures Resolve(cs, done) == done + cs
  {
    if cs != [] {
      ResolveNames(cs[1..], done + [cs[0]]);
      assert done + [cs[0]] + cs[1..] == done + cs;
    }
  }

  lemma {:induction false} SplitParts(s: Str)
    ensures forall i :: 0 <= i < |Split(s)| ==> SLASH !in Split(s)[i]
  {
    if s != [] { SplitParts(s[1..]); }
  }

  lemma {:induction false} ResolveIsNames(cs: seq<Str>, done: seq<Str>)
    requires AllNames(done) && forall i :: 0 <= i < |cs| ==> SLASH !in cs[i]
    ensures AllNames(Resolve(cs, done))
  {
    if cs != [] {
      if cs[0] == [] || cs[0] == [DOT] {
        ResolveIsNames(cs[1..], done);
      } else if cs[0] == [DOT, DOT] {
        ResolveIsNames(cs[1..], if done == [] then [] else done[..|done| - 1]);
      } else {
        ResolveIsNames(cs[1..], done + [cs[0]]);
      }
    }
  }

  lemma {:induction false} NewKeyIsKey(s: Str)
    ensures IsKey(NewKey(s))
  {
    SplitParts(s);
    ResolveIsNames(Split(s), []);
  }

  /** Cleaning a clean key changes nothing. */
  lemma {:induction false} NewKeyOfKey(k: Str)
    requires IsKey(k)
    ensures NewKey(k) == k
  {
    var cs :| AllNames(cs) && k == Render(cs);
    if cs == [] {
      assert ROOT[1..] == [];
      var two: seq<Str> := [[], []];
      assert Split(ROOT) == two;
      assert two[1..] == [[]] && two[1..][1..] == [];
      assert Resolve(two, []) == Resolve(two[1..], []) == [];
    } else {
      SplitJoin(cs);
      assert ([[]] + cs)[1..] == cs;
      ResolveNames(cs, []);
      assert [] + cs == cs;
    }
  }

  lemma {:induction false} JoinAppend(cs: seq<Str>, ds: seq<Str>)
    ensures Join(cs + ds) == Join(cs) + Join(ds)
  {
    if cs == [] {
      assert cs + ds == ds;
    } else {
      assert (cs + ds)[1..] == cs[1..] + ds;
      JoinAppend(cs[1..], ds);
    }
  }

  lemma {:induction false} ChildIsKey(k: Str, k2: Str)
    requires IsKey(k) && IsKey(k2)
    ensures IsKey(Child(k, k2))
  {
    var cs :| AllNames(cs) && k == Render(cs);
    var ds :| AllNames(ds) && k2 == Render(ds);
    if cs != [] && ds != [] {
      JoinAppend(cs, ds);
      assert AllNames(cs + ds) && Render(cs + ds) == k + k2;
    }
  }

  /** What RawKey checks. */
  lemma {:induction false} KeyShape(k: Str)
    requires IsKey(k)
    ensures |k| > 0 && k[0] == SLASH && (k == ROOT || (|k| > 1 && k[|k| - 1] != SLASH))
  {
    var cs :| AllNames(cs) && k == Render(cs);
    if cs != [] { JoinShape(cs); }
  }

  lemma {:induction false} JoinShape(cs: seq<Str>)
    requires AllNames(cs) && cs != []
    ensures |Join(cs)| > 1 && Join(cs)[0] == SLASH && Join(cs)[|Join(cs)| - 1] != SLASH
  {
    if |cs| == 1 {
      assert Join(cs) == [SLASH] + cs[0];
      assert cs[0][|cs[0]| - 1] in cs[0];
    } else {
      JoinShape(cs[1..]);
    }
  }

  lemma RootIsKey()
    ensures IsKey(ROOT)
  {
    assert AllNames([]) && Render([]) == ROOT;
  }

  lemma NewKeyOfEmpty()
    ensures NewKey([]) == ROOT
  {
    var one: seq<Str> := [[]];
    assert Split([]) == one && one[1..] == [];
    assert Resolve(one, []) == [];
  }

  lemma {:induction false} PrefixCancel(p: Str, c: Str, s: Str)
    ensures p + c <= p + s <==> c <= s
  {
    if p + c <= p + s {
      assert forall i :: 0 <= i < |c| ==> c[i] == (p + c)[|p| + i] == (p + s)[|p| + i] == s[i];
    }
  }
}
