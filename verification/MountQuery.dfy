/** Queries over mounted datastores: lookupAll, the merge of child results, and the flat view. */
module MountQuery {
  import opened Words
  import opened Keys
  import opened Queries
  import opened Mounts
  import opened MountStore

  // --- lookupAll ---------------------------------------------------------------------------------

  datatype Hit = Hit(mount: nat, rest: Str)

  /** lookupAll as a function: mounts below the key, up to the first one at or above it. */
  function LookupAllFrom(ms: seq<Mount>, key: Str, i: nat): seq<Hit>
    requires i <= |ms|
    decreases |ms| - i
  {
    if i == |ms| then []
    else if IsAncestorOf(key, ms[i].prefix) then [Hit(i, ROOT)] + LookupAllFrom(ms, key, i + 1)
    else if ms[i].prefix == key || IsAncestorOf(ms[i].prefix, key) then [Hit(i, Rest(ms[i].prefix, key))]
    else LookupAllFrom(ms, key, i + 1)
  }

  method LookupAll(ms: seq<Mount>, key: Str) returns (hits: seq<Hit>)
    ensures hits == LookupAllFrom(ms, key, 0)
  {
    hits := [];
    var i := 0;
    while i < |ms|
      invariant i <= |ms| && hits + LookupAllFrom(ms, key, i) == LookupAllFrom(ms, key, 0)
    {
      if IsAncestorOf(key, ms[i].prefix) {
        hits := hits + [Hit(i, NewKey([SLASH]))];
        assert NewKey([SLASH]) == ROOT by { RootIsKey(); NewKeyOfKey(ROOT); }
      } else if ms[i].prefix == key || IsAncestorOf(ms[i].prefix, key) {
        hits := hits + [Hit(i, NewKey(TrimPrefix(key, ms[i].prefix)))];
        return;
      }
      i := i + 1;
    }
  }

  lemma {:induction false} UnderIsAncestor(p: Str, k: Str)
    requires IsKey(p) && IsKey(k) && k != ROOT
    ensures Under(p, k) <==> IsAncestorOf(p, k)
  {
    KeyShape(p);
    KeyShape(k);
    if p != ROOT && IsAncestorOf(p, k) {
      assert k[..|p| + 1] == p + [SLASH];
    }
  }

  lemma {:induction false} AncestorTrans(p: Str, q: Str, r: Str)
    requires IsKey(p) && IsKey(q) && IsKey(r) && IsAncestorOf(p, q) && IsAncestorOf(q, r)
    ensures IsAncestorOf(p, r)
  {
    KeyShape(p);
    KeyShape(q);
    if p != ROOT {
      assert q != ROOT;
      assert r[..|q|] == q;
      assert r[|p|] == q[|p|] && r[..|p|] == q[..|p|];
    }
  }

  /** Two ancestors of one key are equal or one is an ancestor of the other. */
  lemma {:induction false} AncestorsComparable(p: Str, q: Str, r: Str)
    requires IsKey(p) && IsKey(q) && IsKey(r) && IsAncestorOf(p, r) && IsAncestorOf(q, r)
    ensures p == q || IsAncestorOf(p, q) || IsAncestorOf(q, p)
  {
    KeyShape(p);
    KeyShape(q);
    KeyShape(r);
    AncestorIsPrefix(p, r);
    AncestorIsPrefix(q, r);
    if |p| < |q| {
      assert q[..|p|] == r[..|p|] == p;
      assert p != ROOT ==> q[|p|] == r[|p|];
    } else if |q| < |p| {
      assert p[..|q|] == r[..|q|] == q;
      assert q != ROOT ==> p[|q|] == r[|q|];
    }
  }

  lemma {:induction false} HitsFrom(ms: seq<Mount>, key: Str, i: nat)
    requires i <= |ms|
    ensures forall h <- LookupAllFrom(ms, key, i) ::
      && i <= h.mount < |ms|
      && if IsAncestorOf(key, ms[h.mount].prefix) then h.rest == ROOT
         else (ms[h.mount].prefix == key || IsAncestorOf(ms[h.mount].prefix, key)) && h.rest == Rest(ms[h.mount].prefix, key)
    ensures forall a, b :: 0 <= a < b < |LookupAllFrom(ms, key, i)| ==>
      LookupAllFrom(ms, key, i)[a].mount < LookupAllFrom(ms, key, i)[b].mount
    decreases |ms| - i
  {
    if i < |ms| { HitsFrom(ms, key, i + 1); }
  }

  /** A mount with no mount at or above the key before it is reached before the early break. */
  lemma {:induction false} Reached(ms: seq<Mount>, key: Str, i: nat, n: nat)
    requires i <= n < |ms|
    requires forall j :: i <= j < n ==> ms[j].prefix != key && !IsAncestorOf(ms[j].prefix, key)
    requires IsAncestorOf(key, ms[n].prefix) || ms[n].prefix == key || IsAncestorOf(ms[n].prefix, key)
    ensures exists h <- LookupAllFrom(ms, key, i) :: h.mount == n
    decreases n - i
  {
    if i < n {
      Reached(ms, key, i + 1, n);
      var h :| h in LookupAllFrom(ms, key, i + 1) && h.mount == n;
      assert h in LookupAllFrom(ms, key, i);
    } else {
      assert LookupAllFrom(ms, key, i)[0].mount == n;
    }
  }

  /** A stored key that is not masked lies under the query's prefix exactly if its store is hit and it lies under the rest. */
  lemma {:induction false} Coverage(ms: seq<Mount>, key: Str, n: nat, k: Str)
    requires Keyed(ms) && IsKey(key) && n < |ms| && k in ms[n].store && Homed(ms, n, k)
    ensures Under(key, Child(ms[n].prefix, k)) <==>
            exists h <- LookupAllFrom(ms, key, 0) :: h.mount == n && Under(h.rest, k)
  {
    var p := ms[n].prefix;
    var x := Child(p, k);
    FindHomed(ms, n, k);
    assert ms[n] in ms;
    ChildIsBelow(p, k);
    HitsFrom(ms, key, 0);
    KeyShape(p);
    KeyShape(k);
    UnderIsAncestor(key, x);
    if Under(key, x) {
      CoverReached(ms, key, n, x);
      var h :| h in LookupAllFrom(ms, key, 0) && h.mount == n;
      UnderRest(p, key, k);
      assert Under(h.rest, k);
    }
    if h :| h in LookupAllFrom(ms, key, 0) && h.mount == n && Under(h.rest, k) {
      if IsAncestorOf(key, p) { AncestorTrans(key, p, x); } else { UnderRest(p, key, k); }
    }
  }

  lemma {:induction false} CoverReached(ms: seq<Mount>, key: Str, n: nat, x: Str)
    requires Keyed(ms) && IsKey(key) && IsKey(x) && n < |ms|
    requires Lookup(ms, x) == Some(n) && IsAncestorOf(key, x)
    ensures exists h <- LookupAllFrom(ms, key, 0) :: h.mount == n
  {
    LookupFirst(ms, x, 0);
    assert ms[n] in ms;
    forall j | 0 <= j < n ensures ms[j].prefix != key && !IsAncestorOf(ms[j].prefix, key) {
      assert ms[j] in ms;
      if IsAncestorOf(ms[j].prefix, key) { AncestorTrans(ms[j].prefix, key, x); }
    }
    AncestorsComparable(key, ms[n].prefix, x);
    Reached(ms, key, 0, n);
  }

  /** For a mount at or above the key, lying under the key is lying under the rest of the key. */
  lemma {:induction false} UnderRest(p: Str, key: Str, k: Str)
    requires IsKey(p) && IsKey(key) && IsKey(k) && k != ROOT
    requires IsAncestorOf(key, p) || p == key || IsAncestorOf(p, key)
    ensures !IsAncestorOf(key, p) ==> (Under(key, Child(p, k)) <==> Under(Rest(p, key), k))
  {
    KeyShape(p);
    KeyShape(key);
    KeyShape(k);
    if p == key {
      assert TrimPrefix(key, p) == [];
      assert Rest(p, key) == ROOT by { NewKeyOfEmpty(); }
      ChildIsBelow(p, k);
      ChildIsKey(p, k);
      UnderIsAncestor(key, Child(p, k));
    } else if IsAncestorOf(p, key) && !IsAncestorOf(key, p) {
      RestPutsBack(p, key);
      var r := Rest(p, key);
      if p != ROOT {
        assert key + [SLASH] == p + (r + [SLASH]);
        PrefixCancel(p, r + [SLASH], k);
      }
    }
  }
}
