/** Splitting, joining and wrapping multiaddrs (multiformats/multiaddr: util.go, multiaddr.go). */
module Multiaddr {
  import opened Words
  import opened Varint
  import opened Keys
  import opened Components

  lemma {:induction false} ReadProgress(t: Tables, b: Str)
    requires ReadComponent(t, b).Found?
    ensures 0 < ReadComponent(t, b).n <= |b|
  {
    hide FromBytes;
    var code := ReadCode(b);
    ReadCodeExact(b, code.value, code.n);
    if WithCode(t, code.value).Some? {
      var size := SizeFor(WithCode(t, code.value).value, b[code.n..]);
      if size.Ok? { ReadCodeExact(b[code.n..], size.value, size.n); }
    }
  }

  /** Component by component; None where the source panics. */
  function Parts(t: Tables, b: Str): Option<seq<Component>> {
    if b == [] then Some([])
    else match ReadComponent(t, b)
      case Broken => None
      case Found(n, c) =>
        ReadProgress(t, b);
        match Parts(t, b[n..])
        case None => None
        case Some(cs) => Some([c] + cs)
  }

  ghost predicate AllFit(t: Tables, cs: seq<Component>) {
    forall i :: 0 <= i < |cs| ==> Fits(t, cs[i])
  }

  lemma {:induction false} BytesNotEmpty(t: Tables, c: Component)
    requires Fits(t, c)
    ensures |Bytes(c)| > 0
  {
  }

  lemma {:induction false} BytesCons(c: Component, rest: seq<Component>)
    ensures AllBytes([c] + rest) == Bytes(c) + AllBytes(rest)
  {
    hide Bytes;
    assert ([c] + rest)[1..] == rest;
  }

  lemma {:induction false} PartsOfBytes(t: Tables, cs: seq<Component>)
    requires WellCoded(t) && AllFit(t, cs)
    ensures Parts(t, AllBytes(cs)) == Some(cs)
  {
    if cs != [] {
      hide ReadComponent, Bytes, WellCoded, Fits;
      var b := AllBytes(cs);
      BytesNotEmpty(t, cs[0]);
      ReadExact(t, b, |Bytes(cs[0])|, cs[0]);
      PartsOfBytes(t, cs[1..]);
      assert b[|Bytes(cs[0])|..] == AllBytes(cs[1..]);
      assert [cs[0]] + cs[1..] == cs;
    }
  }

  lemma {:induction false} FirstPart(t: Tables, b: Str)
    requires WellCoded(t) && b != [] && Parts(t, b).Some?
    ensures var r := ReadComponent(t, b);
            && r.Found? && 0 < r.n <= |b| && Fits(t, r.c) && b == Bytes(r.c) + b[r.n..]
            && Parts(t, b[r.n..]).Some? && Parts(t, b).value == [r.c] + Parts(t, b[r.n..]).value
  {
    hide ReadComponent, Bytes, WellCoded, Fits;
    var r := ReadComponent(t, b);
    ReadProgress(t, b);
    ReadExact(t, b, r.n, r.c);
    assert b == b[..r.n] + b[r.n..];
  }

  lemma {:induction false} BytesOfParts(t: Tables, b: Str)
    requires WellCoded(t) && Parts(t, b).Some?
    ensures AllFit(t, Parts(t, b).value) && AllBytes(Parts(t, b).value) == b
    decreases |b|
  {
    if b != [] {
      FirstPart(t, b);
      hide ReadComponent, Bytes, WellCoded, Fits, Parts, AllBytes;
      var r := ReadComponent(t, b);
      BytesOfParts(t, b[r.n..]);
      BytesCons(r.c, Parts(t, b[r.n..]).value);
    }
  }

  /** Split partitions the bytes exactly: the only list of fitting components with these bytes. */
  lemma {:induction false} PartsExact(t: Tables, b: Str, cs: seq<Component>)
    requires WellCoded(t)
    ensures Parts(t, b) == Some(cs) <==> AllFit(t, cs) && AllBytes(cs) == b
  {
    hide WellCoded, AllFit, Parts, AllBytes;
    if Parts(t, b) == Some(cs) { BytesOfParts(t, b); }
    if AllFit(t, cs) && AllBytes(cs) == b { PartsOfBytes(t, cs); }
  }

  lemma {:induction false} BytesAppend(cs: seq<Component>, ds: seq<Component>)
    ensures AllBytes(cs + ds) == AllBytes(cs) + AllBytes(ds)
  {
    if cs == [] {
      assert cs + ds == ds;
    } else {
      hide Bytes, AllBytes;
      var c, rest := cs[0], cs[1..];
      assert cs == [c] + rest;
      calc {
        AllBytes(cs + ds);
        { Regroup([c], rest, ds); }
        AllBytes([c] + (rest + ds));
        { BytesCons(c, rest + ds); BytesAppend(rest, ds); }
        Bytes(c) + (AllBytes(rest) + AllBytes(ds));
        { Regroup(Bytes(c), AllBytes(rest), AllBytes(ds)); BytesCons(c, rest); }
        AllBytes(cs) + AllBytes(ds);
      }
    }
  }

  /** Split distributes over Encapsulate. */
  lemma {:induction false} PartsOfConcat(t: Tables, a: Str, b: Str)
    requires WellCoded(t) && Parts(t, a).Some? && Parts(t, b).Some?
    ensures Parts(t, a + b) == Some(Parts(t, a).value + Parts(t, b).value)
  {
    hide WellCoded, Parts, AllBytes, Fits;
    var cs, ds := Parts(t, a).value, Parts(t, b).value;
    PartsExact(t, a, cs);
    PartsExact(t, b, ds);
    BytesAppend(cs, ds);
    PartsExact(t, a + b, cs + ds);
  }

  lemma {:induction false} BytesInjective(t: Tables, c: Component, d: Component)
    requires WellCoded(t) && Fits(t, c) && Fits(t, d)
    ensures Bytes(c) == Bytes(d) <==> c == d
  {
    hide Fits, Bytes, ReadComponent, WellCoded;
    if Bytes(c) == Bytes(d) {
      ReadExact(t, Bytes(c), |Bytes(c)|, c);
      ReadExact(t, Bytes(c), |Bytes(c)|, d);
    }
  }

  // --- The loops ---------------------------------------------------------------------------------

  /** The walk has reached offset, behind the first k components. */
  ghost predicate Walked(t: Tables, b: Str, cs: seq<Component>, k: nat, offset: nat) {
    k <= |cs| && offset <= |b| && b[..offset] == AllBytes(cs[..k]) && Parts(t, b[offset..]) == Some(cs[k..])
  }

  lemma {:induction false} WalkStart(t: Tables, b: Str)
    requires Parts(t, b).Some?
    ensures Walked(t, b, Parts(t, b).value, 0, 0)
  {
    hide Parts;
    assert b[0..] == b && Parts(t, b).value[0..] == Parts(t, b).value;
  }

  lemma {:induction false} WalkOn(t: Tables, b: Str, cs: seq<Component>, k: nat, offset: nat)
    requires WellCoded(t) && Walked(t, b, cs, k, offset) && offset < |b|
    ensures k < |cs| && ReadComponent(t, b[offset..]) == Found(|Bytes(cs[k])|, cs[k]) && Fits(t, cs[k])
    ensures 0 < |Bytes(cs[k])| <= |b| - offset && Walked(t, b, cs, k + 1, offset + |Bytes(cs[k])|)
  {
    hide ReadComponent, Bytes, WellCoded, AllBytes;
    var rest := b[offset..];
    var r := ReadComponent(t, rest);
    ReadProgress(t, rest);
    ReadExact(t, rest, r.n, r.c);
    assert cs[k..][0] == r.c == cs[k] && cs[k..][1..] == cs[k + 1..];
    assert rest[r.n..] == b[offset + r.n..];
    assert rest[..r.n] == Bytes(r.c);
    assert b[..offset + r.n] == b[..offset] + rest[..r.n];
    BytesAppend(cs[..k], [cs[k]]);
    assert cs[..k + 1] == cs[..k] + [cs[k]];
    BytesOne(cs[k]);
  }

  lemma BytesOne(c: Component)
    ensures AllBytes([c]) == Bytes(c)
  {
    hide Bytes;
    var one := [c];
    assert one[1..] == [];
  }

  lemma {:induction false} WalkEnd(t: Tables, b: Str, cs: seq<Component>, k: nat, offset: nat)
    requires WellCoded(t) && Walked(t, b, cs, k, offset)
    ensures offset == |b| <==> k == |cs|
    ensures b[offset..] == AllBytes(cs[k..])
  {
    NothingLeft(t);
    hide AllBytes, Parts, WellCoded, AllFit;
    PartsExact(t, b[offset..], cs[k..]);
    if offset == |b| {
      assert b[offset..] == [];
      assert |cs[k..]| == 0;
    } else {
      assert |b[offset..]| > 0;
      assert cs[k..] != [];
    }
  }

  lemma NothingLeft(t: Tables)
    ensures AllBytes([]) == [] && Parts(t, []) == Some([])
  {
  }

  method Split(t: Tables, m: Str) returns (addrs: seq<Component>)
    requires WellCoded(t) && Parts(t, m).Some?
    ensures addrs == Parts(t, m).value
  {
    hide WellCoded, AllBytes, ReadComponent, Parts;
    ghost var cs := Parts(t, m).value;
    WalkStart(t, m);
    addrs := [];
    var offset := 0;
    while offset < |m|
      invariant Walked(t, m, cs, |addrs|, offset) && addrs == cs[..|addrs|]
      decreases |m| - offset
    {
      WalkOn(t, m, cs, |addrs|, offset);
      var r := ReadComponent(t, m[offset..]);
      addrs, offset := addrs + [r.c], offset + r.n;
    }
    WalkEnd(t, m, cs, |addrs|, offset);
  }

  /** nil for nothing left. */
  function NonEmpty(cs: seq<Component>): Option<Str> {
    if cs == [] then None else Some(AllBytes(cs))
  }

  method SplitFirst(t: Tables, m: Str) returns (first: Option<Component>, rest: Option<Str>)
    requires WellCoded(t) && Parts(t, m).Some?
    ensures var cs := Parts(t, m).value;
            if cs == [] then first == None && rest == None
            else first == Some(cs[0]) && rest == NonEmpty(cs[1..])
  {
    hide WellCoded, AllBytes, ReadComponent, Parts;
    ghost var cs := Parts(t, m).value;
    WalkStart(t, m);
    WalkEnd(t, m, cs, 0, 0);
    if |m| == 0 { return None, None; }
    WalkOn(t, m, cs, 0, 0);
    assert m[0..] == m;
    var r := ReadComponent(t, m);
    WalkEnd(t, m, cs, 1, r.n);
    if |m| == r.n { return Some(r.c), None; }
    return Some(r.c), Some(m[r.n..]);
  }

  method SplitLast(t: Tables, m: Str) returns (rest: Option<Str>, last: Option<Component>)
    requires WellCoded(t) && Parts(t, m).Some?
    ensures var cs := Parts(t, m).value;
            if cs == [] then last == None && rest == None
            else last == Some(cs[|cs| - 1]) && rest == NonEmpty(cs[..|cs| - 1])
  {
    hide WellCoded, AllBytes, ReadComponent, Parts;
    ghost var cs := Parts(t, m).value;
    WalkStart(t, m);
    WalkEnd(t, m, cs, 0, 0);
    if |m| == 0 { return None, None; }
    var offset := 0;
    ghost var k := 0;
    while true
      invariant Walked(t, m, cs, k, offset) && offset < |m| && (k == 0 <==> offset == 0)
      decreases |m| - offset
    {
      WalkOn(t, m, cs, k, offset);
      var r := ReadComponent(t, m[offset..]);
      WalkEnd(t, m, cs, k + 1, offset + r.n);
      if |m| == r.n + offset {
        if offset == 0 { return None, Some(r.c); }
        return Some(m[..offset]), Some(r.c);
      }
      offset := offset + r.n;
      k := k + 1;
    }
  }

  /** The first index from i on at which the callback holds. */
  function FirstWhere(cs: seq<Component>, cb: Component -> bool, i: nat): (k: nat)
    requires i <= |cs|
    ensures i <= k <= |cs| && (k < |cs| ==> cb(cs[k])) && forall j :: i <= j < k ==> !cb(cs[j])
    decreases |cs| - i
  {
    if i == |cs| || cb(cs[i]) then i else FirstWhere(cs, cb, i + 1)
  }

  method SplitFunc(t: Tables, m: Str, cb: Component -> bool) returns (left: Option<Str>, right: Option<Str>)
    requires WellCoded(t) && Parts(t, m).Some?
    ensures var cs := Parts(t, m).value;
            var k := FirstWhere(cs, cb, 0);
            left == NonEmpty(cs[..k]) && right == NonEmpty(cs[k..])
  {
    hide WellCoded, AllBytes, ReadComponent, Parts;
    ghost var cs := Parts(t, m).value;
    WalkStart(t, m);
    WalkEnd(t, m, cs, 0, 0);
    if |m| == 0 { return None, None; }
    var offset := 0;
    ghost var k := 0;
    while offset < |m|
      invariant Walked(t, m, cs, k, offset) && (k == 0 <==> offset == 0)
      invariant FirstWhere(cs, cb, k) == FirstWhere(cs, cb, 0)
      decreases |m| - offset
    {
      WalkOn(t, m, cs, k, offset);
      var r := ReadComponent(t, m[offset..]);
      if cb(r.c) { break; }
      offset := offset + r.n;
      k := k + 1;
    }
    WalkEnd(t, m, cs, k, offset);
    assert m[..|m|] == m && m[0..] == m;
    if offset == 0 { return None, Some(m); }
    if offset == |m| { return Some(m), None; }
    return Some(m[..offset]), Some(m[offset..]);
  }

  // --- Joining and wrapping ----------------------------------------------------------------------

  function Concat(ms: seq<Option<Str>>): Str {
    if ms == [] then []
    else Concat(ms[..|ms| - 1]) + (if ms[|ms| - 1].Some? then ms[|ms| - 1].value else [])
  }

  lemma {:induction false} ConcatNext(ms: seq<Option<Str>>, i: nat)
    requires i < |ms|
    ensures Concat(ms[..i + 1]) == Concat(ms[..i]) + (if ms[i].Some? then ms[i].value else [])
    ensures |Concat(ms[..i + 1])| <= |Concat(ms)|
    decreases |ms| - i
  {
    assert ms[..i + 1][..i] == ms[..i];
    if i + 1 < |ms| { ConcatNext(ms, i + 1); } else { assert ms[..i + 1] == ms; }
  }

  /** copy, into a buffer filled so far up to an index. */
  method CopyAt(b: array<Byte>, at: nat, m: Str)
    requires at + |m| <= b.Length
    modifies b
    ensures b[..at + |m|] == old(b[..at]) + m
  {
    ghost var filled := b[..at];
    forall j | 0 <= j < |m| { b[at + j] := m[j]; }
    assert b[..at] == filled;
  }

  /** None stands for a nil multiaddr. */
  function Joined(ms: seq<Option<Str>>): Option<Str> {
    if |ms| == 0 then Some([])
    else if |ms| == 1 then ms[0]
    else if Concat(ms) == [] then None else Some(Concat(ms))
  }

  method Join(ms: seq<Option<Str>>) returns (r: Option<Str>)
    ensures r == Joined(ms)
  {
    if |ms| == 0 { return Some([]); }
    if |ms| == 1 { return ms[0]; }
    ConcatNone(ms);
    hide Concat;
    assert ms[..|ms|] == ms;
    var length, i := 0, 0;
    while i < |ms|
      invariant i <= |ms| && length == |Concat(ms[..i])|
    {
      ConcatNext(ms, i);
      if ms[i].Some? { length := length + |ms[i].value|; }
      i := i + 1;
    }
    if length == 0 { return None; }
    var b := new Byte[length];
    var bidx: nat := 0;
    i := 0;
    while i < |ms|
      invariant i <= |ms| && bidx <= b.Length == |Concat(ms)| && b[..bidx] == Concat(ms[..i])
    {
      ConcatNext(ms, i);
      if ms[i].Some? {
        CopyAt(b, bidx, ms[i].value);
        bidx := bidx + |ms[i].value|;
      }
      i := i + 1;
    }
    return Some(b[..bidx]);
  }

  lemma ConcatNone(ms: seq<Option<Str>>)
    ensures Concat(ms[..0]) == []
  {
  }

  method Encapsulate(m: Str, o: Option<Str>) returns (r: Str)
    ensures r == m + (if o.Some? then o.value else [])
  {
    if o.None? { return m; }
    var b := new Byte[|m| + |o.value|];
    CopyAt(b, 0, m);
    CopyAt(b, |m|, o.value);
    r := b[..];
  }

  /** The right parts begin at index i of the left parts. */
  ghost predicate MatchAt(left: seq<Component>, right: seq<Component>, i: nat) {
    right != [] && i + |right| <= |left| && left[i..i + |right|] == right
  }

  /** The last match below n, or -1. */
  ghost function LastMatch(left: seq<Component>, right: seq<Component>, n: nat): int {
    if n == 0 then -1 else if MatchAt(left, right, n - 1) then n - 1 else LastMatch(left, right, n - 1)
  }

  lemma {:induction false} LastMatchIs(left: seq<Component>, right: seq<Component>, i: nat, n: nat)
    requires i < n && MatchAt(left, right, i) && forall k :: i < k < n ==> !MatchAt(left, right, k)
    ensures LastMatch(left, right, n) == i
  {
    hide MatchAt;
    if n - 1 > i { LastMatchIs(left, right, i, n - 1); }
  }

  ghost function Decapsulated(t: Tables, m: Str, right: Str): Option<Str>
    requires Parts(t, m).Some? && Parts(t, right).Some?
  {
    var left := Parts(t, m).value;
    var i := LastMatch(left, Parts(t, right).value, |left|);
    if i < 0 then Some(m) else if i > |left| then None else NonEmpty(left[..i])
  }

  /** Unwrapping what was wrapped gives the same bytes back. */
  lemma {:induction false} DecapsulateEncapsulated(t: Tables, m: Str, o: Str)
    requires WellCoded(t) && Parts(t, m).Some? && Parts(t, o).Some? && m != [] && o != []
    ensures Parts(t, m + o).Some? && Decapsulated(t, m + o, o) == Some(m)
  {
    hide Fits, WellCoded, Parts;
    PartsOfConcat(t, m, o);
    var a, b := Parts(t, m).value, Parts(t, o).value;
    PartsExact(t, m, a);
    PartsExact(t, o, b);
    assert (a + b)[|a|..] == b && (a + b)[..|a|] == a;
    LastMatchIs(a + b, b, |a|, |a + b|);
  }

  lemma {:induction false} Mismatch(left: seq<Component>, right: seq<Component>, i: nat, j: nat)
    requires j < |right| && i + j < |left| && right[j] != left[i + j]
    ensures !MatchAt(left, right, i)
  {
    if i + |right| <= |left| { assert left[i..i + |right|][j] == left[i + j]; }
  }

  lemma {:induction false} PartsNotEmpty(t: Tables, cs: seq<Component>, n: nat)
    requires AllFit(t, cs) && 0 < n <= |cs|
    ensures |AllBytes(cs[..n])| > 0
  {
    hide Bytes;
    BytesNotEmpty(t, cs[0]);
    assert cs[..n][0] == cs[0];
  }

  method MatchesAt(t: Tables, left: seq<Component>, right: seq<Component>, i: nat) returns (found: bool)
    requires WellCoded(t) && AllFit(t, left) && AllFit(t, right) && i < |left|
    ensures found <==> MatchAt(left, right, i)
  {
    hide WellCoded, Fits, Bytes;
    found := false;
    var j := 0;
    while j < |right|
      invariant j <= |right| && i + j <= |left| && left[i..i + j] == right[..j] && found == (j > 0)
    {
      if |left| <= i + j { return false; }
      BytesInjective(t, right[j], left[i + j]);
      found := Bytes(right[j]) == Bytes(left[i + j]);
      if !found {
        Mismatch(left, right, i, j);
        return false;
      }
      assert left[i..i + j + 1] == left[i..i + j] + [left[i + j]];
      j := j + 1;
    }
  }

  method Decapsulate(t: Tables, m: Str, right: Option<Str>) returns (r: Option<Str>)
    requires WellCoded(t) && Parts(t, m).Some? && (right.Some? ==> Parts(t, right.value).Some?)
    ensures r == if right.None? then Some(m) else Decapsulated(t, m, right.value)
  {
    hide WellCoded, AllFit, Parts, MatchAt, AllBytes;
    if right.None? { return Some(m); }
    var leftParts := Split(t, m);
    var rightParts := Split(t, right.value);
    PartsExact(t, m, leftParts);
    PartsExact(t, right.value, rightParts);
    var lastIndex := -1;
    var i := 0;
    while i < |leftParts|
      invariant i <= |leftParts| && lastIndex == LastMatch(leftParts, rightParts, i) < i
    {
      var found := MatchesAt(t, leftParts, rightParts, i);
      if found { lastIndex := i; }
      i := i + 1;
    }
    if lastIndex == 0 { return None; }
    if lastIndex < 0 { return Some(m); }
    var parts := seq(lastIndex, j requires 0 <= j < |leftParts| => Some(Bytes(leftParts[j])));
    JoinParts(leftParts[..lastIndex], parts);
    PartsNotEmpty(t, leftParts, lastIndex);
    r := Join(parts);
  }

  /** What Split gives, as multiaddrs of one component each. */
  function Singles(cs: seq<Component>): (ms: seq<Option<Str>>)
    ensures |ms| == |cs| && forall i :: 0 <= i < |cs| ==> ms[i] == Some(Bytes(cs[i]))
  {
    seq(|cs|, i requires 0 <= i < |cs| => Some(Bytes(cs[i])))
  }

  /** Split and Join are inverse: every list of fitting components is split off again, and every
      well-formed address is joined together again. */
  lemma {:induction false} JoinSplits(t: Tables, m: Str, cs: seq<Component>)
    requires WellCoded(t)
    ensures Parts(t, m) == Some(cs) <==> AllFit(t, cs) && Joined(Singles(cs)) == Some(m)
  {
    JoinParts(cs, Singles(cs));
    PartsExact(t, m, cs);
    hide WellCoded, AllFit, Parts;
    if |cs| == 1 {
      assert cs[1..] == [] && AllBytes(cs) == Bytes(cs[0]) + AllBytes([]);
    } else if |cs| > 1 && AllFit(t, cs) {
      AllBytesNotEmpty(t, cs);
    }
  }

  lemma {:induction false} AllBytesNotEmpty(t: Tables, cs: seq<Component>)
    requires AllFit(t, cs) && cs != []
    ensures AllBytes(cs) != []
  {
    hide Bytes, Fits;
    BytesNotEmpty(t, cs[0]);
  }

  lemma {:induction false} JoinParts(cs: seq<Component>, ms: seq<Option<Str>>)
    requires |cs| == |ms| && forall j :: 0 <= j < |cs| ==> ms[j] == Some(Bytes(cs[j]))
    ensures Concat(ms) == AllBytes(cs)
    ensures |cs| == 1 ==> ms[0] == Some(AllBytes(cs))
  {
    hide Bytes;
    if cs != [] {
      var n := |cs| - 1;
      JoinParts(cs[..n], ms[..n]);
      BytesAppend(cs[..n], [cs[n]]);
      BytesOne(cs[n]);
      assert cs == cs[..n] + [cs[n]];
      if n == 0 { assert cs == [cs[0]]; }
    }
  }
}
