/** The base 36 codec (multiformats/base36/base36.go). */
module Base36 {
  import opened Words
  import opened Radix

  // --- 277 base-36 digits hold 179 bytes ---------------------------------------------------------

  lemma {:induction false} PowDouble(b: nat, n: nat)
    ensures Pow(b, 2 * n) == Pow(b, n) * Pow(b, n)
    ensures Pow(b, 2 * n + 1) == b * (Pow(b, n) * Pow(b, n))
  {
    PowAdd(b, n, n);
  }

  lemma {:induction false} Pow3()
    ensures Pow(3, 277) == 1454077510067338869372316944847370699315973030897976908309312512336980481738317971337352174999857054574561953999845406588476984323763
  {
    assert Pow(3, 1) == 3 by { assert Pow(3, 0) == 1; }
    PowDouble(3, 1);
    assert Pow(3, 2) == 9;
    PowDouble(3, 2);
    assert Pow(3, 4) == 81;
    PowDouble(3, 4);
    assert Pow(3, 8) == 6561;
    PowDouble(3, 8);
    assert Pow(3, 17) == 129140163;
    PowDouble(3, 17);
    assert Pow(3, 34) == 16677181699666569;
    PowDouble(3, 34);
    assert Pow(3, 69) == 834385168331080533771857328695283;
    PowDouble(3, 69);
    assert Pow(3, 138) == 696198609130885597695136021593547814689632716312296141651066450089;
    PowDouble(3, 138);
    assert Pow(3, 277) == 1454077510067338869372316944847370699315973030897976908309312512336980481738317971337352174999857054574561953999845406588476984323763;
  }

  lemma {:induction false} Pow2()
    ensures Pow(2, 439) == 1419606883389857208104148062281258856159455782592418086487285545274686109596480318996466895925319463985864300012238628776434768805888
  {
    assert Pow(2, 1) == 2 by { assert Pow(2, 0) == 1; }
    PowDouble(2, 1);
    assert Pow(2, 3) == 8;
    PowDouble(2, 3);
    assert Pow(2, 6) == 64;
    PowDouble(2, 6);
    assert Pow(2, 13) == 8192;
    PowDouble(2, 13);
    assert Pow(2, 27) == 134217728;
    PowDouble(2, 27);
    assert Pow(2, 54) == 18014398509481984;
    PowDouble(2, 54);
    assert Pow(2, 109) == 649037107316853453566312041152512;
    PowDouble(2, 109);
    assert Pow(2, 219) == 842498333348457493583344221469363458551160763204392890034487820288;
    PowDouble(2, 219);
    assert Pow(2, 439) == 1419606883389857208104148062281258856159455782592418086487285545274686109596480318996466895925319463985864300012238628776434768805888;
  }

  lemma {:induction false} PowProduct(a: nat, b: nat, n: nat)
    ensures Pow(a * b, n) == Pow(a, n) * Pow(b, n)
  {
    if n > 0 {
      PowProduct(a, b, n - 1);
      MulRegroup(a, b, Pow(a, n - 1), Pow(b, n - 1));
    }
  }

  lemma MulRegroup(a: nat, b: nat, p: nat, q: nat)
    ensures (a * b) * (p * q) == (a * p) * (b * q)
  {
    calc {
      (a * b) * (p * q);
      a * (b * (p * q));
      a * (p * (b * q));
      (a * p) * (b * q);
    }
  }

  lemma SquareLess(x: nat, y: nat)
    requires x < y
    ensures x * x < y * y
  {
    MulMono(x, y, x);
    assert y * y == x * y + (y - x) * y;
    MulMono(1, y - x, y);
  }

  lemma {:induction false} TwosBelowThrees()
    ensures Pow(2, 878) < Pow(3, 554)
  {
    Pow2();
    Pow3();
    hide Pow;
    SquareLess(Pow(2, 439), Pow(3, 277));
    PowDouble(2, 439);
    PowDouble(3, 277);
  }

  lemma MulLess(a: nat, x: nat, y: nat)
    requires a > 0 && x < y
    ensures a * x < a * y
  {
    MulMono(1, y - x, a);
    assert a * y == a * x + (y - x) * a;
  }

  lemma {:induction false} BytesBelowDigits()
    ensures Pow(256, 179) < Pow(36, 277)
  {
    SmallPowers();
    hide Pow;
    TwosBelowThrees();
    PowPositive(2, 554);
    MulLess(Pow(2, 554), Pow(2, 878), Pow(3, 554));
    PowAdd(2, 554, 878);
    PowMul(2, 8, 179);
    PowMul(2, 2, 277);
    PowMul(3, 2, 277);
    PowProduct(4, 9, 277);
  }

  lemma SmallPowers()
    ensures Pow(2, 8) == 256 && Pow(2, 2) == 4 && Pow(3, 2) == 9
  {
    assert Pow(2, 4) == 16;
    PowDouble(2, 4);
  }

  /** The output buffer of encode has room for every number of n bytes. */
  lemma {:induction false} BufferSuffices(n: nat)
    ensures Pow(256, n) < Pow(36, n * 277 / 179 + 1)
  {
    var m := n * 277 / 179 + 1;
    if Pow(256, n) >= Pow(36, m) {
      BytesBelowDigits();
      PowMonoBase(Pow(36, m), Pow(256, n), 179);
      PowMul(36, m, 179);
      PowMul(256, n, 179);
      PowMul(256, 179, n);
      assert n * 179 == 179 * n;
      PowMonoBase(Pow(256, 179), Pow(36, 277), n);
      PowMul(36, 277, n);
      PowStrict(36, 277 * n, m * 179);
    }
  }

  // --- encode ------------------------------------------------------------------------------------

  /** Character codes; Go strings are byte strings. */
  function Letter(upper: bool, d: int): Byte
    requires 0 <= d < 36
  {
    if d < 10 then '0' as int + d else (if upper then 'A' as int else 'a' as int) + d - 10
  }

  /** The alphabets 0-9A-Z and 0-9a-z. */
  function Alphabet(upper: bool): (al: seq<Byte>)
    ensures |al| == 36 && forall d :: 0 <= d < 36 ==> al[d] == Letter(upper, d)
  {
    seq(36, d requires 0 <= d < 36 => Letter(upper, d))
  }

  function Letters(ds: seq<int>, al: seq<Byte>): (s: seq<Byte>)
    requires Digits(ds, 36) && |al| == 36
    ensures |s| == |ds| && forall i :: 0 <= i < |ds| ==> s[i] == al[ds[i]]
  {
    seq(|ds|, i requires 0 <= i < |ds| => al[ds[i]])
  }

  /** What encode computes. */
  function Encoded(b: seq<Byte>, al: seq<Byte>): seq<Byte>
    requires |al| == 36
  {
    ConvertBack(b, 256, 36);
    Letters(Convert(b, 256, 36), al)
  }

  /** One turn of the carry loop, on values. */
  lemma {:induction false} CarryStep(hi: seq<int>, d: nat, low: seq<int>, carry: nat, base: nat, factor: nat)
    requires base >= 2 && Digits(low, base)
    ensures var t := carry + d * factor;
            Value([t % base] + low, base) + (t / base + Value(hi, base) * factor) * Pow(base, |low| + 1)
            == Value(low, base) + (carry + Value(hi + [d], base) * factor) * Pow(base, |low|)
  {
    var t, p, h := carry + d * factor, Pow(base, |low|), Value(hi, base);
    ValueConcat([t % base], low, base);
    assert Value([t % base], base) == t % base by { assert [t % base][..0] == []; }
    assert Value(hi + [d], base) == h * base + d by { assert (hi + [d])[..|hi|] == hi; }
    CarryAlgebra(t % base, t / base, t, h, d, carry, base, factor, p);
  }

  lemma CarryAlgebra(r: int, q: int, t: int, h: int, d: int, carry: int, base: int, factor: int, p: int)
    requires t == carry + d * factor && t == q * base + r
    ensures r * p + (q + h * factor) * (base * p) == (carry + (h * base + d) * factor) * p
  {
    calc {
      (carry + (h * base + d) * factor) * p;
      { assert (h * base + d) * factor == h * base * factor + d * factor; }
      (t + h * base * factor) * p;
      (q * base + r + h * base * factor) * p;
      { assert h * base * factor == h * factor * base; }
      (r + (q + h * factor) * base) * p;
      r * p + (q + h * factor) * base * p;
      { assert (q + h * factor) * base * p == (q + h * factor) * (base * p); }
      r * p + (q + h * factor) * (base * p);
    }
  }

  /** A carry left above k digits means a value of at least base to the k. */
  lemma CarryBig(low: int, carry: nat, h: nat, factor: nat, p: nat)
    requires low >= 0 && carry > 0
    ensures low + (carry + h * factor) * p >= p
  {
    MulMono(1, carry + h * factor, p);
  }

  lemma {:induction false} ZeroPrefix(ds: seq<int>, b: nat)
    requires forall i :: 0 <= i < |ds| ==> ds[i] == 0
    ensures Value(ds, b) == 0
  {
    AllZeros(ds);
    ValueZeros(|ds|, b);
  }

  /** The carry loop at cell idx: cells above are done, cells up to it are as they were, and digits,
      carry and untouched cells add up to goal. */
  ghost predicate Carrying(cells: seq<int>, was: seq<int>, idx: int, carry: int, base: nat, factor: nat, goal: int) {
    && -1 <= idx < |cells| == |was| && 0 <= carry
    && cells[..idx + 1] == was[..idx + 1]
    && Digits(was, base) && Digits(cells[idx + 1..], base)
    && Value(cells[idx + 1..], base) + (carry + Value(was[..idx + 1], base) * factor) * Pow(base, |was| - 1 - idx) == goal
  }

  lemma {:induction false} CarryStart(was: seq<int>, carry: nat, base: nat, factor: nat)
    requires Digits(was, base)
    ensures Carrying(was, was, |was| - 1, carry, base, factor, carry + Value(was, base) * factor)
  {
    assert was[|was|..] == [] && was[..|was| - 1 + 1] == was;
    assert Pow(base, 0) == 1;
  }

  lemma {:induction false} CarryCell(cells: seq<int>, was: seq<int>, idx: nat, carry: nat, base: nat, factor: nat, goal: int)
    requires base >= 2 && Carrying(cells, was, idx, carry, base, factor, goal)
    ensures var t := carry + cells[idx] * factor;
            0 <= t && Carrying(cells[idx := t % base], was, idx - 1, t / base, base, factor, goal)
  {
    hide Value, Pow;
    var d, low := cells[idx], cells[idx + 1..];
    assert d == cells[..idx + 1][idx] == was[idx];
    var t := carry + d * factor;
    assert was[..idx + 1] == was[..idx] + [d];
    CarryStep(was[..idx], d, low, carry, base, factor);
    DivNonNegative(d, carry, base, factor);
    var cells' := cells[idx := t % base];
    assert cells'[idx..] == [t % base] + low;
    assert cells'[..idx] == cells[..idx + 1][..idx] == was[..idx];
  }

  lemma DivNonNegative(d: nat, carry: nat, base: nat, factor: nat)
    requires base > 0
    ensures 0 <= carry + d * factor && 0 <= (carry + d * factor) / base
    ensures 0 <= (carry + d * factor) % base < base
  {}

  /** If goal fits above cell bottom, the loop cannot have a carry left there. */
  lemma {:induction false} CarryFits(cells: seq<int>, was: seq<int>, bottom: nat, carry: nat, base: nat, factor: nat, goal: int)
    requires base >= 2 && Carrying(cells, was, bottom - 1, carry, base, factor, goal)
    requires bottom <= |was| && goal < Pow(base, |was| - bottom)
    ensures carry == 0
  {
    if carry > 0 {
      ValueBound(cells[bottom..], base);
      ValueBound(was[..bottom], base);
      CarryBig(Value(cells[bottom..], base), carry, Value(was[..bottom], base), factor, Pow(base, |was| - bottom));
    }
  }

  lemma {:induction false} CarryDone(cells: seq<int>, was: seq<int>, idx: int, base: nat, factor: nat, goal: int)
    requires base >= 2 && Carrying(cells, was, idx, 0, base, factor, goal)
    requires forall j :: 0 <= j <= idx ==> was[j] == 0
    ensures Value(cells, base) == goal && Digits(cells, base)
    ensures forall j :: 0 <= j <= idx ==> cells[j] == 0
  {
    assert forall j :: 0 <= j <= idx ==> cells[j] == cells[..idx + 1][j] == was[..idx + 1][j] == was[j];
    ZeroPrefix(was[..idx + 1], base);
    ZeroPrefix(cells[..idx + 1], base);
    assert cells == cells[..idx + 1] + cells[idx + 1..];
    ValueConcat(cells[..idx + 1], cells[idx + 1..], base);
    assert forall j :: idx < j < |cells| ==> cells[j] == cells[idx + 1..][j - idx - 1];
  }

  /** The carry loop: multiplies the number in out by 256 and adds b. Cells up to stopIdx are zero;
      the guarantee that the result fits keeps the loop from running below cell zcnt. */
  method MulAdd(out: array<Byte>, stopIdx: int, b: Byte, ghost zcnt: nat) returns (idx: int)
    requires zcnt - 1 <= stopIdx < out.Length && zcnt < out.Length
    requires Digits(out[..], 36) && forall j :: 0 <= j <= stopIdx ==> out[j] == 0
    requires b + Value(out[..], 36) * 256 < Pow(36, out.Length - zcnt)
    modifies out
    ensures zcnt - 1 <= idx <= stopIdx
    ensures Digits(out[..], 36) && forall j :: 0 <= j <= idx ==> out[j] == 0
    ensures Value(out[..], 36) == b + old(Value(out[..], 36)) * 256
  {
    hide Value, Pow;
    ghost var was: seq<int> := out[..];
    ghost var goal := b + Value(was, 36) * 256;
    CarryStart(was, b, 36, 256);
    idx := out.Length - 1;
    var carry := b;
    while idx > stopIdx || carry != 0
      invariant zcnt - 1 <= idx < out.Length
      invariant Carrying(out[..], was, idx, carry, 36, 256, goal)
      decreases idx
    {
      if idx == zcnt - 1 {
        CarryFits(out[..], was, zcnt, carry, 36, 256, goal);
        assert false;
      }
      CarryCell(out[..], was, idx, carry, 36, 256, goal);
      ghost var cells: seq<int> := out[..];
      assert out[idx] < 36 by { assert out[idx] == out[..][..idx + 1][idx] == was[idx]; }
      var t: int := carry + out[idx] * 256;
      out[idx] := t % 36;
      carry := t / 36;
      assert out[..] == cells[idx := t % 36];
      idx := idx - 1;
    }
    CarryDone(out[..], was, idx, 36, 256, goal);
  }

  lemma {:induction false} LeadingZerosAre(ds: seq<int>, z: nat)
    requires z <= |ds| && (forall i :: 0 <= i < z ==> ds[i] == 0) && (z < |ds| ==> ds[z] != 0)
    ensures LeadingZeros(ds) == z
  {}

  /** Leading zeros leave the value and the bound on it to the remaining digits. */
  lemma {:induction false} PrefixBound(ds: seq<int>, z: nat, i: nat, b: nat)
    requires b >= 2 && Digits(ds, b) && z <= i <= |ds| && forall j :: 0 <= j < z ==> ds[j] == 0
    ensures 0 <= Value(ds[..i], b) < Pow(b, i - z)
  {
    assert ds[..i] == ds[..z] + ds[z..i];
    ValueConcat(ds[..z], ds[z..i], b);
    ZeroPrefix(ds[..z], b);
    ValueBound(ds[z..i], b);
  }

  /** The next byte still fits the part of the buffer above cell zcnt. */
  lemma {:induction false} NextFits(b: seq<Byte>, z: nat, i: nat)
    requires z <= i < |b| && forall j :: 0 <= j < z ==> b[j] == 0
    ensures b[i] + Value(b[..i], 256) * 256 == Value(b[..i + 1], 256) < Pow(36, (|b| - z) * 277 / 179 + 1)
  {
    assert b[..i + 1][..i] == b[..i];
    PrefixBound(b, z, i + 1, 256);
    PowMonoExp(256, i + 1 - z, |b| - z);
    BufferSuffices(|b| - z);
  }

  /** Dropping cells that are zero, except for z of them, leaves z zeros and the minimal digits. */
  lemma {:induction false} KeepZeros(cells: seq<int>, z: nat, stop: nat, b: nat)
    requires b >= 2 && Digits(cells, b) && z <= stop <= |cells|
    requires forall j :: 0 <= j < stop ==> cells[j] == 0
    requires stop < |cells| ==> cells[stop] != 0
    ensures Value(cells, b) >= 0 && cells[stop - z..] == Zeros(z) + Minimal(Value(cells, b), b)
  {
    LeadingZerosAre(cells, stop);
    StripZeros(cells, b);
    assert cells[stop..] == Minimal(Value(cells, b), b);
    assert cells[stop - z..] == cells[stop - z..stop] + cells[stop..];
    AllZeros(cells[stop - z..stop]);
  }

  /** Translates out[off..] to letters at the front of the same buffer. */
  method Spell(out: array<Byte>, off: nat, al: seq<Byte>) returns (s: seq<Byte>)
    requires off <= out.Length && Digits(out[..], 36) && |al| == 36
    modifies out
    ensures s == Letters(old(out[off..]), al)
  {
    ghost var was := out[..];
    var bufsz, idx := out.Length - off, 0;
    while idx < bufsz
      invariant 0 <= idx <= bufsz
      invariant forall j :: 0 <= j < idx ==> out[j] == al[was[off + j]]
      invariant forall j :: off + idx <= j < out.Length ==> out[j] == was[j]
    {
      out[idx] := al[out[off + idx]];
      idx := idx + 1;
    }
    s := out[..bufsz];
  }

  method Encode(inBuf: seq<Byte>, al: seq<Byte>) returns (s: seq<Byte>)
    requires |al| == 36
    ensures s == Encoded(inBuf, al)
  {
    hide Value, Pow, Minimal, LeadingZeros;
    var zcnt := 0;
    while zcnt < |inBuf| && inBuf[zcnt] == 0
      invariant zcnt <= |inBuf| && forall j :: 0 <= j < zcnt ==> inBuf[j] == 0
    {
      zcnt := zcnt + 1;
    }
    LeadingZerosAre(inBuf, zcnt);
    var bufsz := zcnt + (|inBuf| - zcnt) * 277 / 179 + 1;
    var out := new Byte[bufsz](_ => 0);
    var stopIdx := bufsz - 1;
    ZeroPrefix(out[..], 36);
    ZeroPrefix(inBuf[..zcnt], 256);
    for i := zcnt to |inBuf|
      invariant zcnt - 1 <= stopIdx < bufsz
      invariant Digits(out[..], 36) && forall j :: 0 <= j <= stopIdx ==> out[j] == 0
      invariant Value(out[..], 36) == Value(inBuf[..i], 256)
    {
      NextFits(inBuf, zcnt, i);
      stopIdx := MulAdd(out, stopIdx, inBuf[i], zcnt);
    }
    assert inBuf[..|inBuf|] == inBuf;
    stopIdx := zcnt;
    while stopIdx < bufsz && out[stopIdx] == 0
      invariant zcnt <= stopIdx <= bufsz
      invariant forall j :: 0 <= j < stopIdx ==> out[j] == 0
    {
      stopIdx := stopIdx + 1;
    }
    KeepZeros(out[..], zcnt, stopIdx, 36);
    assert out[stopIdx - zcnt..] == out[..][stopIdx - zcnt..];
    s := Spell(out, stopIdx - zcnt, al);
  }

  // --- DecodeString ------------------------------------------------------------------------------

  datatype Result = Ok(bytes: seq<Byte>) | Empty | InvalidCharacter

  const MAX_ORDINAL: Byte := 'z' as int
  const NOT_A_DIGIT: Byte := 36

  /** The digit that a character stands for, in either case. */
  function Rev(c: Byte): Byte {
    if '0' as int <= c <= '9' as int then c - '0' as int
    else if 'A' as int <= c <= 'Z' as int then c - 'A' as int + 10
    else if 'a' as int <= c <= 'z' as int then c - 'a' as int + 10
    else NOT_A_DIGIT
  }

  /** The table that init fills from the upper-case alphabet. */
  method BuildRevAlphabet() returns (rev: array<Byte>)
    ensures rev.Length == MAX_ORDINAL + 1
    ensures forall c :: 0 <= c < rev.Length ==> rev[c] == Rev(c)
  {
    rev := new Byte[MAX_ORDINAL + 1](_ => NOT_A_DIGIT);
    var al := Alphabet(true);
    for i := 0 to 36
      invariant forall c :: 0 <= c < rev.Length ==> rev[c] == if Rev(c) < i then Rev(c) else NOT_A_DIGIT
    {
      rev[al[i]] := i;
      if al[i] > '9' as int {
        rev[al[i] + 32] := i;
      }
    }
  }

  predicate Valid(s: seq<Byte>) {
    forall i :: 0 <= i < |s| ==> Rev(s[i]) < 36
  }

  function DigitsOf(s: seq<Byte>): (ds: seq<int>)
    requires Valid(s)
    ensures |ds| == |s| && Digits(ds, 36)
  {
    seq(|s|, i requires 0 <= i < |s| => Rev(s[i]))
  }

  /** What DecodeString computes. */
  function Decoded(s: seq<Byte>): Result {
    if s == [] then Empty
    else if !Valid(s) then InvalidCharacter
    else
      ConvertBack(DigitsOf(s), 36, 256);
      Ok(Convert(DigitsOf(s), 36, 256))
  }

  lemma WordCarry(x: Word, carry: Word)
    ensures 0 <= (x * 36 + carry) / U32 < U32 && 0 <= (x * 36 + carry) % U32 < U32
  {}

  /** One character: multiplies the number in outi by 36 and adds c. */
  method MulAddWords(outi: array<Word>, c: Byte)
    requires c + Value(outi[..], U32) * 36 < Pow(U32, outi.Length) && c < 36
    modifies outi
    ensures Value(outi[..], U32) == c + old(Value(outi[..], U32)) * 36
  {
    hide Value, Pow, Carrying;
    ghost var was: seq<int> := outi[..];
    ghost var goal := c + Value(was, U32) * 36;
    CarryStart(was, c, U32, 36);
    var carry: int := c;
    var j := outi.Length - 1;
    while j >= 0
      invariant -1 <= j < outi.Length && 0 <= carry < U32
      invariant Carrying(outi[..], was, j, carry, U32, 36, goal)
    {
      CarryCell(outi[..], was, j, carry, U32, 36, goal);
      ghost var cells: seq<int> := outi[..];
      var t: int := outi[j] * 36 + carry;
      WordCarry(outi[j], carry);
      carry := t / U32;
      outi[j] := t % U32;
      assert outi[..] == cells[j := t % U32];
      j := j - 1;
    }
    CarryFits(outi[..], was, 0, carry, U32, 36, goal);
    CarryDone(outi[..], was, -1, U32, 36, goal);
  }

  /** Four digits fit a word, so len(s)/4 words, rounded up, hold any number of len(s) digits. */
  lemma {:induction false} WordsSuffice(n: nat, i: nat)
    requires i <= n
    ensures Pow(36, i) <= Pow(U32, (n + 3) / 4)
  {
    var w := (n + 3) / 4;
    assert Pow(36, 4) == 1679616 by { assert Pow(36, 2) == 1296; PowDouble(36, 2); }
    PowMonoBase(Pow(36, 4), U32, w);
    PowMul(36, 4, w);
    PowMonoExp(36, i, 4 * w);
  }

  method ToWords(s: seq<Byte>, rev: array<Byte>) returns (ok: bool, outi: array<Word>)
    requires rev.Length == MAX_ORDINAL + 1 && forall c :: 0 <= c < rev.Length ==> rev[c] == Rev(c)
    ensures ok <==> Valid(s)
    ensures outi.Length == (|s| + 3) / 4
    ensures ok ==> Value(outi[..], U32) == Value(DigitsOf(s), 36)
  {
    hide Value, Pow;
    outi := new Word[(|s| + 3) / 4](_ => 0);
    ZeroPrefix(outi[..], U32);
    assert DigitsOf(s[..0]) == [];
    ZeroPrefix([], 36);
    for i := 0 to |s|
      invariant Valid(s[..i])
      invariant Value(outi[..], U32) == Value(DigitsOf(s[..i]), 36)
    {
      if s[i] > MAX_ORDINAL || rev[s[i]] > 35 {
        return false, outi;
      }
      DigitFits(s, i);
      MulAddWords(outi, rev[s[i]]);
    }
    assert s[..|s|] == s;
    ok := true;
  }

  lemma {:induction false} DigitFits(s: seq<Byte>, i: nat)
    requires i < |s| && Valid(s[..i]) && Rev(s[i]) < 36
    ensures Valid(s[..i + 1])
    ensures Rev(s[i]) + Value(DigitsOf(s[..i]), 36) * 36 == Value(DigitsOf(s[..i + 1]), 36) < Pow(U32, (|s| + 3) / 4)
  {
    hide Pow;
    assert forall j :: 0 <= j < i ==> s[..i + 1][j] == s[..i][j];
    assert DigitsOf(s[..i + 1])[..i] == DigitsOf(s[..i]);
    ValueBound(DigitsOf(s[..i + 1]), 36);
    WordsSuffice(|s|, i + 1);
  }

  // --- Words to bytes ----------------------------------------------------------------------------

  /** uint subtraction, which the loop over mask relies on to wrap. */
  function Sub64(x: int, y: int): int {
    if x >= y then x - y else x - y + U64
  }

  lemma {:induction false} ShiftIsDivision(k: nat)
    ensures Pow(2, 8 * k) == Pow(256, k)
  {
    SmallPowers();
    PowMul(2, 8, k);
  }

  /** One more byte of a word. */
  lemma {:induction false} ByteOf(w: nat, k: nat)
    ensures Pow(256, k) > 0 && Pow(256, k + 1) > 0
    ensures w / Pow(256, k) == w / Pow(256, k + 1) * 256 + w / Pow(256, k) % 256
  {
    PowPositive(256, k);
    PowPositive(256, k + 1);
    DivDiv(w, Pow(256, k), 256);
  }

  lemma DivDiv(w: nat, p: nat, b: nat)
    requires p > 0 && b > 0
    ensures b * p > 0 && w / p / b == w / (b * p)
  {
    MulMono(1, b, p);
    var q, d := w / p, b * p;
    Euclid(w, p);
    Euclid(q, b);
    Euclid(w, d);
    var x, e := q / b, q % b;
    Remainder(e, w % p, b, p);
    Rearrange(w, q, p, b, x, e, w % p, d);
    QuotientUnique(w, d, x, e * p + w % p, w / d, w % d);
  }

  lemma Rearrange(w: int, q: int, p: int, b: int, x: int, e: int, r: int, d: int)
    requires w == q * p + r && q == x * b + e && d == b * p
    ensures w == x * d + (e * p + r)
  {
    assert q * p == (x * b + e) * p == x * b * p + e * p;
    assert x * b * p == x * (b * p);
  }

  lemma Remainder(a: nat, c: nat, b: nat, p: nat)
    requires a < b && c < p
    ensures 0 <= a * p + c < b * p
  {
    MulMono(a + 1, b, p);
    assert (a + 1) * p == a * p + p;
  }

  lemma QuotientUnique(w: int, d: nat, x: int, r: int, y: int, s: int)
    requires d > 0 && w == x * d + r && w == y * d + s && 0 <= r < d && 0 <= s < d
    ensures x == y
  {
    assert (x - y) * d == s - r;
    if x > y { MulMono(1, x - y, d); }
    if x < y { MulMono(x - y, -1, d); }
  }

  /** The inner loop over mask: writes the m low bytes of word w, highest first. */
  method UnpackWord(binu: array<Byte>, start: nat, w: Word, top: nat, ghost m: nat) returns (outidx: nat)
    requires 1 <= m <= 4 && top == 8 * m - 8 && start + m <= binu.Length && w < Pow(256, m)
    modifies binu
    ensures outidx == start + m
    ensures binu[..start] == old(binu[..start])
    ensures Value(binu[..outidx], 256) == Value(old(binu[..start]), 256) * Pow(256, m) + w
  {
    hide Value, Pow;
    outidx := start;
    var mask: int := top;
    ghost var t, v := 0, Value(binu[..start], 256);
    UnpackStart(v, w, m);
    while mask < 32
      invariant 0 <= t <= m && outidx == start + t
      invariant mask == if t < m then 8 * (m - t - 1) else U64 - 8
      invariant binu[..start] == old(binu[..start])
      invariant Pow(256, m - t) > 0
      invariant Value(binu[..outidx], 256) == v * Pow(256, t) + w / Pow(256, m - t)
      decreases m - t
    {
      ShiftIsDivision(m - t - 1);
      ByteOf(w, m - t - 1);
      ghost var before := binu[..outidx];
      binu[outidx] := w / Pow(2, mask) % 256;
      mask := Sub64(mask, 8);
      outidx := outidx + 1;
      assert binu[..outidx] == before + [w / Pow(256, m - t - 1) % 256];
      UnpackStep(before, v, w, m, t);
      t := t + 1;
    }
    UnpackStop(w);
  }

  lemma {:induction false} UnpackStart(v: int, w: nat, m: nat)
    requires w < Pow(256, m)
    ensures Pow(256, m) > 0 && v == v * Pow(256, 0) + w / Pow(256, m)
  {
    assert Pow(256, 0) == 1;
    QuotientUnique(w, Pow(256, m), 0, w, w / Pow(256, m), w % Pow(256, m));
  }

  lemma UnpackStop(w: nat)
    ensures Pow(256, 0) == 1 && w / Pow(256, 0) == w
  {}

  lemma {:induction false} UnpackStep(before: seq<Byte>, v: int, w: nat, m: nat, t: nat)
    requires t < m && Pow(256, m - t) > 0 && Pow(256, m - t - 1) > 0
    requires Value(before, 256) == v * Pow(256, t) + w / Pow(256, m - t)
    requires w / Pow(256, m - t - 1) == w / Pow(256, m - t) * 256 + w / Pow(256, m - t - 1) % 256
    ensures Value(before + [w / Pow(256, m - t - 1) % 256], 256) == v * Pow(256, t + 1) + w / Pow(256, m - t - 1)
  {
    var d := w / Pow(256, m - t - 1) % 256;
    assert (before + [d])[..|before|] == before;
    assert Value(before + [d], 256) == Value(before, 256) * 256 + d;
    Distribute(v, Pow(256, t), w / Pow(256, m - t), 256);
  }

  lemma {:induction false} WordIsFourBytes(k: nat)
    ensures Pow(U32, k) == Pow(256, 4 * k)
  {
    assert Pow(256, 4) == U32 by { assert Pow(256, 2) == 65536; PowDouble(256, 2); }
    PowMul(256, 4, k);
  }

  /** A number of n bytes has only n % 4 (or 4) bytes in its first word. */
  lemma {:induction false} FirstWordBound(ws: seq<Word>, n: nat)
    requires n > 0 && |ws| == (n + 3) / 4 && Value(ws, U32) < Pow(256, n)
    ensures ws[0] < Pow(256, n - 4 * (|ws| - 1))
  {
    var k := |ws| - 1;
    var m := n - 4 * k;
    if ws[0] >= Pow(256, m) {
      ValueConcat([ws[0]], ws[1..], U32);
      assert ws == [ws[0]] + ws[1..];
      assert Value([ws[0]], U32) == ws[0] by { assert [ws[0]][..0] == []; }
      ValueBound(ws[1..], U32);
      WordIsFourBytes(k);
      PowAdd(256, m, 4 * k);
      MulMono(Pow(256, m), ws[0], Pow(U32, k));
    }
  }

  lemma {:induction false} NextWord(ws: seq<int>, j: nat)
    requires j < |ws|
    ensures Value(ws[..j + 1], U32) == Value(ws[..j], U32) * U32 + ws[j]
  {
    assert ws[..j + 1][..j] == ws[..j];
  }

  /** The loop over words: the n bytes of the number in outi. */
  method Unpack(outi: array<Word>, n: nat, binu: array<Byte>) returns (outidx: nat)
    requires n > 0 && outi.Length == (n + 3) / 4 && n <= binu.Length && outi as object != binu
    requires Value(outi[..], U32) < Pow(256, n)
    modifies binu
    ensures outidx == n && Value(binu[..n], 256) == Value(outi[..], U32)
  {
    hide Value, Pow;
    var mask := n % 4 * 8;
    if mask == 0 { mask := 32; }
    mask := mask - 8;
    outidx := 0;
    var first := n - 4 * (outi.Length - 1);
    ghost var ws := outi[..];
    FirstWordBound(ws, n);
    ZeroPrefix(binu[..0], 256);
    ZeroPrefix(ws[..0], U32);
    WordIsFourBytes(1);
    PowOne(U32);
    for j := 0 to outi.Length
      invariant outi[..] == ws
      invariant outidx == if j == 0 then 0 else first + 4 * (j - 1)
      invariant mask == if j == 0 then 8 * first - 8 else 24
      invariant Value(binu[..outidx], 256) == Value(ws[..j], U32)
    {
      ghost var m := if j == 0 then first else 4;
      outidx := UnpackWord(binu, outidx, outi[j], mask, m);
      NextWord(ws, j);
      mask := 24;
    }
    assert ws[..|ws|] == ws;
  }

  lemma PowOne(b: nat)
    ensures Pow(b, 1) == b
  {
    assert Pow(b, 0) == 1;
  }

  /** A number that fits k bytes has zeros in front of its last k bytes. */
  lemma {:induction false} HighBytesZero(ds: seq<Byte>, z: nat)
    requires z <= |ds| && Value(ds, 256) < Pow(256, |ds| - z)
    ensures forall j :: 0 <= j < z ==> ds[j] == 0
  {
    hide Value, Pow;
    var lz := LeadingZeros(ds);
    if lz < z {
      ZeroPrefix(ds[..lz], 256);
      assert ds == ds[..lz] + ds[lz..];
      ValueConcat(ds[..lz], ds[lz..], 256);
      HeadBound(ds[lz..], 256);
      PowMonoExp(256, |ds| - z, |ds| - lz - 1);
    }
  }

  lemma {:induction false} HeadBound(ds: seq<int>, b: nat)
    requires b >= 2 && Digits(ds, b) && ds != [] && ds[0] > 0
    ensures Value(ds, b) >= Pow(b, |ds| - 1)
  {
    hide Pow;
    var low := ds[1..];
    assert ds == [ds[0]] + low;
    ValueConcat([ds[0]], low, b);
    assert Value([ds[0]], b) == ds[0] by { assert [ds[0]][..0] == []; }
    ValueBound(low, b);
    MulMono(1, ds[0], Pow(b, |low|));
  }

  /** The value of s bounds its bytes; the value is zero only if all of s is zeros. */
  lemma {:induction false} DecodedBounds(ds: seq<int>, z: nat)
    requires Digits(ds, 36) && z == LeadingZeros(ds)
    ensures 0 <= Value(ds, 36) < Pow(256, |ds| - z) <= Pow(256, |ds|)
    ensures Value(ds, 36) == 0 ==> z == |ds|
  {
    hide Value, Pow;
    PrefixBound(ds, z, |ds|, 36);
    assert ds[..|ds|] == ds;
    PowMonoBase(36, 256, |ds| - z);
    PowMonoExp(256, |ds| - z, |ds|);
    if z < |ds| { DecodedNotZero(ds, z); }
  }

  lemma {:induction false} DecodedNotZero(ds: seq<int>, z: nat)
    requires Digits(ds, 36) && z == LeadingZeros(ds) && z < |ds|
    ensures Value(ds, 36) != 0
  {
    hide Value, Pow, LeadingZeros;
    assert ds == ds[..z] + ds[z..];
    ValueConcat(ds[..z], ds[z..], 36);
    ZeroPrefix(ds[..z], 36);
    MinimalUnique(ds[z..], 36);
  }

  method DecodeString(s: seq<Byte>, rev: array<Byte>) returns (r: Result)
    requires rev.Length == MAX_ORDINAL + 1 && forall c :: 0 <= c < rev.Length ==> rev[c] == Rev(c)
    ensures r == Decoded(s)
  {
    hide Value, Pow, Minimal, LeadingZeros;
    if |s| == 0 { return Empty; }
    var zcnt := 0;
    while zcnt < |s| && s[zcnt] == '0' as int
      invariant zcnt <= |s| && forall j :: 0 <= j < zcnt ==> s[j] == '0' as int
    {
      zcnt := zcnt + 1;
    }
    var binu := new Byte[2 * (|s| * 179 / 277 + 1)];
    var ok, outi := ToWords(s, rev);
    if !ok { return InvalidCharacter; }
    ghost var ds := DigitsOf(s);
    LeadingZerosAre(ds, zcnt);
    DecodedBounds(ds, zcnt);
    var outidx := Unpack(outi, |s|, binu);
    ghost var bytes := binu[..outidx];
    HighBytesZero(bytes, zcnt);
    var msb := zcnt;
    while msb < outidx
      invariant zcnt <= msb <= outidx
      invariant forall j :: 0 <= j < msb ==> bytes[j] == 0
    {
      if binu[msb] > 0 {
        KeepZeros(bytes, zcnt, msb, 256);
        assert binu[msb - zcnt..outidx] == bytes[msb - zcnt..];
        return Ok(binu[msb - zcnt..outidx]);
      }
      msb := msb + 1;
    }
    ZeroPrefix(bytes, 256);
    KeepZeros(bytes, zcnt, outidx, 256);
    assert bytes[outidx - zcnt..] == bytes;
    return Ok(binu[..outidx]);
  }

  // --- The codec is a bijection ------------------------------------------------------------------

  lemma RevLetter(upper: bool, d: int)
    requires 0 <= d < 36
    ensures Rev(Letter(upper, d)) == d
  {}

  /** Decoding undoes encoding, in either alphabet. */
  lemma {:induction false} DecodeEncode(b: seq<Byte>, upper: bool)
    requires b != []
    ensures Decoded(Encoded(b, Alphabet(upper))) == Ok(b)
  {
    ConvertBack(b, 256, 36);
    var ds := Convert(b, 256, 36);
    var s := Encoded(b, Alphabet(upper));
    forall i | 0 <= i < |s| ensures Rev(s[i]) == ds[i] { RevLetter(upper, ds[i]); }
    assert DigitsOf(s) == ds;
  }

  predicate LowerCase(s: seq<Byte>) {
    forall i :: 0 <= i < |s| ==> !('A' as int <= s[i] <= 'Z' as int)
  }

  /** Encoding undoes decoding on lower-case input. */
  lemma {:induction false} EncodeDecode(s: seq<Byte>)
    requires s != [] && Valid(s) && LowerCase(s)
    ensures Decoded(s).Ok? && Encoded(Decoded(s).bytes, Alphabet(false)) == s
  {
    var ds := DigitsOf(s);
    ConvertBack(ds, 36, 256);
    forall i | 0 <= i < |s| ensures Letter(false, ds[i]) == s[i] {}
    assert Letters(ds, Alphabet(false)) == s;
  }

  /** Decoding does not depend on the case of the letters. */
  lemma {:induction false} DecodeIgnoresCase(s: seq<Byte>, t: seq<Byte>)
    requires |s| == |t| && forall i :: 0 <= i < |s| ==> Rev(s[i]) == Rev(t[i])
    ensures Decoded(s) == Decoded(t)
  {
    assert Valid(s) <==> Valid(t);
    if Valid(s) { assert DigitsOf(s) == DigitsOf(t); }
  }
}
