/** The transcoders of ports, masks, memory addresses and zones (multiformats/multiaddr/transcoders.go). */
module MultiaddrCoders {
  import opened Words
  import opened Keys
  import opened Radix
  import opened Components
  import opened MultiaddrText

  const ZERO: Byte := '0' as int

  // --- Decimal numbers ---------------------------------------------------------------------------

  function Digit(c: Byte): int {
    c - ZERO
  }

  predicate AllDigits(s: Str) {
    forall i :: 0 <= i < |s| ==> ZERO <= s[i] <= '9' as int
  }

  function DigitsOf(s: Str): (ds: seq<int>)
    ensures |ds| == |s| && forall i :: 0 <= i < |s| ==> ds[i] == Digit(s[i])
  {
    seq(|s|, i requires 0 <= i < |s| => Digit(s[i]))
  }

  function Spelled(ds: seq<int>): (s: Str)
    requires Digits(ds, 10)
    ensures |s| == |ds| && AllDigits(s) && DigitsOf(s) == ds
  {
    seq(|ds|, i requires 0 <= i < |ds| => ds[i] + ZERO)
  }

  /** strconv.ParseUint in base ten, before the limit on bits. */
  function ParseDecimal(s: Str): (n: Option<nat>)
    ensures n.Some? <==> s != [] && AllDigits(s)
  {
    if s == [] || !AllDigits(s) then None else
      ValueBound(DigitsOf(s), 10);
      Some(Value(DigitsOf(s), 10))
  }

  /** strconv.FormatUint in base ten. */
  function FormatDecimal(n: nat): Str {
    if n == 0 then [ZERO] else Spelled(Minimal(n, 10))
  }

  lemma {:induction false} DecimalBack(n: nat)
    ensures ParseDecimal(FormatDecimal(n)) == Some(n) && SLASH !in FormatDecimal(n)
  {
    if n == 0 {
      var ds := DigitsOf([ZERO]);
      assert ds == [0] && ds[..0] == [];
      assert Value(ds, 10) == Value(ds[..0], 10) * 10 + 0;
    } else {
      MinimalValue(n, 10);
    }
  }

  // --- Big-endian bytes --------------------------------------------------------------------------

  function BigEndian(n: nat, k: nat): (bs: Str)
    ensures |bs| == k
  {
    if k == 0 then [] else BigEndian(n / 256, k - 1) + [n % 256]
  }

  lemma {:induction false} BigEndianBack(v: Str)
    ensures 0 <= Value(v, 256) < Pow(256, |v|) && BigEndian(Value(v, 256), |v|) == v
  {
    ValueBound(v, 256);
    if v != [] {
      var front, last := v[..|v| - 1], v[|v| - 1];
      BigEndianBack(front);
      DivMod(Value(front, 256), last, 256);
      assert v == front + [last];
    }
  }

  /** portStB, ipcidrStB and memoryStB, with k bytes; the first does not check the length of bytes. */
  function UintCoder(k: nat, checked: bool): Transcoder {
    Transcoder(
      x => match ParseDecimal(x)
           case Some(n) => if n < Pow(256, k) then Some(BigEndian(n, k)) else None
           case None => None,
      v => if |v| == k then (ValueBound(v, 256); Some(FormatDecimal(Value(v, 256)))) else None,
      v => checked ==> |v| == k)
  }

  lemma {:induction false} UintLawful(p: Protocol, k: nat, checked: bool)
    requires !p.path && k > 0 && p.size == 8 * k
    ensures LawfulCoder(p, UintCoder(k, checked))
  {
    var tr := UintCoder(k, checked);
    forall v: Str | tr.validates(v) && Sized(p, v)
      ensures tr.toText(v).Some? && tr.toText(v).value != [] && Sayable(p, tr.toText(v).value)
      ensures tr.toBytes(tr.toText(v).value) == Some(v)
    {
      BigEndianBack(v);
      DecimalBack(Value(v, 256));
    }
  }

  /** TranscoderIP6Zone */
  function ZoneCoder(): Transcoder {
    Transcoder(x => if x == [] || SLASH in x then None else Some(x), v => if v == [] then None else Some(v),
               v => v != [] && SLASH !in v)
  }

  lemma ZoneLawful(p: Protocol)
    requires !p.path && p.size < 0
    ensures LawfulCoder(p, ZoneCoder())
  {
  }
}
