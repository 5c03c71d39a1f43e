/** Unsigned varints (multiformats/varint/varint.go, cid/varint.go). */
module Varint {
  import opened Words

  const MAX_LEN: nat := 9
  const U63: nat := 0x8000_0000_0000_0000

  datatype Decoded = Ok(value: nat, n: nat) | Overflow | NotMinimal | Underflow

  /** Seven bits a byte, low bits first, the high bit set on all but the last byte. */
  function ToUvarint(x: nat): (bs: seq<Byte>)
    ensures bs != []
  {
    if x < 128 then [x] else [128 + x % 128] + ToUvarint(x / 128)
  }

  /** The number that the low seven bits of the bytes spell. */
  function Value(bs: seq<Byte>): nat {
    if bs == [] then 0 else bs[0] % 128 + 128 * Value(bs[1..])
  }

  function Pow128(k: nat): nat {
    if k == 0 then 1 else 128 * Pow128(k - 1)
  }

  /** The index of the first byte without the high bit, or the length. */
  function Stop(bs: seq<Byte>): (i: nat)
    ensures i <= |bs|
    ensures i < |bs| ==> bs[i] < 128
    ensures forall j :: 0 <= j < i ==> bs[j] >= 128
  {
    if bs == [] || bs[0] < 128 then 0 else 1 + Stop(bs[1..])
  }

  // --- Canonical forms ---------------------------------------------------------------------------

  lemma {:induction false} EncodedStops(x: nat)
    ensures Stop(ToUvarint(x)) == |ToUvarint(x)| - 1 && Value(ToUvarint(x)) == x
    ensures |ToUvarint(x)| > 1 ==> ToUvarint(x)[|ToUvarint(x)| - 1] != 0
  {
    if x < 128 {
      assert ToUvarint(x)[1..] == [];
    } else {
      EncodedStops(x / 128);
      var bs := ToUvarint(x);
      assert bs[1..] == ToUvarint(x / 128);
      assert bs[|bs| - 1] == ToUvarint(x / 128)[|bs| - 2];
    }
  }

  /** A minimal spelling is the encoding of its value. */
  lemma {:induction false} MinimalIsEncoded(bs: seq<Byte>)
    requires bs != [] && Stop(bs) == |bs| - 1 && (|bs| > 1 ==> bs[|bs| - 1] != 0)
    ensures ToUvarint(Value(bs)) == bs
    ensures |bs| > 1 ==> Value(bs) >= 128
  {
    hide ToUvarint, Value, Stop;
    var rest := bs[1..];
    ValueCons(bs);
    if |bs| == 1 {
      OneByte(bs[0]);
      assert bs == [bs[0]];
    } else {
      StopCons(bs);
      assert rest[|rest| - 1] == bs[|bs| - 1];
      MinimalIsEncoded(rest);
      if |rest| == 1 { OneByte(rest[0]); }
      ValueCons(rest);
      ToUvarintCons(bs[0] - 128, Value(rest));
      assert bs == [bs[0]] + rest;
    }
  }

  lemma StopCons(bs: seq<Byte>)
    requires |bs| > 1 && Stop(bs) == |bs| - 1
    ensures bs[0] >= 128 && Stop(bs[1..]) == |bs| - 2
  {}

  lemma OneByte(b: Byte)
    ensures b < 128 ==> ToUvarint(b) == [b] && b % 128 == b
  {}

  lemma ValueCons(bs: seq<Byte>)
    requires bs != []
    ensures Value(bs) == bs[0] % 128 + 128 * Value(bs[1..]) && Value([]) == 0
    ensures |bs| == 1 ==> Value(bs) == bs[0] % 128
  {}

  lemma ToUvarintCons(d: nat, v: nat)
    requires d < 128 && v > 0
    ensures ToUvarint(d + 128 * v) == [128 + d] + ToUvarint(v)
  {
    LowBits(d, v);
  }

  lemma LowBits(d: nat, v: nat)
    requires d < 128
    ensures (d + 128 * v) % 128 == d && (d + 128 * v) / 128 == v
  {}

  lemma {:induction false} StopInPrefix(bs: seq<Byte>, n: nat)
    requires n <= |bs|
    ensures Stop(bs[..n]) == if Stop(bs) < n then Stop(bs) else n
  {
    var s, t := Stop(bs), Stop(bs[..n]);
    if s < n { assert bs[..n][s] == bs[s]; }
    if t < n { assert bs[..n][t] == bs[t]; }
  }

  lemma {:induction false} LengthBounds(x: nat, k: nat)
    requires k > 0
    ensures |ToUvarint(x)| <= k <==> x < Pow128(k)
    ensures Pow128(k) >= 128
  {
    if k == 1 {
      assert Pow128(1) == 128 * Pow128(0);
    } else {
      LengthBounds(x / 128, k - 1);
    }
  }

  lemma Powers()
    ensures Pow128(9) == U63
  {
    assert Pow128(3) == 0x20_0000;
    assert Pow128(6) == 0x400_0000_0000 by { assert Pow128(5) == 128 * Pow128(4); }
    assert Pow128(8) == 128 * Pow128(7);
  }

  lemma {:induction false} ValueSplit(a: seq<Byte>, b: seq<Byte>)
    ensures Value(a + b) == Value(a) + Pow128(|a|) * Value(b)
    ensures Value(a) < Pow128(|a|)
  {
    if a == [] {
      assert a + b == b;
    } else {
      ValueSplit(a[1..], b);
      assert (a + b)[1..] == a[1..] + b;
      assert 128 * (Pow128(|a| - 1) * Value(b)) == Pow128(|a|) * Value(b);
    }
  }

  // --- What the decoders accept ------------------------------------------------------------------

  /** A whole canonical varint in front. */
  predicate Minimal(bs: seq<Byte>) {
    Stop(bs) < |bs| && (bs[Stop(bs)] == 0 ==> Stop(bs) == 0)
  }

  lemma {:induction false} EncodingInFront(buf: seq<Byte>, x: nat)
    requires ToUvarint(x) <= buf
    ensures |ToUvarint(x)| == Stop(buf) + 1 && Minimal(buf) && Value(buf[..Stop(buf) + 1]) == x
  {
    EncodedStops(x);
    hide ToUvarint, Value, Stop;
    var e := ToUvarint(x);
    StopInPrefix(buf, |e|);
    assert buf[..|e|] == e;
    assert e[|e| - 1] == buf[|e| - 1];
  }

  lemma {:induction false} MinimalInFront(buf: seq<Byte>)
    requires Minimal(buf)
    ensures ToUvarint(Value(buf[..Stop(buf) + 1])) == buf[..Stop(buf) + 1]
  {
    hide ToUvarint, Value, Stop;
    var n := Stop(buf) + 1;
    StopInPrefix(buf, n);
    assert buf[..n][n - 1] == buf[n - 1];
    MinimalIsEncoded(buf[..n]);
  }

  /** The bytes in front of buf are exactly one encoding, and of this number. */
  lemma {:induction false} MinimalFront(buf: seq<Byte>, x: nat)
    ensures ToUvarint(x) <= buf <==> Minimal(buf) && Value(buf[..Stop(buf) + 1]) == x
    ensures ToUvarint(x) <= buf ==> |ToUvarint(x)| == Stop(buf) + 1
  {
    hide ToUvarint, Value, Stop;
    if ToUvarint(x) <= buf { EncodingInFront(buf, x); }
    if Minimal(buf) { MinimalInFront(buf); }
  }

  function FromBytes(buf: seq<Byte>): Decoded {
    var s := Stop(buf);
    if s > 8 then Overflow
    else if s == |buf| then Underflow
    else if buf[s] == 0 && s > 0 then NotMinimal
    else Ok(Value(buf[..s + 1]), s + 1)
  }

  /** FromUvarint accepts exactly the canonical encodings of numbers below 2^63. */
  lemma {:induction false} AcceptsCanonical(buf: seq<Byte>, x: nat)
    ensures (FromBytes(buf).Ok? && FromBytes(buf).value == x) <==> x < U63 && ToUvarint(x) <= buf
    ensures FromBytes(buf).Ok? ==> FromBytes(buf).n == |ToUvarint(FromBytes(buf).value)| <= |buf| && FromBytes(buf).value < U63
    ensures FromBytes(buf).Ok? ==> buf[..FromBytes(buf).n] == ToUvarint(FromBytes(buf).value)
  {
    Powers();
    MinimalFront(buf, x);
    LengthBounds(x, 9);
    if FromBytes(buf).Ok? {
      var y := FromBytes(buf).value;
      MinimalFront(buf, y);
      LengthBounds(y, 9);
    }
  }

  /** cid's own decoder. */
  function WideFromBytes(buf: seq<Byte>): Decoded {
    var s := Stop(buf);
    if s == |buf| then Underflow
    else if s > 9 || (s == 9 && buf[s] > 1) then Overflow
    else if buf[s] == 0 && s > 0 then NotMinimal
    else Ok(Value(buf[..s + 1]), s + 1)
  }

  /** cid's decoder accepts exactly the canonical encodings of numbers below 2^64. */
  lemma {:induction false} WideAcceptsCanonical(buf: seq<Byte>, x: nat)
    ensures (WideFromBytes(buf).Ok? && WideFromBytes(buf).value == x) <==> x < U64 && ToUvarint(x) <= buf
  {
    Powers();
    MinimalFront(buf, x);
    if Minimal(buf) {
      var s := Stop(buf);
      if s < 9 {
        LengthBounds(Value(buf[..s + 1]), 9);
        MinimalFront(buf, Value(buf[..s + 1]));
      } else if s == 9 {
        TenBytes(buf[..10]);
      } else {
        MinimalFront(buf, Value(buf[..s + 1]));
        LengthBounds(Value(buf[..s + 1]), 10);
        assert Pow128(10) == 128 * Pow128(9);
      }
    }
  }

  lemma {:induction false} TenBytes(bs: seq<Byte>)
    requires |bs| == 10 && bs[9] < 128
    ensures Value(bs) < U64 <==> bs[9] <= 1
  {
    Powers();
    var last := bs[9..];
    assert bs == bs[..9] + last && last[1..] == [];
    ValueSplit(bs[..9], last);
    assert Value(last) == bs[9];
  }

  /** Whatever FromUvarint accepts, cid's decoder reads as the same number and length. */
  lemma {:induction false} DecodersAgree(buf: seq<Byte>)
    ensures FromBytes(buf).Ok? ==> WideFromBytes(buf) == FromBytes(buf)
    ensures WideFromBytes(buf).Ok? ==> (FromBytes(buf) == WideFromBytes(buf) <==> WideFromBytes(buf).value < U63)
  {
    if WideFromBytes(buf).Ok? {
      AcceptsCanonical(buf, WideFromBytes(buf).value);
      WideAcceptsCanonical(buf, WideFromBytes(buf).value);
      MinimalFront(buf, WideFromBytes(buf).value);
    }
  }

  // --- The loops ---------------------------------------------------------------------------------

  /** The bytes before i all have the high bit; x holds their seven-bit groups. */
  ghost predicate Scanned(buf: seq<Byte>, i: nat, x: nat) {
    i <= |buf| && i <= Stop(buf) && x == Value(buf[..i])
  }

  lemma {:induction false} ValueAppend(a: seq<Byte>, b: Byte)
    ensures Value(a + [b]) == Value(a) + b % 128 * Pow128(|a|)
    ensures Value(a) < Pow128(|a|)
  {
    var one: seq<Byte> := [b];
    assert one[1..] == [];
    assert Value(one) == b % 128;
    hide Value, Pow128;
    ValueSplit(a, one);
  }

  /** d << 7i */
  function Shifted(d: nat, i: nat): nat {
    d * Pow128(i)
  }

  lemma {:induction false} ScanByte(buf: seq<Byte>, i: nat, x: nat)
    requires Scanned(buf, i, x) && i < |buf|
    ensures x < Pow128(i)
    ensures Value(buf[..i + 1]) == x + Shifted(buf[i] % 128, i)
    ensures buf[i] < 128 <==> Stop(buf) == i
  {
    hide Value, Pow128;
    ValueAppend(buf[..i], buf[i]);
    assert buf[..i + 1] == buf[..i] + [buf[i]];
  }

  /** x stays below 128^i, so adding a shifted group is the source's bitwise or. */
  method FromUvarint(buf: seq<Byte>) returns (r: Decoded)
    ensures r == FromBytes(buf)
  {
    var x: nat, i := 0, 0;
    assert Scanned(buf, 0, 0);
    hide Value, Pow128, Stop, Shifted;
    while i < |buf|
      invariant Scanned(buf, i, x) && i <= 8
    {
      ScanByte(buf, i, x);
      if i == 8 && buf[i] >= 128 { return Overflow; }
      if buf[i] < 128 {
        if buf[i] == 0 && i > 0 { return NotMinimal; }
        return Ok(x + Shifted(buf[i], i), i + 1);
      }
      x := x + Shifted(buf[i] % 128, i);
      i := i + 1;
    }
    return Underflow;
  }

  /** From the tenth byte on the source's shifts drop bits, but then it only ever returns an error. */
  method Uvarint(buf: seq<Byte>) returns (r: Decoded)
    ensures r == WideFromBytes(buf)
  {
    var x: nat, i := 0, 0;
    assert Scanned(buf, 0, 0);
    hide Value, Pow128, Stop, Shifted;
    while i < |buf|
      invariant Scanned(buf, i, x)
    {
      ScanByte(buf, i, x);
      if buf[i] < 128 {
        if i > 9 || (i == 9 && buf[i] > 1) { return Overflow; }
        if buf[i] == 0 && i > 0 { return NotMinimal; }
        return Ok(x + Shifted(buf[i], i), i + 1);
      }
      x := x + Shifted(buf[i] % 128, i);
      i := i + 1;
    }
    return Underflow;
  }

  // --- Reading byte by byte ----------------------------------------------------------------------

  datatype ReadError = Eof | UnexpectedEof | TooWide | Padded

  datatype ReadResult = Got(value: nat) | Failed(error: ReadError)

  /** A byte reader over the bytes that will ever arrive. */
  class Reader {
    var rest: seq<Byte>

    constructor (bytes: seq<Byte>)
      ensures rest == bytes
    {
      rest := bytes;
    }

    /** The verdict of FromUvarint, and the reader left just behind the last byte looked at. */
    method ReadUvarint() returns (r: ReadResult)
      modifies this
      ensures match FromBytes(old(rest))
              case Ok(v, n) => r == Got(v) && rest == old(rest)[n..]
              case Overflow => r == Failed(TooWide) && rest == old(rest)[MAX_LEN..]
              case NotMinimal => r == Failed(Padded) && rest == old(rest)[Stop(old(rest)) + 1..]
              case Underflow => r == Failed(if old(rest) == [] then Eof else UnexpectedEof) && rest == []
    {
      ghost var buf := rest;
      var x: nat, i := 0, 0;
      assert Scanned(buf, 0, 0);
      hide Value, Pow128, Stop, Shifted;
      while true
        invariant Scanned(buf, i, x) && i <= 8 && rest == buf[i..]
        decreases |rest|
      {
        if rest == [] { return Failed(if i != 0 then UnexpectedEof else Eof); }
        ScanByte(buf, i, x);
        var b := rest[0];
        rest := rest[1..];
        if i == 8 && b >= 128 { return Failed(TooWide); }
        if b < 128 {
          if b == 0 && i > 0 { return Failed(Padded); }
          return Got(x + Shifted(b, i));
        }
        x := x + Shifted(b % 128, i);
        i := i + 1;
      }
    }
  }

  // --- The size of an encoding -------------------------------------------------------------------

  /** bits.Len64 */
  function BitLength(x: nat): nat {
    if x == 0 then 0 else 1 + BitLength(x / 2)
  }

  function UvarintSize(x: nat): nat {
    var bits := BitLength(x);
    var q, r := bits / 7, bits % 7;
    if r > 0 || q == 0 then q + 1 else q
  }

  /** Shifting out seven bits. */
  lemma {:induction false} SevenBits(x: nat)
    requires x >= 128
    ensures BitLength(x) == 7 + BitLength(x / 128)
  {
    var a := x / 2;
    var b := a / 2;
    var c := b / 2;
    var d := c / 2;
    var e := d / 2;
    var f := e / 2;
    assert BitLength(x) == 1 + BitLength(a) && BitLength(a) == 1 + BitLength(b);
    assert BitLength(b) == 1 + BitLength(c) && BitLength(c) == 1 + BitLength(d);
    assert BitLength(d) == 1 + BitLength(e) && BitLength(e) == 1 + BitLength(f);
    assert f / 2 == x / 128;
  }

  /** The buffer that ToUvarint allocates is exactly long enough. */
  lemma {:induction false} SizeIsLength(x: nat)
    ensures |ToUvarint(x)| == UvarintSize(x)
  {
    if x < 128 {
      SmallLength(x, 7);
    } else {
      SizeIsLength(x / 128);
      SevenBits(x);
      assert BitLength(x / 128) > 0;
    }
  }

  lemma {:induction false} SmallLength(x: nat, k: nat)
    requires k <= 7 && x < [1, 2, 4, 8, 16, 32, 64, 128][k]
    ensures BitLength(x) <= k
  {
    if x > 0 { SmallLength(x / 2, k - 1); }
  }
}
