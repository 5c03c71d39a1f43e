/** The round trip of base32 holds for lawful encodings only (multiformats/base32/base32.go). */
module Base32Laws {
  import opened Words
  import opened Base32

  function Same<T>(x: T, n: nat): (s: seq<T>)
    ensures |s| == n && forall i :: 0 <= i < n ==> s[i] == x
  {
    seq(n, _ => x)
  }

  lemma SameTail<T>(x: T, n: nat)
    requires n > 0
    ensures Same(x, n)[1..] == Same(x, n - 1) && Same(x, n - 1) + [x] == Same(x, n)
  {
  }

  // --- Every group of characters is one of bytes -------------------------------------------------

  /** Five bits that straddle two bytes, or lie within one. */
  lemma Head(x: Quint, y: Quint)
    ensures (x * 8 + y / 4) / 8 == x && (x * 8 + y / 4) % 8 == y / 4
  {
  }

  lemma Second(x: Quint, y: Quint, z: Quint)
    ensures var b := x % 4 * 64 + y * 2 + z / 16;
            b / 64 == x % 4 && b % 64 / 2 == y && b % 2 == z / 16
  {
  }

  lemma Third(x: Quint, y: Quint)
    ensures (x % 16 * 16 + y / 2) / 16 == x % 16 && (x % 16 * 16 + y / 2) % 16 == y / 2
  {
  }

  lemma Fourth(x: Quint, y: Quint, z: Quint)
    ensures var b := x % 2 * 128 + y * 4 + z / 8;
            b / 128 == x % 2 && b % 128 / 4 == y && b % 4 == z / 8
  {
  }

  lemma Fifth(x: Quint, y: Quint)
    ensures (x % 8 * 32 + y) / 32 == x % 8 && (x % 8 * 32 + y) % 32 == y
  {
  }

  lemma {:induction false} GroupPack(q: seq<Quint>)
    requires |q| == 8
    ensures Group(Pack(q)) == q
  {
    Head(q[0], q[1]);
    Second(q[1], q[2], q[3]);
    Third(q[3], q[4]);
    Fourth(q[4], q[5], q[6]);
    Fifth(q[6], q[7]);
    Halved(q[1], q[3], q[4], q[6]);
    var s0, s1, s2, s3, s4 := B0(q), B1(q), B2(q), B3(q), B4(q);
    assert s0 / 8 == q[0] && s0 % 8 == q[1] / 4;
    assert s1 / 64 == q[1] % 4 && s1 % 64 / 2 == q[2] && s1 % 2 == q[3] / 16;
    assert s2 / 16 == q[3] % 16 && s2 % 16 == q[4] / 2;
    assert s3 / 128 == q[4] % 2 && s3 % 128 / 4 == q[5] && s3 % 4 == q[6] / 8;
    assert s4 / 32 == q[6] % 8 && s4 % 32 == q[7];
    hide B0, B1, B2, B3, B4;
    assert Quints(s0, s1, s2, s3, s4) == q;
    hide Quints;
    assert Pack(q) == [s0, s1, s2, s3, s4];
    assert Group([s0, s1, s2, s3, s4]) == Quints(s0, s1, s2, s3, s4)[..8];
  }

  lemma Halved(a: Quint, b: Quint, c: Quint, d: Quint)
    ensures a / 4 * 4 + a % 4 == a && b / 16 * 16 + b % 16 == b && c / 2 * 2 + c % 2 == c && d / 8 * 8 + d % 8 == d
  {
  }

  /** The five bytes that are spelled by one character, eight times. */
  function Octet(i: Quint): (s: seq<Byte>)
    ensures |s| == 5
  {
    Pack(Same(i, 8))
  }

  lemma {:induction false} OctetText(enc: Encoding, i: Quint)
    requires |enc.alphabet| == 32
    ensures Text(enc, Octet(i)) == Same(enc.alphabet[i], 8)
  {
    GroupPack(Same(i, 8));
    hide Group, Pack;
    var s := Octet(i);
    TextCons(enc, s);
    TextNil(enc, []);
    assert s[..5] == s && s[5..] == [];
    assert Spell(enc, Same(i, 8)) == Same(enc.alphabet[i], 8);
    assert Padding(enc, 0) == [];
  }

  lemma {:induction false} OctetInjective(i: Quint, j: Quint)
    ensures Octet(i) == Octet(j) <==> i == j
  {
    GroupPack(Same(i, 8));
    GroupPack(Same(j, 8));
    hide Group, Pack;
    if Octet(i) == Octet(j) { assert Same(i, 8)[0] == Same(j, 8)[0]; }
  }

  // --- What decoding makes of them ---------------------------------------------------------------

  lemma {:induction false} StripSame(c: Byte, n: nat)
    ensures Strip(Same(c, n)) == if Newline(c) then [] else Same(c, n)
  {
    if n > 0 {
      assert Same(c, n)[..n - 1] == Same(c, n - 1);
      StripSame(c, n - 1);
    }
  }

  lemma {:induction false} ReadSame(enc: Encoding, c: Byte, k: nat, d: Quint)
    requires k <= 8 && enc.decode(c) == Some(d) && c != PadByte(enc)
    ensures ReadChunk(enc, Same(c, 8 - k), Same(d, k)) == Chunk(Same(d, 8), [], false)
    decreases 8 - k
  {
    if k < 8 {
      SameTail(c, 8 - k);
      SameTail(d, k + 1);
      ReadSame(enc, c, k + 1, d);
    }
  }

  lemma {:induction false} ReadPad(enc: Encoding, c: Byte)
    requires c == PadByte(enc)
    ensures match ReadChunk(enc, Same(c, 8), []) case Corrupt => true case Chunk(q, _, end) => |q| == 2 && end
  {
    if enc.decode(c).Some? {
      var d := enc.decode(c).value;
      SameTail(c, 8);
      SameTail(c, 7);
      assert [] + [d] == [d] && [d] + [d] == [d, d];
      assert ReadChunk(enc, Same(c, 8), []) == ReadChunk(enc, Same(c, 7), [d]);
      assert ReadChunk(enc, Same(c, 7), [d]) == ReadChunk(enc, Same(c, 6), [d, d]);
    }
  }

  /** A character comes back eight times exactly if it keeps its part of the law. */
  lemma {:induction false} OctetBack(enc: Encoding, i: Quint)
    requires |enc.alphabet| == 32
    ensures var c := enc.alphabet[i];
            Decoded(enc, Text(enc, Octet(i))) == Some(Octet(i))
            <==> !Newline(c) && c != PadByte(enc) && enc.decode(c) == Some(i)
  {
    var c := enc.alphabet[i];
    OctetText(enc, i);
    StripSame(c, 8);
    hide Text, Octet, Strip, Newline;
    var t := Same(c, 8);
    if !Newline(c) {
      assert Decoded(enc, Text(enc, Octet(i))) == Bytes(enc, t);
      if c == PadByte(enc) {
        ReadPad(enc, c);
      } else if enc.decode(c).Some? {
        var d := enc.decode(c).value;
        assert Same(d, 0) == [];
        ReadSame(enc, c, 0, d);
        assert Bytes(enc, t) == Some(Pack(Same(d, 8)));
        OctetIs(d);
        OctetInjective(i, d);
      }
    }
  }

  lemma OctetIs(i: Quint)
    ensures Octet(i) == Pack(Same(i, 8))
  {
  }

  lemma {:induction false} ZeroText(enc: Encoding)
    requires |enc.alphabet| == 32 && enc.pad.Some?
    ensures Text(enc, [0]) == Same(enc.alphabet[0], 2) + Same(enc.pad.value, 6)
  {
    hide Group, Text;
    ZeroGroup();
    TextShort(enc, [0]);
    assert Spell(enc, Same(0, 2)) == Same(enc.alphabet[0], 2);
    assert Padding(enc, 6) == Same(enc.pad.value, 6);
  }

  lemma ZeroGroup()
    ensures Group([0]) == Same(0, 2) && Chars(1) == 2
  {
    hide Group;
    GroupTail([0]);
  }

  /** Two characters are no group of a padded text. */
  lemma {:induction false} TwoAreCorrupt(enc: Encoding, a: Byte)
    requires enc.pad.Some?
    ensures Bytes(enc, Same(a, 2)) == None
  {
    SameTail(a, 2);
    SameTail(a, 1);
    assert Same(a, 0) == [];
    if enc.decode(a).Some? {
      var d := enc.decode(a).value;
      assert [] + [d] == [d] && [d] + [d] == [d, d];
      assert ReadChunk(enc, Same(a, 2), []) == ReadChunk(enc, Same(a, 1), [d]);
      assert ReadChunk(enc, Same(a, 1), [d]) == ReadChunk(enc, [], [d, d]);
    }
  }

  /** One zero byte, with a newline for padding. */
  lemma {:induction false} NewlinePad(enc: Encoding)
    requires |enc.alphabet| == 32 && enc.pad.Some? && Newline(enc.pad.value) && !Newline(enc.alphabet[0])
    ensures Decoded(enc, Text(enc, [0])) != Some([0])
  {
    hide Text, Strip, Newline, Bytes;
    ZeroText(enc);
    StripPad(Same(enc.alphabet[0], 2), enc.pad.value, 6);
    StripSame(enc.alphabet[0], 2);
    TwoAreCorrupt(enc, enc.alphabet[0]);
  }

  lemma {:induction false} StripPad(s: seq<Byte>, p: Byte, n: nat)
    requires Newline(p)
    ensures Strip(s + Same(p, n)) == Strip(s)
  {
    if n == 0 {
      assert s + Same(p, 0) == s;
    } else {
      var t := s + Same(p, n);
      assert t[..|t| - 1] == s + Same(p, n - 1);
      StripPad(s, p, n - 1);
    }
  }

  /** Decoding undoes encoding for all inputs exactly if the encoding is lawful. */
  lemma {:induction false} RoundTripExactlyIf(enc: Encoding)
    requires |enc.alphabet| == 32
    ensures (forall s :: Decoded(enc, Text(enc, s)) == Some(s)) <==> Lawful(enc)
  {
    hide Decoded, Text, Newline;
    if Lawful(enc) {
      forall s ensures Decoded(enc, Text(enc, s)) == Some(s) { DecodeEncode(enc, s); }
    } else if forall s :: Decoded(enc, Text(enc, s)) == Some(s) {
      forall i: Quint ensures !Newline(enc.alphabet[i]) && enc.alphabet[i] != PadByte(enc) && enc.decode(enc.alphabet[i]) == Some(i) {
        OctetBack(enc, i);
      }
      if enc.pad.Some? && Newline(enc.pad.value) { NewlinePad(enc); }
      assert false;
    }
  }
}
