/** Base32, sections 6 and 7 of RFC 4648 (multiformats/base32/base32.go). */
module Base32 {
  import opened Words

  type Quint = x: int | 0 <= x < 32

  /** decode gives the place of a character in the alphabet, if it has one. */
  datatype Encoding = Encoding(alphabet: seq<Byte>, decode: Byte -> Option<Quint>, pad: Option<Byte>)

  const CR: Byte := 13
  const LF: Byte := 10

  predicate Newline(c: Byte) {
    c == CR || c == LF
  }

  /** 32 characters that decode to their places, none of them a newline or the padding. */
  ghost predicate Lawful(enc: Encoding) {
    && |enc.alphabet| == 32
    && (forall i :: 0 <= i < 32 ==> enc.decode(enc.alphabet[i]) == Some(i) && !Newline(enc.alphabet[i]))
    && (enc.pad.Some? ==> !Newline(enc.pad.value) && enc.pad.value !in enc.alphabet)
    && (enc.pad.None? ==> 255 !in enc.alphabet)
  }

  // --- Five bytes and eight characters -----------------------------------------------------------

  /** The bits of five bytes, five at a time. */
  function Quints(s0: Byte, s1: Byte, s2: Byte, s3: Byte, s4: Byte): (q: seq<Quint>)
    ensures |q| == 8
  {
    [s0 / 8, s0 % 8 * 4 + s1 / 64, s1 % 64 / 2, s1 % 2 * 16 + s2 / 16,
     s2 % 16 * 2 + s3 / 128, s3 % 128 / 4, s3 % 4 * 8 + s4 / 32, s4 % 32]
  }

  /** How many characters n bytes of one group take. */
  function Chars(n: nat): nat
    requires n <= 5
  {
    (8 * n + 4) / 5
  }

  function At(s: seq<Byte>, i: nat): Byte {
    if i < |s| then s[i] else 0
  }

  /** A group of up to five bytes, the missing ones taken as zero bits and cut off again. */
  function Group(s: seq<Byte>): seq<Quint>
    requires |s| <= 5
  {
    Quints(At(s, 0), At(s, 1), At(s, 2), At(s, 3), At(s, 4))[..Chars(|s|)]
  }

  function Spell(enc: Encoding, q: seq<Quint>): (r: seq<Byte>)
    requires |enc.alphabet| == 32
    ensures |r| == |q| && forall i :: 0 <= i < |q| ==> r[i] == enc.alphabet[q[i]]
  {
    seq(|q|, i requires 0 <= i < |q| => enc.alphabet[q[i]])
  }

  function Padding(enc: Encoding, n: nat): seq<Byte> {
    if enc.pad.None? then [] else seq(n, _ => enc.pad.value)
  }

  function GroupText(enc: Encoding, s: seq<Byte>): seq<Byte>
    requires |enc.alphabet| == 32 && |s| <= 5
  {
    Spell(enc, Group(s)) + Padding(enc, 8 - Chars(|s|))
  }

  function Text(enc: Encoding, s: seq<Byte>): seq<Byte>
    requires |enc.alphabet| == 32
  {
    if s == [] then [] else GroupText(enc, s[..Min(5, |s|)]) + Text(enc, s[Min(5, |s|)..])
  }

  function EncodedLen(enc: Encoding, n: nat): nat {
    if enc.pad.None? then (n * 8 + 4) / 5 else (n + 4) / 5 * 8
  }

  lemma {:induction false} TextLength(enc: Encoding, s: seq<Byte>)
    requires |enc.alphabet| == 32
    ensures |Text(enc, s)| == EncodedLen(enc, |s|)
  {
    hide Text, GroupText, EncodedLen;
    LenStep(enc, |s|);
    if s == [] {
      TextNil(enc, s);
    } else if |s| >= 5 {
      GroupLength(enc, s[..5]);
      TextCons(enc, s);
      TextLength(enc, s[5..]);
    } else {
      GroupLength(enc, s);
      TextShort(enc, s);
    }
  }

  lemma LenStep(enc: Encoding, n: nat)
    ensures n >= 5 ==> EncodedLen(enc, n) == 8 + EncodedLen(enc, n - 5)
    ensures 0 < n <= 5 ==> EncodedLen(enc, n) == if enc.pad.None? then Chars(n) else 8
    ensures EncodedLen(enc, 0) == 0
  {
  }

  lemma TextShort(enc: Encoding, s: seq<Byte>)
    requires |enc.alphabet| == 32 && 0 < |s| < 5
    ensures Text(enc, s) == GroupText(enc, s)
  {
    hide GroupText;
    assert s[..|s|] == s && s[|s|..] == [];
    assert Text(enc, s) == GroupText(enc, s) + Text(enc, []);
  }

  lemma {:induction false} GroupLength(enc: Encoding, s: seq<Byte>)
    requires |enc.alphabet| == 32 && |s| <= 5
    ensures |GroupText(enc, s)| == if enc.pad.None? then Chars(|s|) else 8
  {
    hide Quints;
  }

  /** Whole groups are spelled independently of what follows. */
  lemma {:induction false} TextAppend(enc: Encoding, a: seq<Byte>, b: seq<Byte>)
    requires |enc.alphabet| == 32 && |a| % 5 == 0
    ensures Text(enc, a + b) == Text(enc, a) + Text(enc, b)
  {
    hide Text, GroupText;
    if a == [] {
      assert a + b == b;
      TextNil(enc, b);
    } else {
      FiveLess(|a|);
      TextCons(enc, a);
      TextCons(enc, a + b);
      TextAppend(enc, a[5..], b);
      assert (a + b)[..5] == a[..5] && (a + b)[5..] == a[5..] + b;
      Regroup(GroupText(enc, a[..5]), Text(enc, a[5..]), Text(enc, b));
    }
  }

  lemma TextNil(enc: Encoding, s: seq<Byte>)
    requires |enc.alphabet| == 32
    ensures Text(enc, []) == [] && Text(enc, []) + Text(enc, s) == Text(enc, s)
  {
  }

  lemma FiveLess(n: nat)
    requires n % 5 == 0 && n > 0
    ensures n >= 5 && (n - 5) % 5 == 0
  {
  }

  lemma TextCons(enc: Encoding, s: seq<Byte>)
    requires |enc.alphabet| == 32 && |s| >= 5
    ensures Text(enc, s) == GroupText(enc, s[..5]) + Text(enc, s[5..])
  {
  }

  function B0(q: seq<Quint>): Byte
    requires |q| > 1
  {
    var x: int, y: int := q[0], q[1];
    x * 8 + y / 4
  }

  function B1(q: seq<Quint>): Byte
    requires |q| > 3
  {
    var x: int, y: int, z: int := q[1], q[2], q[3];
    x % 4 * 64 + y * 2 + z / 16
  }

  function B2(q: seq<Quint>): Byte
    requires |q| > 4
  {
    var x: int, y: int := q[3], q[4];
    x % 16 * 16 + y / 2
  }

  function B3(q: seq<Quint>): Byte
    requires |q| > 6
  {
    var x: int, y: int, z: int := q[4], q[5], q[6];
    x % 2 * 128 + y * 4 + z / 8
  }

  function B4(q: seq<Quint>): Byte
    requires |q| > 7
  {
    var x: int, y: int := q[6], q[7];
    x % 8 * 32 + y
  }

  /** The bytes in the characters of one group; lengths 1, 3 and 6, which no encoder writes, hold nothing. */
  function Pack(q: seq<Quint>): seq<Byte>
    requires |q| <= 8
  {
    match |q|
    case 8 => [B0(q), B1(q), B2(q), B3(q), B4(q)]
    case 7 => [B0(q), B1(q), B2(q), B3(q)]
    case 5 => [B0(q), B1(q), B2(q)]
    case 4 => [B0(q), B1(q)]
    case 2 => [B0(q)]
    case _ => []
  }

  lemma Byte0(a: Byte, b: Byte)
    ensures a / 8 * 8 + (a % 8 * 4 + b / 64) / 4 == a
  {
  }

  lemma Byte1(a: Byte, b: Byte, c: Byte)
    ensures (a % 8 * 4 + b / 64) % 4 * 64 + b % 64 / 2 * 2 + (b % 2 * 16 + c / 16) / 16 == b
  {
    assert (a % 8 * 4 + b / 64) % 4 == b / 64;
    assert (b % 2 * 16 + c / 16) / 16 == b % 2;
  }

  lemma Byte2(b: Byte, c: Byte, d: Byte)
    ensures (b % 2 * 16 + c / 16) % 16 * 16 + (c % 16 * 2 + d / 128) / 2 == c
  {
  }

  lemma Byte3(c: Byte, d: Byte, e: Byte)
    ensures (c % 16 * 2 + d / 128) % 2 * 128 + d % 128 / 4 * 4 + (d % 4 * 8 + e / 32) / 8 == d
  {
    assert (c % 16 * 2 + d / 128) % 2 == d / 128;
    assert (d % 4 * 8 + e / 32) / 8 == d % 4;
  }

  lemma Byte4(d: Byte, e: Byte)
    ensures (d % 4 * 8 + e / 32) % 8 * 32 + e % 32 == e
  {
  }

  lemma {:induction false} PackQuints(s0: Byte, s1: Byte, s2: Byte, s3: Byte, s4: Byte)
    ensures var q := Quints(s0, s1, s2, s3, s4);
            B0(q) == s0 && B1(q) == s1 && B2(q) == s2 && B3(q) == s3 && B4(q) == s4
  {
    Byte0(s0, s1);
    Byte1(s0, s1, s2);
    Byte2(s1, s2, s3);
    Byte3(s2, s3, s4);
    Byte4(s3, s4);
  }

  lemma {:induction false} PackGroup(s: seq<Byte>)
    requires 0 < |s| <= 5
    ensures Pack(Group(s)) == s
  {
    var q := Quints(At(s, 0), At(s, 1), At(s, 2), At(s, 3), At(s, 4));
    PackQuints(At(s, 0), At(s, 1), At(s, 2), At(s, 3), At(s, 4));
    hide Quints;
  }

  /** Four digits in base 32, high ones first. */
  function Number32(a: int, b: int, c: int, d: int): int {
    ((a * 32 + b) * 32 + c) * 32 + d
  }

  /** The eight characters and the five bytes spell the same number, high digits first. */
  lemma {:induction false} SameNumber(s0: Byte, s1: Byte, s2: Byte, s3: Byte, s4: Byte)
    ensures var q := Quints(s0, s1, s2, s3, s4);
            Number32(q[0], q[1], q[2], q[3]) * 0x10_0000 + Number32(q[4], q[5], q[6], q[7])
            == (((s0 * 256 + s1) * 256 + s2) * 256 + s3) * 256 + s4
  {
    HighHalf(s0, s1, s2);
    LowHalf(s2, s3, s4);
    Halves(s0, s1, s2 / 16, s2 % 16, s3, s4);
    hide Number32;
  }

  lemma Halves(a: int, b: int, hi: int, lo: int, d: int, e: int)
    ensures ((a * 256 + b) * 16 + hi) * 0x10_0000 + (lo * 0x1_0000 + d * 256 + e)
         == (((a * 256 + b) * 256 + (hi * 16 + lo)) * 256 + d) * 256 + e
  {
  }

  lemma HighHalf(s0: Byte, s1: Byte, s2: Byte)
    ensures Number32(s0 / 8, s0 % 8 * 4 + s1 / 64, s1 % 64 / 2, s1 % 2 * 16 + s2 / 16) == (s0 * 256 + s1) * 16 + s2 / 16
  {
  }

  lemma LowHalf(s2: Byte, s3: Byte, s4: Byte)
    ensures Number32(s2 % 16 * 2 + s3 / 128, s3 % 128 / 4, s3 % 4 * 8 + s4 / 32, s4 % 32) == (s2 % 16 * 256 + s3) * 256 + s4
  {
  }

  // --- Decoding ----------------------------------------------------------------------------------

  /** byte(padChar), where no padding is -1. */
  function PadByte(enc: Encoding): Byte {
    if enc.pad.Some? then enc.pad.value else 255
  }

  datatype Chunk = Chunk(q: seq<Quint>, rest: seq<Byte>, end: bool) | Corrupt

  /** The first n bytes, as far as there are any, are padding. */
  predicate AllPad(enc: Encoding, s: seq<Byte>, n: nat) {
    forall k :: 0 <= k < n && k < |s| ==> s[k] == PadByte(enc)
  }

  /** The inner loop, with the characters of the group read so far. */
  function ReadChunk(enc: Encoding, s: seq<Byte>, q: seq<Quint>): (c: Chunk)
    requires |q| <= 8
    ensures c.Chunk? ==> |c.q| <= 8
    ensures c.Chunk? && !c.end && |q| < 8 && s != [] ==> |c.rest| < |s|
    decreases 8 - |q|
  {
    if |q| == 8 then Chunk(q, s, false)
    else if s == [] then
      if enc.pad.Some? then Corrupt else Chunk(q, [], false)
    else if s[0] == PadByte(enc) && |q| >= 2 && |s| - 1 < 8 then
      if enc.pad.None? || |s| - 1 + |q| < 7 || !AllPad(enc, s[1..], 7 - |q|) || |q| == 3 || |q| == 6 then Corrupt
      else Chunk(q, s[1..], true)
    else match enc.decode(s[0])
      case None => Corrupt
      case Some(d) => ReadChunk(enc, s[1..], q + [d])
  }

  function Bytes(enc: Encoding, s: seq<Byte>): Option<seq<Byte>>
    decreases |s|
  {
    if s == [] then Some([])
    else match ReadChunk(enc, s, [])
      case Corrupt => None
      case Chunk(q, rest, end) =>
        if end || rest == [] then Some(Pack(q))
        else match Bytes(enc, rest)
          case None => None
          case Some(more) => Some(Pack(q) + more)
  }

  function Strip(s: seq<Byte>): seq<Byte> {
    if s == [] then [] else
      Strip(s[..|s| - 1]) + (if Newline(s[|s| - 1]) then [] else [s[|s| - 1]])
  }

  /** DecodeString, apart from where an error lies. */
  function Decoded(enc: Encoding, s: seq<Byte>): Option<seq<Byte>> {
    Bytes(enc, Strip(s))
  }

  // --- Decoding undoes encoding ------------------------------------------------------------------

  lemma {:induction false} ReadSpelled(enc: Encoding, all: seq<Quint>, n: nat, more: seq<Byte>)
    requires Lawful(enc) && n <= |all| <= 8
    ensures ReadChunk(enc, Spell(enc, all[n..]) + more, all[..n]) == ReadChunk(enc, more, all)
    decreases |all| - n
  {
    if n == |all| {
      assert all[..n] == all && Spell(enc, all[n..]) + more == more;
    } else {
      var s := Spell(enc, all[n..]) + more;
      assert s[0] == enc.alphabet[all[n]] && s[0] in enc.alphabet;
      assert s[1..] == Spell(enc, all[n + 1..]) + more;
      assert all[..n] + [all[n]] == all[..n + 1];
      ReadSpelled(enc, all, n + 1, more);
    }
  }

  /** A group reads back as its characters; the last one may be short. */
  lemma {:induction false} ReadGroup(enc: Encoding, s: seq<Byte>, more: seq<Byte>)
    requires Lawful(enc) && 0 < |s| <= 5 && (|s| < 5 ==> more == [])
    ensures var c := ReadChunk(enc, GroupText(enc, s) + more, []);
            c.Chunk? && c.q == Group(s) && (|s| == 5 ==> !c.end && c.rest == more) && (|s| < 5 ==> c.end || c.rest == [])
  {
    hide Quints;
    var q, pad := Group(s), Padding(enc, 8 - Chars(|s|));
    assert q[0..] == q && q[..0] == [];
    assert GroupText(enc, s) + more == Spell(enc, q) + (pad + more);
    ReadSpelled(enc, q, 0, pad + more);
    if |s| == 5 { assert pad + more == more; } else { assert pad + more == pad; }
  }

  lemma {:induction false} BytesOfGroup(enc: Encoding, g: seq<Byte>, t: seq<Byte>)
    requires Lawful(enc) && 0 < |g| <= 5 && (|g| < 5 ==> t == [])
    ensures Bytes(enc, GroupText(enc, g) + t) ==
            if t == [] then Some(g) else if Bytes(enc, t).None? then None else Some(g + Bytes(enc, t).value)
  {
    hide GroupText, Group, Pack, ReadChunk;
    GroupNotEmpty(enc, g);
    ReadGroup(enc, g, t);
    PackGroup(g);
  }

  lemma {:induction false} BytesOfText(enc: Encoding, s: seq<Byte>)
    requires Lawful(enc)
    ensures Bytes(enc, Text(enc, s)) == Some(s)
  {
    if s != [] {
      var n := Min(5, |s|);
      var g, rest := s[..n], s[n..];
      var t := Text(enc, rest);
      assert Text(enc, s) == GroupText(enc, g) + t;
      hide GroupText, Bytes, Text;
      BytesOfText(enc, rest);
      TextNotEmpty(enc, rest);
      BytesOfGroup(enc, g, t);
      SplitAt(s, n);
    }
  }

  lemma SplitAt(s: seq<Byte>, n: nat)
    requires n <= |s|
    ensures s == s[..n] + s[n..] && (s[n..] == [] ==> s[..n] == s)
  {
  }

  lemma {:induction false} TextNotEmpty(enc: Encoding, s: seq<Byte>)
    requires |enc.alphabet| == 32
    ensures s == [] <==> Text(enc, s) == []
  {
    hide GroupText;
    if s != [] { GroupNotEmpty(enc, s[..Min(5, |s|)]); }
  }

  lemma GroupNotEmpty(enc: Encoding, s: seq<Byte>)
    requires |enc.alphabet| == 32 && 0 < |s| <= 5
    ensures |GroupText(enc, s)| > 0
  {
    hide Quints;
  }

  lemma {:induction false} StripClean(s: seq<Byte>)
    requires forall i :: 0 <= i < |s| ==> !Newline(s[i])
    ensures Strip(s) == s
  {
    if s != [] {
      StripClean(s[..|s| - 1]);
      assert s == s[..|s| - 1] + [s[|s| - 1]];
    }
  }

  lemma {:induction false} TextClean(enc: Encoding, s: seq<Byte>)
    requires Lawful(enc)
    ensures forall i :: 0 <= i < |Text(enc, s)| ==> !Newline(Text(enc, s)[i])
  {
    hide Group;
    if s != [] { TextClean(enc, s[Min(5, |s|)..]); }
  }

  /** DecodeString undoes EncodeToString, with padding and without. */
  lemma {:induction false} DecodeEncode(enc: Encoding, s: seq<Byte>)
    requires Lawful(enc)
    ensures Decoded(enc, Text(enc, s)) == Some(s)
  {
    hide Text, Bytes;
    TextClean(enc, s);
    StripClean(Text(enc, s));
    BytesOfText(enc, s);
  }

  // --- Encoding into a buffer --------------------------------------------------------------------

  /** The buffer holds t from an index on, and is otherwise as it was. */
  ghost predicate Holds(now: seq<Byte>, was: seq<Byte>, at: nat, t: seq<Byte>) {
    at + |t| <= |was| && now == was[..at] + t + was[at + |t|..]
  }

  method Put(dst: array<Byte>, at: nat, t: seq<Byte>)
    requires at + |t| <= dst.Length
    modifies dst
    ensures Holds(dst[..], old(dst[..]), at, t)
  {
    forall i | 0 <= i < |t| { dst[at + i] := t[i]; }
  }

  lemma {:induction false} GroupTail(s: seq<Byte>)
    requires 0 < |s| < 5
    ensures Group(s) == match |s|
            case 1 => [s[0] / 8, s[0] % 8 * 4]
            case 2 => [s[0] / 8, s[0] % 8 * 4 + s[1] / 64, s[1] % 64 / 2, s[1] % 2 * 16]
            case 3 => [s[0] / 8, s[0] % 8 * 4 + s[1] / 64, s[1] % 64 / 2, s[1] % 2 * 16 + s[2] / 16, s[2] % 16 * 2]
            case _ => [s[0] / 8, s[0] % 8 * 4 + s[1] / 64, s[1] % 64 / 2, s[1] % 2 * 16 + s[2] / 16,
                       s[2] % 16 * 2 + s[3] / 128, s[3] % 128 / 4, s[3] % 4 * 8]
  {
    match |s|
    case 1 => Quints1(s[0]);
    case 2 => Quints2(s[0], s[1]);
    case 3 => Quints3(s[0], s[1], s[2]);
    case _ => Quints4(s[0], s[1], s[2], s[3]);
    hide Quints;
  }

  lemma Quints1(a: Byte)
    ensures Quints(a, 0, 0, 0, 0)[..2] == [a / 8, a % 8 * 4]
  {
  }

  lemma Quints2(a: Byte, b: Byte)
    ensures Quints(a, b, 0, 0, 0)[..4] == [a / 8, a % 8 * 4 + b / 64, b % 64 / 2, b % 2 * 16]
  {
  }

  lemma Quints3(a: Byte, b: Byte, c: Byte)
    ensures Quints(a, b, c, 0, 0)[..5] == [a / 8, a % 8 * 4 + b / 64, b % 64 / 2, b % 2 * 16 + c / 16, c % 16 * 2]
  {
  }

  lemma Quints4(a: Byte, b: Byte, c: Byte, d: Byte)
    ensures Quints(a, b, c, d, 0)[..7] ==
            [a / 8, a % 8 * 4 + b / 64, b % 64 / 2, b % 2 * 16 + c / 16, c % 16 * 2 + d / 128, d % 128 / 4, d % 4 * 8]
  {
  }

  /** The last group, put together from back to front with the carry between bytes. */
  method TailQuints(src: seq<Byte>) returns (q: seq<Quint>)
    requires 0 < |src| < 5
    ensures q == Group(src)
  {
    GroupTail(src);
    hide Group;
    q := [];
    var carry: Quint := 0;
    if |src| == 4 {
      q := [src[3] % 128 / 4, src[3] % 4 * 8];
      carry := src[3] / 128;
    }
    if |src| >= 3 {
      q := [carry + src[2] % 16 * 2] + q;
      carry := src[2] / 16;
    }
    if |src| >= 2 {
      q := [src[1] % 64 / 2, carry + src[1] % 2 * 16] + q;
      carry := src[1] / 64;
    }
    q := [src[0] / 8, carry + src[0] % 8 * 4] + q;
  }

  method TailPadding(enc: Encoding, n: nat) returns (t: seq<Byte>)
    requires 0 < n < 5
    ensures t == Padding(enc, 8 - Chars(n))
  {
    t := [];
    if enc.pad.Some? {
      var c := enc.pad.value;
      t := [c];
      if n < 4 {
        t := [c, c] + t;
        if n < 3 {
          t := [c] + t;
          if n < 2 { t := [c, c] + t; }
        }
      }
    }
  }

  lemma {:induction false} HoldsMore(now: seq<Byte>, mid: seq<Byte>, was: seq<Byte>, at: nat, t: seq<Byte>, u: seq<Byte>)
    requires Holds(mid, was, at, t) && Holds(now, mid, at + |t|, u)
    ensures Holds(now, was, at, t + u)
  {
    assert mid[..at + |t|] == was[..at] + t;
    assert mid[at + |t| + |u|..] == was[at + |t| + |u|..];
  }

  lemma {:induction false} TextHead(enc: Encoding, s: seq<Byte>)
    requires |enc.alphabet| == 32
    ensures |s| > 4 ==> Text(enc, s) == Spell(enc, Quints(s[0], s[1], s[2], s[3], s[4])) + Text(enc, s[5..])
    ensures 0 < |s| < 5 ==> Text(enc, s) == Spell(enc, Group(s)) + Padding(enc, 8 - Chars(|s|))
    ensures |s| == 0 ==> Text(enc, s) == []
  {
    hide Quints, Group, Padding;
    if |s| > 4 {
      FullText(enc, s[..5]);
    } else if |s| > 0 {
      assert s[..|s|] == s && s[|s|..] == [];
    }
  }

  /** More text behind what has been put from the start of the buffer. */
  method PutNext(dst: array<Byte>, at: nat, t: seq<Byte>, ghost was: seq<Byte>, ghost done: seq<Byte>)
    requires Holds(dst[..], was, 0, done) && at == |done| && at + |t| <= dst.Length
    modifies dst
    ensures Holds(dst[..], was, 0, done + t)
  {
    ghost var mid := dst[..];
    Put(dst, at, t);
    HoldsMore(dst[..], mid, was, 0, done, t);
  }

  method EncodeTail(enc: Encoding, dst: array<Byte>, at: nat, rest: seq<Byte>, ghost was: seq<Byte>, ghost done: seq<Byte>)
    requires |enc.alphabet| == 32 && |rest| < 5 && at == |done| && at + |Text(enc, rest)| <= dst.Length
    requires Holds(dst[..], was, 0, done)
    modifies dst
    ensures Holds(dst[..], was, 0, done + Text(enc, rest))
  {
    hide Quints, Group, Padding, Holds, Text;
    TextHead(enc, rest);
    if |rest| > 0 {
      var q := TailQuints(rest);
      var pad := TailPadding(enc, |rest|);
      PutNext(dst, at, Spell(enc, q) + pad, was, done);
    } else {
      assert done + [] == done;
    }
  }

  /** Group by group into the buffer, which keeps whatever else it held. */
  method Encode(enc: Encoding, dst: array<Byte>, src: seq<Byte>)
    requires |enc.alphabet| == 32 && EncodedLen(enc, |src|) <= dst.Length
    modifies dst
    ensures Holds(dst[..], old(dst[..]), 0, Text(enc, src))
  {
    TextLength(enc, src);
    ghost var was, all := dst[..], Text(enc, src);
    var at, rest := 0, src;
    ghost var done: seq<Byte> := [];
    assert Holds(was, was, 0, []);
    assert [] + all == all;
    hide Quints, Holds, Text, EncodedLen, Spell;
    while |rest| > 4
      invariant at == |done| && done + Text(enc, rest) == all && Holds(dst[..], was, 0, done)
      decreases |rest|
    {
      var t := Spell(enc, Quints(rest[0], rest[1], rest[2], rest[3], rest[4]));
      TextHead(enc, rest);
      Regroup(done, t, Text(enc, rest[5..]));
      PutNext(dst, at, t, was, done);
      at, rest, done := at + 8, rest[5..], done + t;
    }
    EncodeTail(enc, dst, at, rest, was, done);
  }

  lemma FullText(enc: Encoding, s: seq<Byte>)
    requires |enc.alphabet| == 32 && |s| == 5
    ensures GroupText(enc, s) == Spell(enc, Quints(s[0], s[1], s[2], s[3], s[4]))
  {
    hide Quints;
    var q := Quints(s[0], s[1], s[2], s[3], s[4]);
    assert q[..8] == q && Padding(enc, 0) == [];
  }

  method EncodeToString(enc: Encoding, src: seq<Byte>) returns (s: seq<Byte>)
    requires |enc.alphabet| == 32
    ensures s == Text(enc, src)
  {
    TextLength(enc, src);
    var buf := new Byte[EncodedLen(enc, |src|)];
    Encode(enc, buf, src);
    s := buf[..];
  }

  // --- The streaming encoder ---------------------------------------------------------------------

  lemma {:induction false} WholeGroups(enc: Encoding, s: seq<Byte>)
    requires |enc.alphabet| == 32 && |s| % 5 == 0
    ensures |Text(enc, s)| == |s| / 5 * 8 == EncodedLen(enc, |s|)
  {
    TextLength(enc, s);
  }

  /** As many whole groups as fit in the output buffer. */
  function ChunkSize(n: nat): (nn: nat)
    requires n >= 5
    ensures 0 < nn <= n && nn <= 640 && nn % 5 == 0
  {
    var nn := 1024 / 8 * 5;
    if nn > n then n - n % 5 else nn
  }

  lemma SumOfFives(a: nat, b: nat)
    requires a % 5 == 0 && b % 5 == 0
    ensures (a + b) % 5 == 0
  {
  }

  class Encoder {
    const enc: Encoding
    var buf: seq<Byte>
    const out: array<Byte>
    var w: seq<Byte>
    ghost var data: seq<Byte>

    /** The whole groups of the data have gone out, the rest is in the buffer. */
    ghost predicate Valid()
      reads this
    {
      && |enc.alphabet| == 32 && out.Length == 1024
      && |buf| == |data| % 5
      && data[|data| - |buf|..] == buf
      && w == Text(enc, data[..|data| - |buf|])
    }

    constructor (enc: Encoding)
      requires |enc.alphabet| == 32
      ensures Valid() && data == [] && this.enc == enc && fresh(out)
    {
      this.enc := enc;
      buf, w, data := [], [], [];
      out := new Byte[1024];
    }

    /** Whole groups, at most 128 of them, through the output buffer. */
    method Send(p: seq<Byte>)
      requires |enc.alphabet| == 32 && out.Length == 1024 && |p| % 5 == 0 && |p| <= 640
      modifies `w, out
      ensures w == old(w) + Text(enc, p)
    {
      WholeGroups(enc, p);
      Encode(enc, out, p);
      w := w + out[..|p| / 5 * 8];
    }

    /** Tops the buffer up to one group. */
    method Fill(p: seq<Byte>) returns (i: nat)
      requires |buf| <= 5
      modifies `buf
      ensures i <= |p| && buf == old(buf) + p[..i] && |buf| <= 5 && (|buf| < 5 ==> i == |p|)
    {
      i := 0;
      while i < |p| && |buf| < 5
        invariant i <= |p| && |buf| <= 5 && buf == old(buf) + p[..i]
      {
        assert p[..i + 1] == p[..i] + [p[i]];
        buf := buf + [p[i]];
        i := i + 1;
      }
    }

    /** Whole groups in large chunks; returns what is left over. */
    method SendAll(p: seq<Byte>) returns (rest: seq<Byte>, ghost whole: seq<Byte>)
      requires |enc.alphabet| == 32 && out.Length == 1024
      modifies `w, out
      ensures |rest| < 5 && |whole| % 5 == 0 && p == whole + rest && w == old(w) + Text(enc, whole)
    {
      WholeGroups(enc, []);
      hide Text;
      rest, whole := p, [];
      ghost var w0 := w;
      while |rest| >= 5
        invariant p == whole + rest && |whole| % 5 == 0 && w == w0 + Text(enc, whole)
        decreases |rest|
      {
        var nn := ChunkSize(|rest|);
        var chunk, left := rest[..nn], rest[nn..];
        assert rest == chunk + left;
        TextAppend(enc, whole, chunk);
        Regroup(whole, chunk, left);
        Regroup(w0, Text(enc, whole), Text(enc, chunk));
        SumOfFives(|whole|, nn);
        Send(chunk);
        rest, whole := left, whole + chunk;
      }
    }

    /** Tops the buffer up with p and sends it when it holds a group; open if p was not enough for that. */
    method TopUp(p: seq<Byte>, ghost sent: seq<Byte>) returns (open: bool, rest: seq<Byte>, ghost now: seq<Byte>)
      requires |enc.alphabet| == 32 && out.Length == 1024 && |buf| < 5 && |sent| % 5 == 0 && w == Text(enc, sent)
      modifies `buf, `w, out
      ensures |now| % 5 == 0 && w == Text(enc, now)
      ensures open ==> |buf| < 5 && now == sent && buf == old(buf) + p
      ensures !open ==> (sent + old(buf)) + p == now + rest
    {
      hide Text;
      rest, now := p, sent;
      if |buf| == 0 {
        assert sent + buf == sent;
        return false, rest, now;
      }
      ghost var held := buf;
      var i := Fill(p);
      rest := p[i..];
      assert p == p[..i] + rest;
      if |buf| < 5 {
        assert p[..i] == p;
        return true, rest, now;
      }
      TextAppend(enc, sent, buf);
      Send(buf);
      now := sent + buf;
      Regroup(sent, held, p[..i]);
      Regroup(sent + held, p[..i], rest);
      return false, rest, now;
    }

    method Write(p: seq<Byte>)
      requires Valid()
      modifies this, out
      ensures Valid() && data == old(data) + p
    {
      hide Text;
      ghost var sent := data[..|data| - |buf|];
      assert data == sent + buf;
      var open, rest;
      ghost var now, whole;
      open, rest, now := TopUp(p, sent);
      if open {
        Regroup(sent, old(buf), p);
        data := data + p;
        Divided(sent, buf, data);
        return;
      }
      rest, whole := SendAll(rest);
      TextAppend(enc, now, whole);
      Regroup(now, whole, rest);
      SumOfFives(|now|, |whole|);
      buf := rest;
      data := data + p;
      Divided(now + whole, buf, data);
    }

    /** The eight characters that Close sends: the last group and what the output buffer held behind it. */
    method LastEight() returns (t: seq<Byte>)
      requires |enc.alphabet| == 32 && out.Length == 1024 && 0 < |buf| < 5
      modifies out
      ensures |t| == 8 && Text(enc, buf) <= t && (|Text(enc, buf)| == 8 <==> enc.pad.Some?)
    {
      TextLength(enc, buf);
      Encode(enc, out, buf);
      t := out[..8];
    }

    /** Always eight characters: right exactly with padding, or if no group is left open. */
    method Close()
      requires Valid()
      modifies this, out
      ensures w == Text(enc, data) <==> enc.pad.Some? || |data| % 5 == 0
      ensures data == old(data)
    {
      hide Text;
      TextNil(enc, []);
      ghost var sent := data[..|data| - |buf|];
      assert data == sent + buf;
      CutToFives(|data|);
      TextAppend(enc, sent, buf);
      if |buf| > 0 {
        var t := LastEight();
        SameEnd(w, Text(enc, buf), t);
        w := w + t;
      } else {
        assert w + [] == w;
      }
    }
  }

  lemma CutToFives(n: nat)
    ensures (n - n % 5) % 5 == 0
  {
  }

  lemma SameEnd(w: seq<Byte>, g: seq<Byte>, t: seq<Byte>)
    requires g <= t
    ensures w + t == w + g <==> |g| == |t|
  {
    if |g| == |t| { assert g == t; }
    assert |w + t| == |w| + |t| && |w + g| == |w| + |g|;
  }

  lemma Divided(sent: seq<Byte>, buf: seq<Byte>, data: seq<Byte>)
    requires data == sent + buf && |sent| % 5 == 0 && |buf| < 5
    ensures |buf| == |data| % 5 && data[|data| - |buf|..] == buf && data[..|data| - |buf|] == sent
  {
  }

  // --- Decoding in place -------------------------------------------------------------------------

  /** Newlines are squeezed out towards the front of the same array. */
  method StripInPlace(a: array<Byte>) returns (off: nat)
    modifies a
    ensures off <= a.Length && a[..off] == Strip(old(a[..]))
  {
    off := 0;
    ghost var was: seq<Byte> := a[..];
    for i := 0 to a.Length
      invariant off <= i && a[..off] == Strip(was[..i]) && a[i..] == was[i..]
    {
      assert a[i] == a[i..][0] == was[i] && was[..i + 1][..i] == was[..i];
      if !Newline(a[i]) {
        ghost var front, back := a[..off], a[i + 1..];
        a[off] := a[i];
        assert a[..off] == front && a[i + 1..] == back;
        off := off + 1;
      }
      assert a[i + 1..] == was[i + 1..];
    }
    assert was[..a.Length] == was;
  }

  /** One turn of the outer loop's reading: up to eight characters, or the padding that ends the message. */
  method NextChunk(enc: Encoding, src: seq<Byte>) returns (c: Chunk)
    ensures c == ReadChunk(enc, src, [])
  {
    var s, q: seq<Quint> := src, [];
    while |q| < 8
      invariant |q| <= 8 && ReadChunk(enc, s, q) == ReadChunk(enc, src, [])
      decreases 8 - |q|
    {
      if |s| == 0 { return if enc.pad.Some? then Corrupt else Chunk(q, [], false); }
      var c, rest := s[0], s[1..];
      if c == PadByte(enc) && |q| >= 2 && |rest| < 8 {
        if enc.pad.None? { return Corrupt; }
        if |rest| + |q| < 7 { return Corrupt; }
        var k := 0;
        while k < 7 - |q|
          invariant k <= 7 - |q| && AllPad(enc, rest, k)
        {
          if |rest| > k && rest[k] != PadByte(enc) { return Corrupt; }
          k := k + 1;
        }
        if |q| == 1 || |q| == 3 || |q| == 6 { return Corrupt; }
        return Chunk(q, rest, true);
      }
      var d := enc.decode(c);
      if d.None? { return Corrupt; }
      s, q := rest, q + [d.value];
    }
    return Chunk(q, s, false);
  }

  lemma {:induction false} ChunkRest(enc: Encoding, s: seq<Byte>, q: seq<Quint>)
    requires |q| <= 8 && ReadChunk(enc, s, q).Chunk?
    ensures var c := ReadChunk(enc, s, q);
            && |c.q| <= |s| + |q| && |c.rest| <= |s| && c.rest == s[|s| - |c.rest|..]
            && (c.end || c.rest == [] || (|c.q| == 8 && |c.rest| + 8 == |s| + |q|))
    decreases 8 - |q|
  {
    if |q| < 8 && s != [] {
      var d := enc.decode(s[0]);
      if !(s[0] == PadByte(enc) && |q| >= 2 && |s| - 1 < 8) && d.Some? {
        ChunkRest(enc, s[1..], q + [d.value]);
      }
    }
  }

  lemma PackShort(q: seq<Quint>)
    requires |q| <= 8
    ensures |Pack(q)| <= |q| && (|q| == 8 ==> |Pack(q)| == 5)
  {
  }

  lemma {:induction false} BytesNext(enc: Encoding, s: seq<Byte>, whole: Option<seq<Byte>>, done: seq<Byte>)
    requires s != [] && Continues(whole, done, Bytes(enc, s))
    ensures match ReadChunk(enc, s, [])
            case Corrupt => whole == None
            case Chunk(q, rest, end) =>
              if end || rest == [] then whole == Some(done + Pack(q)) else Continues(whole, done + Pack(q), Bytes(enc, rest))
  {
    hide ReadChunk, Pack;
    match ReadChunk(enc, s, [])
    case Corrupt =>
    case Chunk(q, rest, end) =>
      if !end && rest != [] && Bytes(enc, rest).Some? { Regroup(done, Pack(q), Bytes(enc, rest).value); }
  }

  lemma {:induction false} HoldsParts(now: seq<Byte>, was: seq<Byte>, at: nat, t: seq<Byte>, lo: nat, hi: nat)
    requires Holds(now, was, at, t) && lo <= hi <= |was|
    ensures now[..at + |t|] == was[..at] + t && |now| == |was|
    ensures at + |t| <= lo ==> now[lo..hi] == was[lo..hi]
  {
  }

  /** One group, read from pos and written at n, which is never ahead of it. */
  method DecodeGroup(enc: Encoding, a: array<Byte>, off: nat, pos: nat, n: nat, ghost whole: Option<seq<Byte>>)
    returns (next: nat, m: nat, end: bool, ok: bool)
    requires n <= pos < off <= a.Length && Continues(whole, a[..n], Bytes(enc, a[pos..off]))
    modifies a
    ensures !ok ==> whole == None
    ensures ok ==> pos < next <= off && n <= m <= a.Length
    ensures ok && (end || next == off) ==> whole == Some(a[..m])
    ensures ok && !end && next < off ==>
              m == n + 5 <= next && a.Length - n > 5 && Continues(whole, a[..m], Bytes(enc, a[next..off]))
  {
    var src := a[pos..off];
    ghost var was: seq<Byte> := a[..];
    hide Bytes, ReadChunk, Pack, Continues, Holds;
    BytesNext(enc, src, whole, a[..n]);
    var c := NextChunk(enc, src);
    if c.Corrupt? { return pos, n, false, false; }
    ChunkRest(enc, src, []);
    PackShort(c.q);
    var t := Pack(c.q);
    next, m, end, ok := off - |c.rest|, n + |t|, c.end, true;
    ChunkProgress(enc, src);
    Put(a, n, t);
    HoldsParts(a[..], was, n, t, next, off);
    assert a[..m] == a[..][..m] == was[..n] + t;
    if !end && next < off {
      assert a[next..off] == a[..][next..off] == was[next..off] == src[next - pos..] == c.rest;
    }
  }

  lemma {:induction false} ChunkProgress(enc: Encoding, s: seq<Byte>)
    requires s != [] && ReadChunk(enc, s, []).Chunk?
    ensures |ReadChunk(enc, s, []).rest| < |s|
  {
    var d := enc.decode(s[0]);
    var none: seq<Quint> := [];
    if d.Some? { ChunkRest(enc, s[1..], none + [d.value]); }
  }

  /** The same array is read and written, but what is written lies behind what has been read. */
  method Decode(enc: Encoding, a: array<Byte>, off: nat) returns (n: nat, ok: bool)
    requires off <= a.Length
    modifies a
    ensures ok <==> Bytes(enc, old(a[..off])).Some?
    ensures ok ==> n <= a.Length && a[..n] == Bytes(enc, old(a[..off])).value
  {
    ghost var whole := Bytes(enc, a[..off]);
    var pos, base, end := 0, 0, false;
    n := 0;
    assert a[0..off] == a[..off];
    assert Continues(whole, [], whole) by { if whole.Some? { assert [] + whole.value == whole.value; } }
    if off == 0 { return 0, true; }
    hide Bytes, Continues;
    while pos < off && !end
      invariant pos <= off && n <= a.Length
      invariant pos < off && !end ==> base == n <= pos && Continues(whole, a[..n], Bytes(enc, a[pos..off]))
      invariant pos == off || end ==> whole == Some(a[..n])
      decreases off - pos
    {
      pos, n, end, ok := DecodeGroup(enc, a, off, pos, base, whole);
      if !ok { return n, false; }
      if a.Length - base > 5 { base := base + 5; }
    }
    ok := true;
  }

  method DecodeString(enc: Encoding, s: seq<Byte>) returns (r: Option<seq<Byte>>)
    ensures r == Decoded(enc, s)
  {
    var strb := new Byte[|s|];
    forall i | 0 <= i < |s| { strb[i] := s[i]; }
    assert strb[..] == s;
    var off := StripInPlace(strb);
    var n, ok := Decode(enc, strb, off);
    return if ok then Some(strb[..n]) else None;
  }
}
