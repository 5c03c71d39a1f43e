/** Alphabets and their decoding tables (multiformats/base32/base32.go). */
module Base32Alphabets {
  import opened Words
  import opened Base32

  const PAD: Byte := '=' as int
  const NONE: Byte := 0xFF

  function Lower(c: Byte): Byte {
    if 'A' as int <= c <= 'Z' as int then c + 32 else c
  }

  function Upper(c: Byte): Byte {
    if 'a' as int <= c <= 'z' as int then c - 32 else c
  }

  function Lowered(a: seq<Byte>): (r: seq<Byte>)
    ensures |r| == |a| && forall i :: 0 <= i < |a| ==> r[i] == Lower(a[i])
  {
    seq(|a|, i requires 0 <= i < |a| => Lower(a[i]))
  }

  /** The last place of a character. */
  function Last(a: seq<Byte>, c: Byte): (p: Option<Quint>)
    requires |a| <= 32
    ensures p.Some? ==> p.value < |a| && a[p.value] == c && forall i :: p.value < i < |a| ==> a[i] != c
    ensures p.None? ==> c !in a
  {
    if a == [] then None
    else if a[|a| - 1] == c then Some(|a| - 1)
    else Last(a[..|a| - 1], c)
  }

  ghost predicate PlainTable(enc: Encoding) {
    |enc.alphabet| == 32 && forall c :: enc.decode(c) == Last(enc.alphabet, c)
  }

  /** Upper and lower case are one. */
  ghost predicate FoldedTable(enc: Encoding) {
    |enc.alphabet| == 32 && forall c :: enc.decode(c) == Last(Lowered(enc.alphabet), Lower(c))
  }

  // --- Filling the table -------------------------------------------------------------------------

  /** What decodeMap holds after the first n characters. */
  ghost predicate Filled(table: seq<Byte>, a: seq<Byte>) {
    |table| == 256 && |a| <= 32 && forall c: Byte :: table[c] == match Last(a, c) case None => NONE case Some(i) => i
  }

  function Lookup(table: seq<Byte>): Byte -> Option<Quint> {
    (c: Byte) => if c < |table| && table[c] < 32 then Some(table[c]) else None
  }

  method NewEncoding(encoder: seq<Byte>) returns (enc: Encoding)
    requires |encoder| == 32
    ensures enc.alphabet == encoder && enc.pad == Some(PAD) && PlainTable(enc)
  {
    var decodeMap := new Byte[256](_ => NONE);
    for i := 0 to 32
      invariant Filled(decodeMap[..], encoder[..i])
    {
      decodeMap[encoder[i]] := i;
      assert encoder[..i + 1][..i] == encoder[..i];
    }
    assert encoder[..32] == encoder;
    enc := Encoding(encoder, Lookup(decodeMap[..]), Some(PAD));
  }

  ghost predicate FilledFolded(table: seq<Byte>, a: seq<Byte>) {
    |table| == 256 && |a| <= 32 &&
    forall c: Byte :: table[c] == match Last(a, Lower(c)) case None => NONE case Some(i) => i
  }

  lemma {:induction false} FoldedStep(table: seq<Byte>, a: seq<Byte>, x: Byte)
    requires FilledFolded(table, a) && |a| < 32
    ensures FilledFolded(table[Lower(x) := |a|][Upper(x) := |a|], a + [Lower(x)])
  {
    var b := a + [Lower(x)];
    assert b[..|a|] == a;
  }

  method NewEncodingCI(encoder: seq<Byte>) returns (enc: Encoding)
    requires |encoder| == 32
    ensures enc.alphabet == encoder && enc.pad == Some(PAD) && FoldedTable(enc)
  {
    var decodeMap := new Byte[256](_ => NONE);
    ghost var lowered := Lowered(encoder);
    hide Last;
    for i := 0 to 32
      invariant FilledFolded(decodeMap[..], lowered[..i])
    {
      FoldedStep(decodeMap[..], lowered[..i], encoder[i]);
      decodeMap[Lower(encoder[i])] := i;
      decodeMap[Upper(encoder[i])] := i;
      assert lowered[..i + 1] == lowered[..i] + [Lower(encoder[i])];
    }
    assert lowered[..32] == lowered;
    enc := Encoding(encoder, Lookup(decodeMap[..]), Some(PAD));
  }

  // --- Which alphabets are lawful ----------------------------------------------------------------

  predicate Unrepeated(a: seq<Byte>) {
    forall i, j :: 0 <= i < j < |a| ==> a[i] != a[j]
  }

  /** No character of the alphabet is taken for a newline or for padding. */
  predicate Unreserved(enc: Encoding) {
    && (forall c <- enc.alphabet :: !Newline(c))
    && (enc.pad.Some? ==> !Newline(enc.pad.value) && enc.pad.value !in enc.alphabet)
    && (enc.pad.None? ==> NONE !in enc.alphabet)
  }

  lemma {:induction false} LastOfUnrepeated(a: seq<Byte>, i: nat)
    requires i < |a| <= 32
    ensures Last(a, a[i]) == Some(i) <==> forall j :: i < j < |a| ==> a[i] != a[j]
  {
    assert a[i] in a;
  }

  /** Every place is the last one of its character exactly if no character repeats. */
  lemma {:induction false} AllLast(a: seq<Byte>)
    requires |a| <= 32
    ensures (forall i :: 0 <= i < |a| ==> Last(a, a[i]) == Some(i)) <==> Unrepeated(a)
  {
    forall i | 0 <= i < |a|
      ensures Last(a, a[i]) == Some(i) <==> forall j :: i < j < |a| ==> a[i] != a[j]
    {
      LastOfUnrepeated(a, i);
    }
  }

  /** NewEncoding, with any padding, gives a lawful encoding exactly for these alphabets. */
  lemma {:induction false} PlainLawful(enc: Encoding)
    requires PlainTable(enc)
    ensures Lawful(enc) <==> Unrepeated(enc.alphabet) && Unreserved(enc)
  {
    hide Last;
    AllLast(enc.alphabet);
  }

  /** NewEncodingCI, with any padding, does so exactly if no character repeats in either case. */
  lemma {:induction false} FoldedLawful(enc: Encoding)
    requires FoldedTable(enc)
    ensures Lawful(enc) <==> Unrepeated(Lowered(enc.alphabet)) && Unreserved(enc)
  {
    hide Last;
    AllLast(Lowered(enc.alphabet));
  }

  /** A case-insensitive table decodes both cases of a letter alike. */
  lemma {:induction false} CaseIgnored(enc: Encoding, c: Byte)
    requires FoldedTable(enc)
    ensures enc.decode(c) == enc.decode(Lower(c)) == enc.decode(Upper(c))
  {
    assert Lower(Lower(c)) == Lower(c) == Lower(Upper(c));
  }

  // --- The alphabets of RFC 4648 -----------------------------------------------------------------

  function Ascii(s: string): (r: seq<Byte>)
    requires forall i :: 0 <= i < |s| ==> s[i] as int < 256
    ensures |r| == |s| && forall i :: 0 <= i < |s| ==> r[i] == s[i] as int
  {
    seq(|s|, i requires 0 <= i < |s| => s[i] as int)
  }

  function EncodeStd(): seq<Byte> {
    Ascii("ABCDEFGHIJKLMNOPQRSTUVWXYZ234567")
  }

  function EncodeHex(): seq<Byte> {
    Ascii("0123456789ABCDEFGHIJKLMNOPQRSTUV")
  }

  lemma StdShape()
    ensures |EncodeStd()| == 32
    ensures forall i :: 0 <= i < 32 ==> EncodeStd()[i] == if i < 26 then 65 + i else 24 + i
  {
  }

  lemma HexShape()
    ensures |EncodeHex()| == 32
    ensures forall i :: 0 <= i < 32 ==> EncodeHex()[i] == if i < 10 then 48 + i else 55 + i
  {
  }

  /** StdEncoding, HexEncoding, RawStdEncoding and RawHexEncoding are lawful. */
  lemma {:induction false} StandardsLawful(enc: Encoding)
    requires FoldedTable(enc) && (enc.alphabet == EncodeStd() || enc.alphabet == EncodeHex())
    requires enc.pad == Some(PAD) || enc.pad.None?
    ensures Lawful(enc)
  {
    StdShape();
    HexShape();
    hide EncodeStd, EncodeHex, Last;
    FoldedLawful(enc);
  }
}
