/** Content identifiers and multihashes (cid/cid.go, multiformats/multihash/multihash.go). */
module Cid {
  import opened Words
  import opened Varint

  type Bytes = seq<Byte>

  const SHA2_256: nat := 0x12
  const DAG_PROTOBUF: nat := 0x70
  const MAX_DIGEST: nat := 0x7fff_ffff
  /** What CidFromReader is willing to allocate: 32 MiB. */
  const MAX_ALLOC: nat := 0x200_0000

  datatype Multihash = Multihash(code: nat, digest: Bytes)

  datatype HashRead = Hash(n: nat, mh: Multihash) | NoHash

  function Encode(mh: Multihash): Bytes {
    ToUvarint(mh.code) + ToUvarint(|mh.digest|) + mh.digest
  }

  /** Multihashes that can be decoded. */
  predicate Decodable(mh: Multihash) {
    mh.code < U63 && |mh.digest| <= MAX_DIGEST
  }

  /** readMultihashFromBuf */
  function ReadHash(buf: Bytes): HashRead {
    if |buf| < 2 then NoHash
    else match FromBytes(buf)
      case Ok(code, n) => (
        AcceptsCanonical(buf, code);
        match FromBytes(buf[n..])
        case Ok(length, m) =>
          AcceptsCanonical(buf[n..], length);
          if length > MAX_DIGEST || length > |buf| - n - m then NoHash
          else Hash(n + m + length, Multihash(code, buf[n + m..n + m + length]))
        case _ => NoHash
      )
      case _ => NoHash
  }

  lemma {:induction false} CutThree(a: Bytes, b: Bytes, c: Bytes, more: Bytes)
    ensures var all := a + b + c + more;
            && all == a + (b + c + more) && all[|a|..] == b + (c + more)
            && all[|a| + |b|..|a| + |b| + |c|] == c
  {
  }

  lemma {:induction false} ReadEncoded(mh: Multihash, more: Bytes)
    requires Decodable(mh)
    ensures ReadHash(Encode(mh) + more) == Hash(|Encode(mh)|, mh)
  {
    hide ToUvarint, FromBytes;
    var a, b := ToUvarint(mh.code), ToUvarint(|mh.digest|);
    CutThree(a, b, mh.digest, more);
    var buf := Encode(mh) + more;
    AcceptsCanonical(buf, mh.code);
    AcceptsCanonical(buf[|a|..], |mh.digest|);
  }

  lemma {:induction false} ReadIsEncoded(buf: Bytes)
    requires ReadHash(buf).Hash?
    ensures var r := ReadHash(buf); Decodable(r.mh) && r.n == |Encode(r.mh)| <= |buf| && buf[..r.n] == Encode(r.mh)
  {
    hide ToUvarint, FromBytes;
    var code := FromBytes(buf);
    AcceptsCanonical(buf, code.value);
    var length := FromBytes(buf[code.n..]);
    AcceptsCanonical(buf[code.n..], length.value);
    var r := ReadHash(buf);
    var k := code.n + length.n;
    assert buf[code.n..k] == buf[code.n..][..length.n];
    assert buf[..r.n] == buf[..code.n] + buf[code.n..k] + buf[k..r.n];
  }

  /** A multihash is read exactly where its encoding stands, whatever follows. */
  lemma {:induction false} ReadHashExact(buf: Bytes, n: nat, mh: Multihash)
    ensures ReadHash(buf) == Hash(n, mh) <==> Decodable(mh) && Encode(mh) <= buf && n == |Encode(mh)|
  {
    hide ReadHash, Encode;
    if ReadHash(buf) == Hash(n, mh) { ReadIsEncoded(buf); }
    if Decodable(mh) && Encode(mh) <= buf {
      assert buf == Encode(mh) + buf[|Encode(mh)|..];
      ReadEncoded(mh, buf[|Encode(mh)|..]);
    }
  }

  // --- Identifiers -------------------------------------------------------------------------------

  /** The bytes of the identifier and how many were read. */
  datatype CidRead = Parsed(n: nat, cid: Bytes) | Invalid

  function NewCidV1(codec: nat, mhash: Bytes): Bytes {
    [1] + ToUvarint(codec) + mhash
  }

  predicate LooksV0(data: Bytes) {
    |data| > 2 && data[0] == SHA2_256 && data[1] == 32
  }

  function FromData(data: Bytes): CidRead {
    if LooksV0(data) then
      if |data| < 34 then Invalid
      else if ReadHash(data[..34]).Hash? && ReadHash(data[..34]).n == 34 then Parsed(34, data[..34])
      else Invalid
    else match FromBytes(data)
      case Ok(vers, n) => (
        AcceptsCanonical(data, vers);
        if vers != 1 then Invalid
        else match FromBytes(data[n..])
          case Ok(codec, cn) => (
            AcceptsCanonical(data[n..], codec);
            match ReadHash(data[n + cn..])
            case Hash(hn, _) =>
              ReadIsEncoded(data[n + cn..]);
              Parsed(n + cn + hn, data[..n + cn + hn])
            case NoHash => Invalid
          )
          case _ => Invalid
      )
      case _ => Invalid
  }

  lemma VersionBytes()
    ensures ToUvarint(1) == [1] && ToUvarint(SHA2_256) == [SHA2_256] && ToUvarint(32) == [32]
  {
  }

  /** A version 1 identifier in front of the data. */
  ghost predicate StartsV1(data: Bytes, codec: nat, mh: Multihash) {
    codec < U63 && Decodable(mh) && NewCidV1(codec, Encode(mh)) <= data
  }

  lemma {:induction false} PrefixSplit(a: Bytes, b: Bytes, c: Bytes, data: Bytes)
    ensures a + b + c <= data <==> a <= data && b <= data[|a|..] && c <= data[|a|..][|b|..]
  {
    if a + b + c <= data {
      var rest := data[|a + b + c|..];
      assert data == (a + b + c) + rest;
      assert data == a + (b + c + rest);
      assert data[|a|..] == b + (c + rest);
      assert data[|a|..][|b|..] == c + rest;
    }
    if a <= data && b <= data[|a|..] && c <= data[|a|..][|b|..] {
      assert data == a + data[|a|..];
      assert data[|a|..] == b + data[|a|..][|b|..];
    }
  }

  /** CidFromBytes finds a version 1 identifier exactly where NewCidV1 put one. */
  lemma {:induction false} FromDataV1(data: Bytes, codec: nat, mh: Multihash)
    requires StartsV1(data, codec, mh)
    ensures var c := NewCidV1(codec, Encode(mh)); FromData(data) == Parsed(|c|, c)
  {
    VersionBytes();
    hide ToUvarint, FromBytes, ReadHash, Encode;
    var a, b, c := ToUvarint(1), ToUvarint(codec), Encode(mh);
    PrefixSplit(a, b, c, data);
    AcceptsCanonical(data, 1);
    AcceptsCanonical(data[1..], codec);
    var n := 1 + |b|;
    assert data[1..][|b|..] == data[n..];
    ReadHashExact(data[n..], |c|, mh);
    assert data[..|a + b + c|] == a + b + c;
  }

  lemma {:induction false} FromDataIsV1(data: Bytes) returns (codec: nat, mh: Multihash)
    requires FromData(data).Parsed? && !LooksV0(data)
    ensures StartsV1(data, codec, mh) && FromData(data) == Parsed(|NewCidV1(codec, Encode(mh))|, NewCidV1(codec, Encode(mh)))
  {
    VersionBytes();
    hide ToUvarint, FromBytes, ReadHash, Encode;
    var vers := FromBytes(data);
    AcceptsCanonical(data, 1);
    AcceptsCanonical(data, vers.value);
    var code := FromBytes(data[vers.n..]);
    AcceptsCanonical(data[vers.n..], code.value);
    codec := code.value;
    var k := vers.n + code.n;
    mh := ReadHash(data[k..]).mh;
    ReadHashExact(data[k..], ReadHash(data[k..]).n, mh);
    assert data[vers.n..][code.n..] == data[k..];
    PrefixSplit(ToUvarint(1), ToUvarint(codec), Encode(mh), data);
    FromDataV1(data, codec, mh);
  }

  /** CidFromBytes undoes NewCidV1 with anything appended, exactly for codecs below 2^63 and decodable hashes. */
  lemma {:induction false} ParseUndoesNew(codec: nat, mh: Multihash, more: Bytes)
    requires codec < U64
    ensures var c := NewCidV1(codec, Encode(mh));
            FromData(c + more) == Parsed(|c|, c) <==> codec < U63 && Decodable(mh)
  {
    var c := NewCidV1(codec, Encode(mh));
    var data := c + more;
    if codec < U63 && Decodable(mh) { FromDataV1(data, codec, mh); }
    if FromData(data) == Parsed(|c|, c) {
      var codec', mh' := FromDataIsV1(data);
      SameParts(codec, mh, codec', mh');
    }
  }

  /** The bytes determine codec, code and digest. */
  lemma {:induction false} SameParts(codec: nat, mh: Multihash, codec': nat, mh': Multihash)
    requires NewCidV1(codec, Encode(mh)) == NewCidV1(codec', Encode(mh'))
    ensures codec == codec' && mh == mh'
  {
    hide ToUvarint;
    var x := NewCidV1(codec, Encode(mh));
    assert x[1..] == ToUvarint(codec) + Encode(mh) == ToUvarint(codec') + Encode(mh');
    SameFront(x[1..], codec, codec');
    var y := Encode(mh);
    assert y == x[1..][|ToUvarint(codec)|..] == Encode(mh');
    SameFront(y, mh.code, mh'.code);
    var z := y[|ToUvarint(mh.code)|..];
    assert z == ToUvarint(|mh.digest|) + mh.digest == ToUvarint(|mh'.digest|) + mh'.digest;
    SameFront(z, |mh.digest|, |mh'.digest|);
    assert z[|ToUvarint(|mh.digest|)|..] == mh.digest == mh'.digest;
  }

  lemma {:induction false} SameFront(b: Bytes, x: nat, y: nat)
    requires ToUvarint(x) <= b && ToUvarint(y) <= b
    ensures x == y
  {
    MinimalFront(b, x);
    MinimalFront(b, y);
  }

  // --- Accessors ---------------------------------------------------------------------------------

  function Version(cid: Bytes): nat {
    if |cid| == 34 && cid[0] == SHA2_256 && cid[1] == 32 then 0 else 1
  }

  /** How far a decoder got; a failed one reports 0 for both results. */
  function ValueOr0(d: Decoded): nat {
    if d.Ok? then d.value else 0
  }

  function CountOr0(d: Decoded): nat {
    if d.Ok? then d.n else 0
  }

  lemma {:induction false} CountInRange(b: Bytes)
    ensures CountOr0(FromBytes(b)) <= |b| && CountOr0(WideFromBytes(b)) <= |b|
  {
    AcceptsCanonical(b, 0);
  }

  /** Type goes by cid's own decoder. */
  function Type(cid: Bytes): nat {
    if Version(cid) == 0 then DAG_PROTOBUF
    else
      CountInRange(cid);
      ValueOr0(WideFromBytes(cid[CountOr0(WideFromBytes(cid))..]))
  }

  /** Hash goes by the varint package's. */
  function HashOf(cid: Bytes): Bytes {
    if Version(cid) == 0 then cid
    else
      CountInRange(cid);
      var n := CountOr0(FromBytes(cid));
      CountInRange(cid[n..]);
      cid[n + CountOr0(FromBytes(cid[n..]))..]
  }

  /** Of a new identifier Type gives the codec always, and Hash the multihash exactly below 2^63. */
  lemma {:induction false} PartsOfNew(codec: nat, mhash: Bytes)
    requires codec < U64
    ensures var c := NewCidV1(codec, mhash);
            Version(c) == 1 && Type(c) == codec && (HashOf(c) == mhash <==> codec < U63)
  {
    VersionBytes();
    var c, b := NewCidV1(codec, mhash), ToUvarint(codec);
    hide ToUvarint, FromBytes, WideFromBytes;
    assert c == [1] + (b + mhash) && c[1..] == b + mhash;
    AcceptsCanonical(c, 1);
    WideAcceptsCanonical(c, 1);
    DecodersAgree(c);
    WideAcceptsCanonical(c[1..], codec);
    AcceptsCanonical(c[1..], codec);
    var d := FromBytes(c[1..]);
    if codec < U63 {
      assert c[1 + |b|..] == mhash;
    } else {
      assert !d.Ok? by {
        if d.Ok? {
          AcceptsCanonical(c[1..], d.value);
          SameFront(c[1..], d.value, codec);
        }
      }
      assert |HashOf(c)| == |c| - 1 > |mhash|;
    }
  }

  // --- Reading from a stream ---------------------------------------------------------------------

  /** The digest is short enough for CidFromReader to allocate. */
  ghost predicate Allocatable(data: Bytes) {
    forall codec, mh :: StartsV1(data, codec, mh) ==> |mh.digest| <= MAX_ALLOC
  }

  /** A sha2-256 multihash of 34 bytes is one that says so in its second byte. */
  lemma {:induction false} CastV0(data: Bytes)
    requires |data| == 34 && data[0] == SHA2_256
    ensures ReadHash(data).Hash? && ReadHash(data).n == 34 <==> data[1] == 32
  {
    VersionBytes();
    if ReadHash(data).Hash? && ReadHash(data).n == 34 {
      ReadIsEncoded(data);
      var mh := ReadHash(data).mh;
      assert data[..34] == data;
      assert Encode(mh)[0] == ToUvarint(mh.code)[0];
      assert mh.code == SHA2_256;
      assert data[1..] == ToUvarint(|mh.digest|) + mh.digest;
    }
    if data[1] == 32 {
      var mh := Multihash(SHA2_256, data[2..]);
      assert data == [data[0]] + [data[1]] + data[2..];
      ReadHashExact(data, 34, mh);
    }
  }

  lemma {:induction false} FirstByte(data: Bytes)
    ensures FromBytes(data).Ok? && FromBytes(data).value == SHA2_256 <==> |data| > 0 && data[0] == SHA2_256
    ensures FromBytes(data).Ok? && FromBytes(data).value == SHA2_256 ==> FromBytes(data).n == 1
  {
    VersionBytes();
    AcceptsCanonical(data, SHA2_256);
  }

  /** The numbers behind the version, with the offsets behind each. */
  datatype Header = Header(codec: nat, a: nat, code: nat, b: nat, length: nat, k: nat)

  predicate Headed(data: Bytes, h: Header) {
    && 1 <= h.a <= h.b <= h.k <= |data|
    && FromBytes(data) == Ok(1, 1)
    && FromBytes(data[1..]) == Ok(h.codec, h.a - 1)
    && FromBytes(data[h.a..]) == Ok(h.code, h.b - h.a)
    && FromBytes(data[h.b..]) == Ok(h.length, h.k - h.b)
  }

  /** What the header decides, once it has been read. */
  lemma {:induction false} AfterHeader(data: Bytes, h: Header)
    requires Headed(data, h)
    ensures !LooksV0(data)
    ensures FromData(data) ==
            if h.length <= MAX_DIGEST && h.length <= |data| - h.k then Parsed(h.k + h.length, data[..h.k + h.length]) else Invalid
  {
    hide FromBytes, ToUvarint;
    FirstByte(data);
    VersionBytes();
    AcceptsCanonical(data[h.a..], h.code);
    AcceptsCanonical(data[h.b..], h.length);
    assert data[h.a..][h.b - h.a..] == data[h.b..];
  }

  lemma {:induction false} HeaderAllocates(data: Bytes, h: Header)
    requires Headed(data, h) && FromData(data).Parsed? && !LooksV0(data)
    ensures Allocatable(data) <==> h.length <= MAX_ALLOC
  {
    hide FromBytes, ToUvarint;
    var codec, mh := FromDataIsV1(data);
    HeaderLength(data, codec, mh, h.a, h.code, h.b, h.length);
    forall c2, mh2 | StartsV1(data, c2, mh2) ensures |mh2.digest| == h.length {
      HeaderLength(data, c2, mh2, h.a, h.code, h.b, h.length);
    }
  }

  lemma {:induction false} HeaderLength(data: Bytes, codec: nat, mh: Multihash, a: nat, code: nat, b: nat, length: nat)
    requires StartsV1(data, codec, mh) && 1 <= a <= b <= |data|
    requires FromBytes(data[1..]).Ok? && FromBytes(data[1..]).n == a - 1
    requires FromBytes(data[a..]) == Ok(code, b - a) && FromBytes(data[b..]).Ok? && FromBytes(data[b..]).value == length
    ensures |mh.digest| == length
  {
    VersionBytes();
    hide FromBytes, ToUvarint;
    PrefixSplit(ToUvarint(1), ToUvarint(codec), Encode(mh), data);
    AcceptsCanonical(data[1..], codec);
    assert data[1..][a - 1..] == data[a..];
    PrefixSplit(ToUvarint(mh.code), ToUvarint(|mh.digest|), mh.digest, data[a..]);
    AcceptsCanonical(data[a..], mh.code);
    assert data[a..][b - a..] == data[b..];
    AcceptsCanonical(data[b..], |mh.digest|);
  }

  /** ReadUvarint through the wrapper that keeps what it reads. */
  method ReadNumber(r: Reader, dst: Bytes) returns (value: Option<nat>, bytes: Bytes)
    modifies r
    ensures bytes + r.rest == dst + old(r.rest)
    ensures |dst| <= |bytes| <= |dst| + |old(r.rest)| && r.rest == old(r.rest)[|bytes| - |dst|..]
    ensures match FromBytes(old(r.rest))
            case Ok(v, n) => value == Some(v) && r.rest == old(r.rest)[n..] && n <= |old(r.rest)| && |bytes| == |dst| + n
            case _ => value == None
  {
    var before := r.rest;
    AcceptsCanonical(before, 0);
    var u := r.ReadUvarint();
    hide FromBytes, Stop;
    var n := |before| - |r.rest|;
    bytes := dst + before[..n];
    value := if u.Got? then Some(u.value) else None;
  }

  /** io.ReadFull: all n bytes, or what there is. */
  method ReadFull(r: Reader, dst: Bytes, n: nat) returns (ok: bool, bytes: Bytes)
    modifies r
    ensures bytes + r.rest == dst + old(r.rest)
    ensures |dst| <= |bytes| <= |dst| + |old(r.rest)| && r.rest == old(r.rest)[|bytes| - |dst|..]
    ensures ok <==> n <= |old(r.rest)|
    ensures ok ==> |bytes| == |dst| + n
  {
    ok := n <= |r.rest|;
    var k := if ok then n else |r.rest|;
    bytes := dst + r.rest[..k];
    r.rest := r.rest[k..];
  }

  /** The count is exact even on failure, and the result that of CidFromBytes on all that is to come. */
  method FromReader(r: Reader) returns (n: nat, cid: CidRead)
    modifies r
    ensures n <= |old(r.rest)| && r.rest == old(r.rest)[n..]
    ensures cid == if LooksV0(old(r.rest)) || Allocatable(old(r.rest)) then FromData(old(r.rest)) else Invalid
    ensures cid.Parsed? ==> n == cid.n
  {
    ghost var data := r.rest;
    FirstByte(data);
    var vers, dst := ReadNumber(r, []);
    if vers.None? { return |dst|, Invalid; }
    if vers.value == SHA2_256 {
      var ok;
      ok, dst := ReadFull(r, dst, 33);
      if !ok { return |dst|, Invalid; }
      assert data == [] + data == dst + r.rest;
      assert dst == data[..34];
      CastV0(dst);
      var h := ReadHash(dst);
      if !h.Hash? || h.n != |dst| { return |dst|, Invalid; }
      return |dst|, Parsed(|dst|, dst);
    }
    if vers.value != 1 { return |dst|, Invalid; }
    VersionBytes();
    AcceptsCanonical(data, 1);
    n, cid := FromReaderV1(r, dst, data);
  }

  method FromReaderV1(r: Reader, start: Bytes, ghost data: Bytes) returns (n: nat, cid: CidRead)
    requires start + r.rest == data && FromBytes(data) == Ok(1, |start|) && |start| == 1
    modifies r
    ensures n <= |data| && r.rest == data[n..]
    ensures cid == if LooksV0(data) || Allocatable(data) then FromData(data) else Invalid
    ensures cid.Parsed? ==> n == cid.n
  {
    hide FromBytes, ToUvarint, Allocatable;
    FirstByte(data);
    var codec, dst := ReadNumber(r, start);
    if codec.None? { return |dst|, Invalid; }
    var a := |dst|;
    var code;
    code, dst := ReadNumber(r, dst);
    if code.None? { return |dst|, Invalid; }
    var b := |dst|;
    var length;
    length, dst := ReadNumber(r, dst);
    if length.None? { return |dst|, Invalid; }
    ghost var h := Header(codec.value, a, code.value, b, length.value, |dst|);
    AfterHeader(data, h);
    if FromData(data).Parsed? { HeaderAllocates(data, h); }
    if length.value > MAX_ALLOC { return |dst|, Invalid; }
    var ok;
    ok, dst := ReadFull(r, dst, length.value);
    if !ok { return |dst|, Invalid; }
    assert dst == data[..|dst|];
    HashStands(data, h, |dst|);
    n := |dst|;
    cid := if ReadHash(dst[a..]).Hash? then Parsed(n, dst) else Invalid;
  }

  /** The last check of CidFromReader never fails. */
  lemma {:induction false} HashStands(data: Bytes, h: Header, n: nat)
    requires Headed(data, h) && h.length <= MAX_DIGEST && n == h.k + h.length <= |data|
    ensures ReadHash(data[..n][h.a..]).Hash?
  {
    hide FromBytes, ToUvarint;
    var tail := data[h.a..];
    AcceptsCanonical(tail, h.code);
    AcceptsCanonical(data[h.b..], h.length);
    assert tail[h.b - h.a..] == data[h.b..];
    var mh := ReadHash(tail).mh;
    ReadHashExact(tail, n - h.a, mh);
    assert data[..n][h.a..] == tail[..n - h.a];
    ReadHashExact(data[..n][h.a..], n - h.a, mh);
  }
}
