/** Multiaddrs as bytes (multiformats/multiaddr: protocol.go, codec.go, component.go). */
module Components {
  import opened Words
  import opened Varint
  import opened Keys

  const MAX_INT32: nat := 0x7fff_ffff

  /** Validates and converts a protocol's argument between its two forms. */
  datatype Transcoder = Transcoder(toBytes: Str -> Option<Str>, toText: Str -> Option<Str>, validates: Str -> bool)

  /** size is in bits, 0 for no argument and negative for a length-prefixed one. */
  datatype Protocol = Protocol(name: Str, code: int, vcode: Str, size: int, path: bool, transcoder: Option<Transcoder>)

  datatype Tables = Tables(byName: map<Str, Protocol>, byCode: map<int, Protocol>)

  /** The two tables hold the same protocols: each under its code and its own name, and maybe other names. */
  ghost predicate Consistent(t: Tables) {
    && (forall n <- t.byName :: t.byName[n].code in t.byCode && t.byCode[t.byName[n].code] == t.byName[n])
    && (forall c <- t.byCode :: t.byCode[c].code == c && t.byCode[c].name in t.byName && t.byName[t.byCode[c].name] == t.byCode[c])
    && (forall c <- t.byCode :: t.byCode[c].size != 0 ==> t.byCode[c].transcoder.Some?)
    && (forall c <- t.byCode :: t.byCode[c].path ==> t.byCode[c].size < 0)
  }

  function Added(t: Tables, p: Protocol): Tables {
    Tables(t.byName[p.name := p], t.byCode[p.code := p])
  }

  /** A further name for a protocol, as package init gives ipfs to p2p. */
  function Aliased(t: Tables, name: Str, p: Protocol): Tables {
    t.(byName := t.byName[name := p])
  }

  lemma {:induction false} AddedConsistent(t: Tables, p: Protocol)
    requires Consistent(t) && p.name !in t.byName && p.code !in t.byCode
    requires (p.size != 0 ==> p.transcoder.Some?) && (p.path ==> p.size < 0)
    ensures Consistent(Added(t, p))
  {}

  lemma {:induction false} AliasedConsistent(t: Tables, name: Str, p: Protocol)
    requires Consistent(t) && p.code in t.byCode && t.byCode[p.code] == p
    requires name in t.byName ==> t.byName[name] == p
    ensures Consistent(Aliased(t, name, p))
  {}

  class Registry {
    var tables: Tables
    var protocols: seq<Protocol>

    ghost predicate Valid()
      reads this
    {
      && Consistent(tables)
      && (forall c <- tables.byCode :: tables.byCode[c] in protocols)
      && forall p <- protocols :: p.code in tables.byCode && tables.byCode[p.code] == p
    }

    constructor ()
      ensures Valid() && protocols == [] && tables == Tables(map[], map[])
    {
      tables := Tables(map[], map[]);
      protocols := [];
    }

    method AddProtocol(p: Protocol) returns (ok: bool)
      requires Valid()
      modifies this
      ensures Valid()
      ensures ok <==>
                && p.name !in old(tables).byName && p.code !in old(tables).byCode
                && (p.size != 0 ==> p.transcoder.Some?) && (p.path ==> p.size < 0)
      ensures protocols == old(protocols) + (if ok then [p] else [])
      ensures tables == if ok then Added(old(tables), p) else old(tables)
    {
      if p.name in tables.byName { return false; }
      if p.code in tables.byCode { return false; }
      if p.size != 0 && p.transcoder.None? { return false; }
      if p.path && p.size >= 0 { return false; }
      AddedConsistent(tables, p);
      protocols := protocols + [p];
      tables := Tables(tables.byName[p.name := p], tables.byCode[p.code := p]);
      return true;
    }

    /** An assignment to protocolsByName for a registered protocol. */
    method Alias(name: Str, p: Protocol)
      requires Valid() && p in protocols && (name in tables.byName ==> tables.byName[name] == p)
      modifies `tables
      ensures Valid() && tables == Aliased(old(tables), name, p)
    {
      AliasedConsistent(tables, name, p);
      tables := tables.(byName := tables.byName[name := p]);
    }
  }

  /** The lookups give a protocol of code 0 for what is not there. */
  function WithCode(t: Tables, code: int): Option<Protocol> {
    if code in t.byCode && t.byCode[code].code != 0 then Some(t.byCode[code]) else None
  }

  function WithName(t: Tables, name: Str): Option<Protocol> {
    if name in t.byName && t.byName[name].code != 0 then Some(t.byName[name]) else None
  }

  // --- Components and their bytes ----------------------------------------------------------------

  datatype Component = Component(p: Protocol, value: Str)

  function LengthOf(c: Component): Str {
    if c.p.size < 0 then ToUvarint(|c.value|) else []
  }

  function Bytes(c: Component): Str {
    c.p.vcode + LengthOf(c) + c.value
  }

  function AllBytes(cs: seq<Component>): Str {
    if cs == [] then [] else Bytes(cs[0]) + AllBytes(cs[1..])
  }

  /** A code that ReadVarintCode accepts, spelled by the protocol's own bytes. */
  predicate Coded(p: Protocol) {
    0 < p.code <= MAX_INT32 && p.vcode == ToUvarint(p.code)
  }

  predicate Sized(p: Protocol, value: Str) {
    if p.size == 0 then value == []
    else if p.size > 0 then |value| == p.size / 8
    else |value| <= MAX_INT32
  }

  /** A component of a registered protocol with an argument of the right size. */
  ghost predicate Fits(t: Tables, c: Component) {
    WithCode(t, c.p.code) == Some(c.p) && Coded(c.p) && Sized(c.p, c.value)
  }

  /** All registered protocols have the code bytes that CodeToVarint gives them. */
  ghost predicate WellCoded(t: Tables) {
    Consistent(t) && forall c <- t.byCode :: c != 0 ==> Coded(t.byCode[c])
  }

  datatype Read = Found(n: nat, c: Component) | Broken

  function ReadCode(b: Str): Decoded {
    match FromBytes(b)
    case Ok(v, n) => if v > MAX_INT32 then Overflow else Ok(v, n)
    case e => e
  }

  function SizeFor(p: Protocol, b: Str): Decoded {
    if p.size > 0 then Ok(p.size / 8, 0)
    else if p.size == 0 then Ok(0, 0)
    else ReadCode(b)
  }

  lemma {:induction false} ReadCodeExact(b: Str, x: nat, n: nat)
    ensures ReadCode(b) == Ok(x, n) <==> x <= MAX_INT32 && ToUvarint(x) <= b && n == |ToUvarint(x)|
    ensures ReadCode(b).Ok? ==> ReadCode(b).n <= |b|
  {
    AcceptsCanonical(b, x);
    if FromBytes(b).Ok? { AcceptsCanonical(b, FromBytes(b).value); }
  }

  function ReadComponent(t: Tables, b: Str): Read {
    match ReadCode(b)
    case Ok(code, n) => (
      ReadCodeExact(b, code, n);
      match WithCode(t, code)
      case None => Broken
      case Some(p) =>
        if p.size == 0 then Found(n, Component(p, []))
        else match SizeFor(p, b[n..])
          case Ok(size, m) =>
            ReadCodeExact(b[n..], size, m);
            if |b| - n - m < size then Broken
            else Found(n + m + size, Component(p, b[n + m..n + m + size]))
          case _ => Broken
    )
    case _ => Broken
  }

  lemma {:induction false} ReadBytes(t: Tables, b: Str)
    requires WellCoded(t) && ReadComponent(t, b).Found?
    ensures var r := ReadComponent(t, b); Fits(t, r.c) && Bytes(r.c) <= b && r.n == |Bytes(r.c)|
  {
    hide ToUvarint, FromBytes;
    var code := ReadCode(b);
    ReadCodeExact(b, code.value, code.n);
    var p := WithCode(t, code.value).value;
    assert p.code == code.value && Coded(p);
    if p.size < 0 {
      var size := ReadCode(b[code.n..]);
      ReadCodeExact(b[code.n..], size.value, size.n);
    }
  }

  lemma {:induction false} ReadWritten(t: Tables, c: Component, more: Str)
    requires Fits(t, c)
    ensures ReadComponent(t, Bytes(c) + more) == Found(|Bytes(c)|, c)
  {
    hide ToUvarint, FromBytes;
    var b, n := Bytes(c) + more, |c.p.vcode|;
    ReadCodeExact(b, c.p.code, n);
    var rest := LengthOf(c) + c.value + more;
    assert b == c.p.vcode + rest && b[n..] == rest;
    if c.p.size < 0 {
      ReadCodeExact(rest, |c.value|, |LengthOf(c)|);
      assert rest == LengthOf(c) + (c.value + more);
    }
  }

  /** readComponent accepts exactly the bytes of a fitting component, whatever follows. */
  lemma {:induction false} ReadExact(t: Tables, b: Str, n: nat, c: Component)
    requires WellCoded(t)
    ensures ReadComponent(t, b) == Found(n, c) <==> Fits(t, c) && Bytes(c) <= b && n == |Bytes(c)|
  {
    hide ReadComponent, Bytes, Fits, WellCoded;
    if ReadComponent(t, b) == Found(n, c) { ReadBytes(t, b); }
    if Fits(t, c) && Bytes(c) <= b {
      assert b == Bytes(c) + b[|Bytes(c)|..];
      ReadWritten(t, c, b[|Bytes(c)|..]);
    }
  }
}
