/** Parsing, validating and printing multiaddrs (multiformats/multiaddr: codec.go, component.go). */
module MultiaddrText {
  import opened Words
  import opened Varint
  import opened Keys
  import opened Components
  import opened Multiaddr

  // --- validateBytes -----------------------------------------------------------------------------

  /** The argument passes the transcoder, and a path protocol comes last. */
  predicate Accepted(c: Component, last: bool) {
    c.p.size != 0 ==> (c.p.path ==> last) && c.p.transcoder.Some? && c.p.transcoder.value.validates(c.value)
  }

  predicate AllAccepted(cs: seq<Component>) {
    forall i :: 0 <= i < |cs| ==> Accepted(cs[i], i == |cs| - 1)
  }

  predicate Validates(t: Tables, b: Str) {
    b != [] && Parts(t, b).Some? && AllAccepted(Parts(t, b).value)
  }

  predicate ValidRest(t: Tables, b: Str) {
    b == [] ||
    match ReadComponent(t, b)
    case Broken => false
    case Found(n, c) =>
      ReadProgress(t, b);
      Accepted(c, n == |b|) && ValidRest(t, b[n..])
  }

  lemma {:induction false} ValidRestIs(t: Tables, b: Str)
    ensures ValidRest(t, b) <==> Parts(t, b).Some? && AllAccepted(Parts(t, b).value)
    decreases |b|
  {
    hide ReadComponent, Accepted;
    if b != [] && ReadComponent(t, b).Found? {
      var r := ReadComponent(t, b);
      ReadProgress(t, b);
      var rest := b[r.n..];
      ValidRestIs(t, rest);
      if Parts(t, rest).Some? {
        var cs := Parts(t, rest).value;
        var all := [r.c] + cs;
        assert rest == [] <==> cs == [];
        assert Parts(t, b) == Some(all);
        if AllAccepted(all) {
          assert Accepted(all[0], 0 == |all| - 1);
          forall i | 0 <= i < |cs| ensures Accepted(cs[i], i == |cs| - 1) { assert cs[i] == all[i + 1]; }
        }
      }
    }
  }

  /** One turn of the loop: the bytes behind the next component, if that is in order. */
  method ValidateNext(t: Tables, b: Str) returns (rest: Option<Str>)
    requires Consistent(t) && |b| > 0
    ensures match ReadComponent(t, b)
            case Broken => rest == None
            case Found(n, c) => n <= |b| && rest == if Accepted(c, n == |b|) then Some(b[n..]) else None
  {
    hide FromBytes;
    var code := ReadCode(b);
    if !code.Ok? { return None; }
    ReadCodeExact(b, code.value, code.n);
    var p := WithCode(t, code.value);
    if p.None? { return None; }
    var left := b[code.n..];
    if p.value.size == 0 { return Some(left); }
    var size := SizeFor(p.value, left);
    if !size.Ok? { return None; }
    ReadCodeExact(left, size.value, size.n);
    left := left[size.n..];
    if |left| < size.value { return None; }
    ghost var start := code.n + size.n;
    assert left == b[start..] && b[start..start + size.value] == left[..size.value];
    if p.value.path && |left| != size.value { return None; }
    if !p.value.transcoder.value.validates(left[..size.value]) { return None; }
    return Some(left[size.value..]);
  }

  method ValidateBytes(t: Tables, b: Str) returns (ok: bool)
    requires Consistent(t)
    ensures ok <==> Validates(t, b)
  {
    ValidRestIs(t, b);
    hide Parts, AllAccepted, ReadComponent, Accepted, Consistent;
    if |b| == 0 { return false; }
    var rest := b;
    while |rest| > 0
      invariant ValidRest(t, rest) <==> ValidRest(t, b)
      decreases |rest|
    {
      var next := ValidateNext(t, rest);
      if next.None? { return false; }
      ReadProgress(t, rest);
      rest := next.value;
    }
    return true;
  }

  // --- bytesToString -----------------------------------------------------------------------------

  /** Value; None where the source panics. */
  function Text(c: Component): Option<Str> {
    match c.p.transcoder
    case None => Some([])
    case Some(tr) => tr.toText(c.value)
  }

  /** writeTo */
  function Written(c: Component, text: Str): Str {
    [SLASH] + c.p.name +
    (if text == [] then [] else (if c.p.path && text[0] == SLASH then [] else [SLASH]) + text)
  }

  function Printed(cs: seq<Component>): Option<Str> {
    if cs == [] then Some([])
    else match Text(cs[0])
      case None => None
      case Some(text) =>
        match Printed(cs[1..])
        case None => None
        case Some(more) => Some(Written(cs[0], text) + more)
  }

  function BytesToText(t: Tables, b: Str): Option<Str> {
    if b == [] || Parts(t, b).None? then None else Printed(Parts(t, b).value)
  }

  lemma ContinueStart(whole: Option<Str>)
    ensures Continues(whole, [], whole)
  {
    if whole.Some? { assert [] + whole.value == whole.value; }
  }

  function PrintRest(t: Tables, b: Str): Option<Str> {
    if Parts(t, b).None? then None else Printed(Parts(t, b).value)
  }

  lemma {:induction false} PrintNext(t: Tables, b: Str)
    requires b != []
    ensures match ReadComponent(t, b)
            case Broken => PrintRest(t, b) == None
            case Found(n, c) =>
              && 0 < n <= |b|
              && if Text(c).None? then PrintRest(t, b) == None
                 else Continues(PrintRest(t, b), Written(c, Text(c).value), PrintRest(t, b[n..]))
  {
    hide ReadComponent, Text, Written;
    if ReadComponent(t, b).Found? {
      var r := ReadComponent(t, b);
      ReadProgress(t, b);
      if Parts(t, b[r.n..]).Some? {
        var cs := Parts(t, b[r.n..]).value;
        assert ([r.c] + cs)[1..] == cs;
      }
    }
  }

  method BytesToString(t: Tables, b: Str) returns (r: Option<Str>)
    ensures r == BytesToText(t, b)
  {
    if |b| == 0 { return None; }
    hide ReadComponent, Parts, Text, Written, Printed;
    var buf: Str := [];
    var rest := b;
    ContinueStart(PrintRest(t, b));
    while |rest| > 0
      invariant Continues(PrintRest(t, b), buf, PrintRest(t, rest))
      decreases |rest|
    {
      PrintNext(t, rest);
      var read := ReadComponent(t, rest);
      if read.Broken? { return None; }
      var text := Text(read.c);
      if text.None? { return None; }
      ghost var w := Written(read.c, text.value);
      ghost var more := PrintRest(t, rest[read.n..]);
      assert more.Some? ==> buf + (w + more.value) == (buf + w) + more.value;
      buf := buf + Written(read.c, text.value);
      rest := rest[read.n..];
    }
    NothingPrinted(t);
    assert buf + [] == buf;
    return Some(buf);
  }

  lemma NothingPrinted(t: Tables)
    ensures PrintRest(t, []) == Some([])
  {
  }

  // --- stringToBytes -----------------------------------------------------------------------------

  /** strings.TrimRight(s, "/") */
  function TrimSlashes(s: Str): Str {
    if s == [] || s[|s| - 1] != SLASH then s else TrimSlashes(s[..|s| - 1])
  }

  /** The parts of a string between slashes, as components. */
  function Parsed(t: Tables, sp: seq<Str>): Option<seq<Component>> {
    if sp == [] then Some([])
    else match WithName(t, sp[0])
      case None => None
      case Some(p) =>
        if p.size == 0 then Follow(Component(p, []), Parsed(t, sp[1..]))
        else if |sp| < 2 || p.transcoder.None? then None
        else
          match p.transcoder.value.toBytes(if p.path then Keys.Join(sp[1..]) else sp[1])
          case None => None
          case Some(a) => Follow(Component(p, a), if p.path then Some([]) else Parsed(t, sp[2..]))
  }

  function Follow(c: Component, rest: Option<seq<Component>>): Option<seq<Component>> {
    if rest.None? then None else Some([c] + rest.value)
  }

  /** What stringToBytes makes of a string, before it is flattened. */
  function ParsedText(t: Tables, s: Str): Option<seq<Component>> {
    var sp := Keys.Split(TrimSlashes(s));
    if sp[0] != [] || |sp| == 1 then None else Parsed(t, sp[1..])
  }

  function TextToBytes(t: Tables, s: Str): Option<Str> {
    match ParsedText(t, s)
    case None => None
    case Some(cs) => Some(AllBytes(cs))
  }

  function ParsedBytes(t: Tables, sp: seq<Str>): Option<Str> {
    match Parsed(t, sp)
    case None => None
    case Some(cs) => Some(AllBytes(cs))
  }

  lemma {:induction false} ParsedNext(t: Tables, sp: seq<Str>, n: nat, c: Component)
    requires n <= |sp| && Parsed(t, sp) == Follow(c, Parsed(t, sp[n..]))
    ensures Continues(ParsedBytes(t, sp), Bytes(c), ParsedBytes(t, sp[n..]))
  {
    hide Bytes, AllBytes;
    if Parsed(t, sp[n..]).Some? { BytesCons(c, Parsed(t, sp[n..]).value); }
  }

  lemma {:induction false} ContinueMore(whole: Option<Str>, done: Str, step: Str, mid: Option<Str>, rest: Option<Str>)
    requires Continues(whole, done, mid) && Continues(mid, step, rest)
    ensures Continues(whole, done + step, rest)
  {
    if rest.Some? { assert done + (step + rest.value) == (done + step) + rest.value; }
  }

  /** Join of the parts, which come from Split, puts the slash in front as the source does. */
  method StringToBytes(t: Tables, s: Str) returns (r: Option<Str>)
    requires Consistent(t)
    ensures r == TextToBytes(t, s)
  {
    hide AllBytes, Bytes, Keys.Join, Keys.Split, ToUvarint;
    var sp := Keys.Split(TrimSlashes(s));
    if sp[0] != [] { return None; }
    sp := sp[1..];
    if |sp| == 0 { return None; }
    ghost var all := sp;
    var b: Str := [];
    NothingParsed(t);
    ContinueStart(ParsedBytes(t, all));
    while |sp| > 0
      invariant Continues(ParsedBytes(t, all), b, ParsedBytes(t, sp))
      decreases |sp|
    {
      var p := WithName(t, sp[0]);
      if p.None? { return None; }
      ghost var rest := sp;
      if p.value.size == 0 {
        BareBytes(p.value);
        ParsedNext(t, sp, 1, Component(p.value, []));
        ContinueMore(ParsedBytes(t, all), b, p.value.vcode, ParsedBytes(t, sp), ParsedBytes(t, sp[1..]));
        b := b + p.value.vcode;
        sp := sp[1..];
        continue;
      }
      if |sp| < 2 { return None; }
      var a := p.value.transcoder.value.toBytes(if p.value.path then Keys.Join(sp[1..]) else sp[1]);
      if a.None? { return None; }
      var n := if p.value.path then |sp| else 2;
      var c := Component(p.value, a.value);
      assert p.value.path ==> sp[n..] == [];
      ParsedNext(t, sp, n, c);
      ContinueMore(ParsedBytes(t, all), b, Bytes(c), ParsedBytes(t, sp), ParsedBytes(t, sp[n..]));
      b := b + Bytes(c);
      sp := sp[n..];
    }
    assert b + [] == b;
    return Some(b);
  }

  lemma BareBytes(p: Protocol)
    requires p.size == 0
    ensures Bytes(Component(p, [])) == p.vcode
  {
  }

  lemma NothingParsed(t: Tables)
    ensures ParsedBytes(t, []) == Some([])
  {
  }

  // --- Lawful transcoders ------------------------------------------------------------------------

  /** An argument that can stand in a string: a path from slash to name, or anything without slashes. */
  predicate Sayable(p: Protocol, x: Str) {
    if p.path then |x| >= 2 && x[0] == SLASH && x[|x| - 1] != SLASH else SLASH !in x
  }

  /** What the transcoders promise: parsed arguments validate, and valid ones print and parse back. */
  ghost predicate LawfulCoder(p: Protocol, tr: Transcoder) {
    && (forall x :: Sayable(p, x) && tr.toBytes(x).Some? ==>
          tr.validates(tr.toBytes(x).value) && (p.size > 0 ==> |tr.toBytes(x).value| == p.size / 8))
    && (forall v :: tr.validates(v) && Sized(p, v) ==>
          && tr.toText(v).Some? && tr.toText(v).value != [] && Sayable(p, tr.toText(v).value)
          && tr.toBytes(tr.toText(v).value) == Some(v))
  }

  ghost predicate LawfulProtocol(p: Protocol) {
    && p.name != [] && SLASH !in p.name
    && match p.transcoder
       case None => p.size == 0
       case Some(tr) => p.size != 0 && LawfulCoder(p, tr)
  }

  ghost predicate Lawful(t: Tables) {
    WellCoded(t) && forall c <- t.byCode :: LawfulProtocol(t.byCode[c])
  }

  /** TranscoderUnix: the path itself, checked only when it comes as bytes. */
  function UnixCoder(): Transcoder {
    Transcoder(x => Some(x), v => Some(v), v => |v| >= 2 && v[0] == SLASH && v[|v| - 1] != SLASH)
  }

  /** TranscoderDns: the name itself, not empty and without slashes. */
  function DnsCoder(): Transcoder {
    Transcoder(x => if x == [] || SLASH in x then None else Some(x), v => Some(v), v => v != [] && SLASH !in v)
  }

  /** Although it parses without checks, the paths that stringToBytes hands to it all validate. */
  lemma UnixLawful(p: Protocol)
    requires p.path && p.size < 0
    ensures LawfulCoder(p, UnixCoder())
  {
  }

  lemma DnsLawful(p: Protocol)
    requires !p.path && p.size < 0
    ensures LawfulCoder(p, DnsCoder())
  {
  }

  // --- What is parsed is valid -------------------------------------------------------------------

  /** Length prefixes that ReadVarintCode takes. */
  predicate Short(c: Component) {
    c.p.size < 0 ==> |c.value| <= MAX_INT32
  }

  /** What parsing gives: fitting but for the length, and accepted. */
  ghost predicate FromText(t: Tables, cs: seq<Component>) {
    forall i :: 0 <= i < |cs| ==>
      && WithCode(t, cs[i].p.code) == Some(cs[i].p) && Coded(cs[i].p)
      && (Short(cs[i]) ==> Sized(cs[i].p, cs[i].value))
      && Accepted(cs[i], i == |cs| - 1)
  }

  predicate TextParts(sp: seq<Str>) {
    NoSlashes(sp) && (sp != [] ==> sp[|sp| - 1] != [])
  }

  lemma {:induction false} JoinSayable(sp: seq<Str>)
    requires sp != [] && TextParts(sp)
    ensures var x := Keys.Join(sp); |x| >= 2 && x[0] == SLASH && x[|x| - 1] != SLASH
  {
    var last := sp[|sp| - 1];
    if |sp| == 1 {
      assert Keys.Join(sp) == [SLASH] + last + [] == [SLASH] + last;
      assert last[|last| - 1] in last;
    } else {
      JoinSayable(sp[1..]);
    }
  }

  lemma {:induction false} NamedIsCoded(t: Tables, name: Str)
    requires Lawful(t) && WithName(t, name).Some?
    ensures var p := WithName(t, name).value;
            WithCode(t, p.code) == Some(p) && Coded(p) && LawfulProtocol(p)
  {
  }

  lemma {:induction false} FromTextNext(t: Tables, c: Component, rest: seq<Component>)
    requires FromText(t, rest) && WithCode(t, c.p.code) == Some(c.p) && Coded(c.p) && (Short(c) ==> Sized(c.p, c.value))
    requires Accepted(c, rest == [])
    ensures FromText(t, [c] + rest)
  {
    var cs := [c] + rest;
    forall i | 0 <= i < |cs| ensures Accepted(cs[i], i == |cs| - 1) {
      if i > 0 { assert cs[i] == rest[i - 1]; }
    }
  }

  lemma {:induction false} ParsedFromText(t: Tables, sp: seq<Str>)
    requires Lawful(t) && TextParts(sp) && Parsed(t, sp).Some?
    ensures FromText(t, Parsed(t, sp).value)
    ensures sp != [] ==> Parsed(t, sp).value != []
  {
    if sp != [] {
      NamedIsCoded(t, sp[0]);
      hide Lawful, WithName, WithCode, Coded, FromText, Keys.Join;
      var p := WithName(t, sp[0]).value;
      if p.size == 0 {
        ParsedFromText(t, sp[1..]);
        FromTextNext(t, Component(p, []), Parsed(t, sp[1..]).value);
      } else if p.path {
        JoinSayable(sp[1..]);
        NothingFromText(t);
        FromTextNext(t, Component(p, p.transcoder.value.toBytes(Keys.Join(sp[1..])).value), []);
      } else {
        ParsedFromText(t, sp[2..]);
        assert Sayable(p, sp[1]);
        FromTextNext(t, Component(p, p.transcoder.value.toBytes(sp[1]).value), Parsed(t, sp[2..]).value);
      }
    }
  }

  lemma NothingFromText(t: Tables)
    ensures FromText(t, [])
  {
  }

  lemma {:induction false} LastPart(s: Str)
    requires s != [] && s[|s| - 1] != SLASH
    ensures var sp := Keys.Split(s); sp[|sp| - 1] != []
  {
    if |s| > 1 { LastPart(s[1..]); }
  }

  lemma {:induction false} Trimmed(s: Str)
    ensures var x := TrimSlashes(s); x == [] || x[|x| - 1] != SLASH
    ensures s != [] && s[|s| - 1] != SLASH ==> TrimSlashes(s) == s
  {
    if s != [] && s[|s| - 1] == SLASH { Trimmed(s[..|s| - 1]); }
  }

  lemma {:induction false} SplitIsText(s: Str)
    ensures var sp := Keys.Split(TrimSlashes(s)); |sp| > 1 ==> TextParts(sp[1..])
  {
    var x := TrimSlashes(s);
    Trimmed(s);
    SplitParts(x);
    if x != [] { LastPart(x); }
  }

  lemma {:induction false} ReadTooLong(t: Tables, c: Component, more: Str)
    requires WithCode(t, c.p.code) == Some(c.p) && Coded(c.p) && !Short(c)
    ensures ReadComponent(t, Bytes(c) + more) == Broken
  {
    hide ToUvarint, FromBytes;
    var b, n := Bytes(c) + more, |c.p.vcode|;
    ReadCodeExact(b, c.p.code, n);
    var rest := LengthOf(c) + (c.value + more);
    assert b == c.p.vcode + rest && b[n..] == rest;
    LongCode(rest, |c.value|);
  }

  lemma {:induction false} LongCode(b: Str, x: nat)
    requires x > MAX_INT32 && ToUvarint(x) <= b
    ensures !ReadCode(b).Ok?
  {
    hide ToUvarint;
    MinimalFront(b, x);
    if ReadCode(b).Ok? {
      ReadCodeExact(b, ReadCode(b).value, ReadCode(b).n);
      MinimalFront(b, ReadCode(b).value);
    }
  }

  lemma {:induction false} TooLongBreaks(t: Tables, cs: seq<Component>, k: nat)
    requires WellCoded(t) && FromText(t, cs) && k < |cs| && !Short(cs[k])
    ensures Parts(t, AllBytes(cs)) == None
  {
    var b, more := AllBytes(cs), AllBytes(cs[1..]);
    assert b == Bytes(cs[0]) + more;
    if !Short(cs[0]) {
      ReadTooLong(t, cs[0], more);
      assert |Bytes(cs[0])| > 0;
    } else {
      assert Fits(t, cs[0]);
      BytesNotEmpty(t, cs[0]);
      ReadWritten(t, cs[0], more);
      hide ReadComponent, Bytes, AllBytes, WellCoded, Fits;
      assert cs[1..][k - 1] == cs[k];
      FromTextTail(t, cs);
      TooLongBreaks(t, cs[1..], k - 1);
      assert b[|Bytes(cs[0])|..] == more;
    }
  }

  lemma {:induction false} FromTextTail(t: Tables, cs: seq<Component>)
    requires FromText(t, cs) && cs != []
    ensures FromText(t, cs[1..])
  {
    var rest := cs[1..];
    forall i | 0 <= i < |rest| ensures Accepted(rest[i], i == |rest| - 1) { assert rest[i] == cs[i + 1]; }
  }

  /** What stringToBytes produces passes validateBytes exactly if no argument outgrows its length prefix. */
  lemma {:induction false} ParsedIsValid(t: Tables, s: Str)
    requires Lawful(t) && TextToBytes(t, s).Some?
    ensures Validates(t, TextToBytes(t, s).value) <==>
            forall i :: 0 <= i < |ParsedText(t, s).value| ==> Short(ParsedText(t, s).value[i])
  {
    SplitIsText(s);
    var sp := Keys.Split(TrimSlashes(s));
    var cs := ParsedText(t, s).value;
    ParsedFromText(t, sp[1..]);
    if k :| 0 <= k < |cs| && !Short(cs[k]) {
      TooLongBreaks(t, cs, k);
    } else {
      forall i | 0 <= i < |cs| ensures Fits(t, cs[i]) && Accepted(cs[i], i == |cs| - 1) {}
      assert WellCoded(t);
      hide Fits, Accepted, Lawful, Parsed, Keys.Split;
      PartsOfBytes(t, cs);
      PartsNotEmpty(t, cs, |cs|);
      assert cs[..|cs|] == cs;
    }
  }

  /** Length-prefixed arguments are as long as their texts, as with unix and dns. */
  ghost predicate KeepsLengths(t: Tables) {
    forall c <- t.byCode :: t.byCode[c].size < 0 && t.byCode[c].transcoder.Some? ==>
      forall x :: var v := t.byCode[c].transcoder.value.toBytes(x); v.Some? ==> |v.value| == |x|
  }

  /** Read off the string: no argument that takes a length prefix has more than 2^31 - 1 bytes. */
  predicate ShortParts(t: Tables, sp: seq<Str>) {
    sp != [] && WithName(t, sp[0]).Some? ==>
      var p := WithName(t, sp[0]).value;
      if p.size == 0 then ShortParts(t, sp[1..])
      else |sp| >= 2 ==>
        && (p.size < 0 ==> |if p.path then Keys.Join(sp[1..]) else sp[1]| <= MAX_INT32)
        && (p.path || ShortParts(t, sp[2..]))
  }

  predicate AllShort(cs: seq<Component>) {
    forall i :: 0 <= i < |cs| ==> Short(cs[i])
  }

  lemma AllShortCons(c: Component, cs: seq<Component>)
    ensures AllShort([c] + cs) <==> Short(c) && AllShort(cs)
  {
    if AllShort([c] + cs) {
      assert Short(([c] + cs)[0]);
      forall i | 0 <= i < |cs| ensures Short(cs[i]) { assert cs[i] == ([c] + cs)[i + 1]; }
    }
  }

  lemma {:induction false} ShortIfParts(t: Tables, sp: seq<Str>)
    requires Lawful(t) && KeepsLengths(t) && Parsed(t, sp).Some?
    ensures AllShort(Parsed(t, sp).value) <==> ShortParts(t, sp)
  {
    if sp != [] {
      NamedIsCoded(t, sp[0]);
      var p := WithName(t, sp[0]).value;
      assert p.code in t.byCode && t.byCode[p.code] == p;
      hide Lawful, LawfulProtocol, Coded, Keys.Join, Short;
      if p.size == 0 {
        ShortIfParts(t, sp[1..]);
        AllShortCons(Component(p, []), Parsed(t, sp[1..]).value);
        assert Short(Component(p, [])) by { BareIsShort(p); }
      } else {
        var x := if p.path then Keys.Join(sp[1..]) else sp[1];
        var c := Component(p, p.transcoder.value.toBytes(x).value);
        assert Short(c) <==> (p.size < 0 ==> |x| <= MAX_INT32) by { SameLength(c, x); }
        if !p.path { ShortIfParts(t, sp[2..]); }
        AllShortCons(c, if p.path then [] else Parsed(t, sp[2..]).value);
      }
    }
  }

  lemma BareIsShort(p: Protocol)
    requires p.size == 0
    ensures Short(Component(p, []))
  {
  }

  lemma SameLength(c: Component, x: Str)
    requires c.p.size < 0 ==> |c.value| == |x|
    ensures Short(c) <==> (c.p.size < 0 ==> |x| <= MAX_INT32)
  {
  }

  /** With such transcoders the condition is one on the string. */
  lemma {:induction false} ParsedIsValidIf(t: Tables, s: Str)
    requires Lawful(t) && KeepsLengths(t) && TextToBytes(t, s).Some?
    ensures Validates(t, TextToBytes(t, s).value) <==> ShortParts(t, Keys.Split(TrimSlashes(s))[1..])
  {
    ParsedIsValid(t, s);
    ShortIfParts(t, Keys.Split(TrimSlashes(s))[1..]);
  }

  // --- A string that parses and does not validate ------------------------------------------------

  const UNIX: Str := ['u' as int, 'n' as int, 'i' as int, 'x' as int]
  const P_UNIX: nat := 400

  function Unix(): Protocol {
    Protocol(UNIX, P_UNIX, ToUvarint(P_UNIX), -1, true, Some(UnixCoder()))
  }

  function UnixTables(): Tables {
    Tables(map[UNIX := Unix()], map[P_UNIX := Unix()])
  }

  function As(n: nat): (a: Str)
    ensures |a| == n && forall i :: 0 <= i < n ==> a[i] == 'a' as int
  {
    seq(n, _ => 'a' as int)
  }

  /** /unix/aa...a, with n letters after the last slash. */
  function UnixText(n: nat): Str {
    [SLASH] + UNIX + [SLASH] + As(n)
  }

  lemma {:induction false} UnixTablesLawful()
    ensures Lawful(UnixTables()) && KeepsLengths(UnixTables())
  {
    hide ToUvarint;
    UnixLawful(Unix());
  }

  lemma {:induction false} UnixSplit(n: nat)
    requires n > 0
    ensures Keys.Split(TrimSlashes(UnixText(n))) == [[], UNIX, As(n)]
    ensures Keys.Join([As(n)]) == [SLASH] + As(n)
  {
    var s, a := UnixText(n), As(n);
    var cs: seq<Str> := [UNIX, a];
    assert s[|s| - 1] == a[n - 1];
    Trimmed(s);
    assert cs[1..] == [a] && [a][1..] == [];
    assert Keys.Join([a]) == [SLASH] + a + Keys.Join([]);
    assert Keys.Join(cs) == [SLASH] + UNIX + Keys.Join([a]) == s;
    SplitJoinParts(cs);
  }

  /** Every such string parses; it validates exactly if the path, its slash included, has less than 2^31 bytes. */
  lemma {:induction false} UnixPathTooLong(n: nat)
    requires n > 0
    ensures TextToBytes(UnixTables(), UnixText(n)).Some?
    ensures Validates(UnixTables(), TextToBytes(UnixTables(), UnixText(n)).value) <==> n < MAX_INT32
  {
    var t, s, sp := UnixTables(), UnixText(n), [UNIX, As(n)];
    UnixSplit(n);
    UnixTablesLawful();
    hide Validates, AllBytes, Keys.Split, Keys.Join, TrimSlashes, Lawful, KeepsLengths, ToUvarint;
    assert Keys.Split(TrimSlashes(s))[1..] == sp && sp[1..] == [As(n)];
    assert WithName(t, UNIX) == Some(Unix());
    assert Parsed(t, sp).Some?;
    ParsedIsValidIf(t, s);
  }

  // --- What is valid prints and parses back ------------------------------------------------------

  /** The parts between slashes that a component is printed as. */
  function Said(c: Component): seq<Str>
    requires Text(c).Some?
  {
    var v := Text(c).value;
    [c.p.name] + (if v == [] then [] else if c.p.path then Keys.Split(v[1..]) else [v])
  }

  ghost predicate Speaks(t: Tables, c: Component, last: bool) {
    && WithName(t, c.p.name) == Some(c.p)
    && LawfulProtocol(c.p)
    && Sized(c.p, c.value)
    && Accepted(c, last)
  }

  ghost predicate AllSpeak(t: Tables, cs: seq<Component>) {
    forall i :: 0 <= i < |cs| ==> Speaks(t, cs[i], i == |cs| - 1)
  }

  /** The argument as text. */
  lemma {:induction false} TextOf(t: Tables, c: Component, last: bool)
    requires Speaks(t, c, last)
    ensures Text(c).Some?
    ensures c.p.size == 0 ==> Text(c).value == [] && c.value == []
    ensures c.p.size != 0 ==>
              && Text(c).value != [] && Sayable(c.p, Text(c).value)
              && c.p.transcoder.Some? && c.p.transcoder.value.toBytes(Text(c).value) == Some(c.value)
  {
  }

  lemma JoinOne(x: Str)
    ensures Keys.Join([x]) == [SLASH] + x
  {
    var one: seq<Str> := [x];
    assert one[1..] == [];
    assert Keys.Join(one) == [SLASH] + x + [];
  }

  lemma {:induction false} JoinPath(name: Str, v: Str)
    requires v != [] && v[0] == SLASH
    ensures Keys.Join([name] + Keys.Split(v[1..])) == [SLASH] + name + v
  {
    hide Keys.Join, Keys.Split;
    JoinAppend([name], Keys.Split(v[1..]));
    JoinOne(name);
    JoinSplit(v[1..]);
    assert [SLASH] + v[1..] == v;
  }

  lemma {:induction false} PathParts(name: Str, v: Str)
    requires SLASH !in name && |v| >= 2 && v[0] == SLASH && v[|v| - 1] != SLASH
    ensures TextParts([name] + Keys.Split(v[1..]))
  {
    SplitParts(v[1..]);
    LastPart(v[1..]);
    hide Keys.Split;
    var sp, all := Keys.Split(v[1..]), [name] + Keys.Split(v[1..]);
    assert all[|all| - 1] == sp[|sp| - 1];
    forall i | 0 <= i < |all| ensures SLASH !in all[i] {
      if i > 0 { assert all[i] == sp[i - 1]; }
    }
  }

  lemma {:induction false} WrittenIsJoin(t: Tables, c: Component, last: bool)
    requires Speaks(t, c, last) && Text(c).Some?
    ensures Written(c, Text(c).value) == Keys.Join(Said(c))
    ensures TextParts(Said(c))
  {
    TextOf(t, c, last);
    hide Keys.Join, Keys.Split;
    var v, name := Text(c).value, c.p.name;
    JoinOne(name);
    if v != [] {
      if c.p.path {
        JoinPath(name, v);
        PathParts(name, v);
      } else {
        JoinAppend([name], [v]);
        JoinOne(v);
        assert [name] + [v] == [name, v];
      }
    }
  }

  function AllSaid(cs: seq<Component>): seq<Str>
    requires forall i :: 0 <= i < |cs| ==> Text(cs[i]).Some?
  {
    if cs == [] then [] else Said(cs[0]) + AllSaid(cs[1..])
  }

  lemma {:induction false} AllTexts(t: Tables, cs: seq<Component>)
    requires AllSpeak(t, cs)
    ensures forall i :: 0 <= i < |cs| ==> Text(cs[i]).Some?
  {
    forall i | 0 <= i < |cs| ensures Text(cs[i]).Some? { TextOf(t, cs[i], i == |cs| - 1); }
  }

  lemma {:induction false} SpeakTail(t: Tables, cs: seq<Component>)
    requires AllSpeak(t, cs) && cs != []
    ensures Speaks(t, cs[0], |cs| == 1) && AllSpeak(t, cs[1..])
  {
    hide Speaks;
    assert Speaks(t, cs[0], 0 == |cs| - 1);
    var rest := cs[1..];
    forall i | 0 <= i < |rest| ensures Speaks(t, rest[i], i == |rest| - 1) { assert rest[i] == cs[i + 1]; }
  }

  lemma {:induction false} PrintedIsJoin(t: Tables, cs: seq<Component>)
    requires AllSpeak(t, cs) && forall i :: 0 <= i < |cs| ==> Text(cs[i]).Some?
    ensures Printed(cs) == Some(Keys.Join(AllSaid(cs)))
    ensures TextParts(AllSaid(cs)) && (cs != [] ==> AllSaid(cs) != [])
  {
    if cs == [] {
      assert TextParts([]);
    } else {
      SpeakTail(t, cs);
      hide AllSpeak, Speaks, Text, Said, Written, Keys.Join, TextParts;
      WrittenIsJoin(t, cs[0], |cs| == 1);
      PrintedIsJoin(t, cs[1..]);
      JoinAppend(Said(cs[0]), AllSaid(cs[1..]));
      SaidNotEmpty(cs[0]);
      TextPartsAppend(Said(cs[0]), AllSaid(cs[1..]));
    }
  }

  lemma {:induction false} TextPartsAppend(a: seq<Str>, b: seq<Str>)
    requires TextParts(a) && TextParts(b)
    ensures TextParts(a + b)
  {
    var all := a + b;
    assert b != [] ==> all[|all| - 1] == b[|b| - 1];
    assert b == [] ==> all == a;
  }

  lemma SaidNotEmpty(c: Component)
    requires Text(c).Some?
    ensures Said(c) != []
  {
  }

  lemma {:induction false} SaidIsParsed(t: Tables, c: Component, rest: seq<Str>, last: bool)
    requires Speaks(t, c, last) && Text(c).Some? && (last ==> rest == [])
    ensures Parsed(t, Said(c) + rest) == Follow(c, if last && c.p.path then Some([]) else Parsed(t, rest))
  {
    TextOf(t, c, last);
    var v, sp := Text(c).value, Said(c) + rest;
    assert sp[0] == c.p.name;
    if v == [] {
      assert sp[1..] == rest;
    } else if c.p.path {
      JoinSplit(v[1..]);
      assert sp[1..] == Keys.Split(v[1..]);
      assert [SLASH] + v[1..] == v;
    } else {
      assert sp[1] == v && sp[2..] == rest;
    }
  }

  lemma {:induction false} SaidParses(t: Tables, cs: seq<Component>)
    requires AllSpeak(t, cs) && forall i :: 0 <= i < |cs| ==> Text(cs[i]).Some?
    ensures Parsed(t, AllSaid(cs)) == Some(cs)
  {
    if cs != [] {
      SpeakTail(t, cs);
      hide AllSpeak, Speaks, Text, Said;
      SaidParses(t, cs[1..]);
      SaidIsParsed(t, cs[0], AllSaid(cs[1..]), |cs| == 1);
      assert [cs[0]] + cs[1..] == cs;
    }
  }

  lemma {:induction false} ValidSpeaks(t: Tables, b: Str)
    requires Lawful(t) && Validates(t, b)
    ensures AllSpeak(t, Parts(t, b).value) && AllBytes(Parts(t, b).value) == b && Parts(t, b).value != []
  {
    var cs := Parts(t, b).value;
    BytesOfParts(t, b);
    hide Parts, AllBytes, Bytes;
    forall i | 0 <= i < |cs| ensures Speaks(t, cs[i], i == |cs| - 1) {
      assert Fits(t, cs[i]) && Accepted(cs[i], i == |cs| - 1);
      assert LawfulProtocol(t.byCode[cs[i].p.code]);
    }
    NothingLeft(t);
  }

  /** Valid bytes print, and the string parses to the same bytes. */
  lemma {:induction false} PrintedParsesBack(t: Tables, b: Str)
    requires Lawful(t) && Validates(t, b)
    ensures BytesToText(t, b).Some? && TextToBytes(t, BytesToText(t, b).value) == Some(b)
  {
    ValidSpeaks(t, b);
    var cs := Parts(t, b).value;
    AllTexts(t, cs);
    hide Lawful, AllSpeak, Text, Parts, Keys.Join, Keys.Split, Parsed, AllBytes;
    PrintedIsJoin(t, cs);
    SaidParses(t, cs);
    var sp := AllSaid(cs);
    var s := Keys.Join(sp);
    JoinSayable(sp);
    Trimmed(s);
    SplitJoinParts(sp);
    assert ([[]] + sp)[1..] == sp;
  }
}
