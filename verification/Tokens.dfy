/** Length-prefixed tokens (multiformats/multistream/multistream.go). */
module Tokens {
  import opened Words
  import opened Varint

  type Name = seq<Byte>

  const NEWLINE: Byte := 10
  const MAX_TOKEN: nat := 1024

  /** Names that fit in a token. */
  predicate Sendable(name: Name) {
    |name| < MAX_TOKEN
  }

  function Token(name: Name): seq<Byte> {
    ToUvarint(|name| + 1) + name + [NEWLINE]
  }

  lemma TokenNotEmpty(name: Name)
    ensures |Token(name)| > 0
  {
  }

  /** More: a longer input could still begin with a token. */
  datatype Parsed = Whole(name: Name, rest: seq<Byte>) | More | Bad(error: ReadError) | TooLarge | NoNewline

  function Parse(bytes: seq<Byte>): Parsed {
    match FromBytes(bytes)
    case Overflow => Bad(TooWide)
    case NotMinimal => Bad(Padded)
    case Underflow => More
    case Ok(length, n) =>
      MinimalFront(bytes, length);
      if length > MAX_TOKEN then TooLarge
      else if |bytes| < n + length then More
      else if length == 0 || bytes[n + length - 1] != NEWLINE then NoNewline
      else Whole(bytes[n..n + length - 1], bytes[n + length..])
  }

  /** lpReadBuf: a token, or the error; More becomes the reader's end of file. */
  method ReadNextToken(r: Reader) returns (p: Parsed)
    modifies r
    ensures p == Parse(old(r.rest))
    ensures p.Whole? ==> r.rest == p.rest
  {
    ghost var bytes := r.rest;
    AcceptsCanonical(bytes, 0);
    var u := r.ReadUvarint();
    match u
    case Failed(Eof) => return More;
    case Failed(UnexpectedEof) => return More;
    case Failed(e) => return Bad(e);
    case Got(length) =>
      if length > MAX_TOKEN { return TooLarge; }
      if |r.rest| < length {
        r.rest := [];
        return More;
      }
      var buf := r.rest[..length];
      r.rest := r.rest[length..];
      if |buf| == 0 || buf[length - 1] != NEWLINE { return NoNewline; }
      ghost var n := FromBytes(bytes).n;
      assert bytes[n..][length..] == bytes[n + length..] && bytes[n..][..length - 1] == bytes[n..n + length - 1];
      return Whole(buf[..length - 1], r.rest);
  }

  // --- Exactly the tokens ------------------------------------------------------------------------

  lemma {:induction false} FrontDecodes(x: nat, more: seq<Byte>)
    requires x < U63
    ensures FromBytes(ToUvarint(x) + more) == Ok(x, |ToUvarint(x)|)
  {
    AcceptsCanonical(ToUvarint(x) + more, x);
  }

  lemma Layout(v: seq<Byte>, name: Name, rest: seq<Byte>)
    ensures var bytes := v + name + [NEWLINE] + rest;
            var m := |v| + |name|;
            bytes[m] == NEWLINE && bytes[|v|..m] == name && bytes[m + 1..] == rest && bytes == v + (name + [NEWLINE] + rest)
  {
  }

  lemma {:induction false} ParseToken(name: Name, rest: seq<Byte>)
    requires Sendable(name)
    ensures Parse(Token(name) + rest) == Whole(name, rest)
  {
    hide ToUvarint, FromBytes;
    var v := ToUvarint(|name| + 1);
    Layout(v, name, rest);
    FrontDecodes(|name| + 1, name + [NEWLINE] + rest);
  }

  lemma {:induction false} ParsedBytes(bytes: seq<Byte>)
    requires Parse(bytes).Whole?
    ensures Sendable(Parse(bytes).name) && bytes == Token(Parse(bytes).name) + Parse(bytes).rest
  {
    AcceptsCanonical(bytes, FromBytes(bytes).value);
    hide ToUvarint, FromBytes;
    var n, name := FromBytes(bytes).n, Parse(bytes).name;
    var m := n + |name|;
    assert bytes == bytes[..n] + bytes[n..m] + [bytes[m]] + bytes[m + 1..];
  }

  /** lpReadBuf accepts exactly what delimWrite writes for a name of at most 1023 bytes. */
  lemma {:induction false} ParseIsToken(bytes: seq<Byte>, name: Name, rest: seq<Byte>)
    ensures Parse(bytes) == Whole(name, rest) <==> Sendable(name) && bytes == Token(name) + rest
  {
    hide Parse, Token;
    if Sendable(name) && bytes == Token(name) + rest { ParseToken(name, rest); }
    if Parse(bytes) == Whole(name, rest) { ParsedBytes(bytes); }
  }

  /** A token cut short, or nothing, is waited for. */
  lemma {:induction false} ParseCut(name: Name, k: nat)
    requires Sendable(name) && k < |Token(name)|
    ensures Parse(Token(name)[..k]) == More
  {
    var x := |name| + 1;
    EncodedStops(x);
    Powers();
    LengthBounds(x, 9);
    var v, cut := ToUvarint(x), Token(name)[..k];
    if k < |v| {
      assert cut == v[..k];
      StopInPrefix(v, k);
    } else {
      assert cut == v + cut[|v|..];
      FrontDecodes(x, cut[|v|..]);
    }
  }

  /** What has arrived of a stream that begins with a token. */
  lemma {:induction false} ParseArrived(name: Name, more: seq<Byte>, arrived: seq<Byte>, later: seq<Byte>)
    requires Sendable(name) && arrived + later == Token(name) + more
    ensures if |arrived| < |Token(name)| then Parse(arrived) == More
            else Parse(arrived) == Whole(name, arrived[|Token(name)|..]) && arrived[|Token(name)|..] + later == more
  {
    hide Token, Parse;
    var t := Token(name);
    if |arrived| < |t| {
      assert arrived == (t + more)[..|arrived|] == t[..|arrived|];
      ParseCut(name, |arrived|);
    } else {
      assert t == (t + more)[..|t|] == arrived[..|t|];
      assert arrived == t + arrived[|t|..];
      ParseToken(name, arrived[|t|..]);
      assert more == (t + more)[|t|..] == (arrived + later)[|t|..] == arrived[|t|..] + later;
    }
  }
}
