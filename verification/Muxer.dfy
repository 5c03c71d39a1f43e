/** The handler table and the two sequential programs (multiformats/multistream). */
module Muxer {
  import opened Words
  import opened Varint
  import opened Tokens
  import opened Negotiation

  predicate DistinctNames(handlers: seq<Handler>) {
    forall i, j :: 0 <= i < j < |handlers| ==> handlers[i].name != handlers[j].name
  }

  /** The handlers of other names, in their order. */
  function Without(handlers: seq<Handler>, name: Name): seq<Handler> {
    if handlers == [] then []
    else if handlers[0].name == name then Without(handlers[1..], name)
    else [handlers[0]] + Without(handlers[1..], name)
  }

  lemma {:induction false} WithoutAbsent(handlers: seq<Handler>, name: Name)
    requires forall h <- handlers :: h.name != name
    ensures Without(handlers, name) == handlers
  {
    if handlers != [] { WithoutAbsent(handlers[1..], name); }
  }

  lemma {:induction false} WithoutOne(handlers: seq<Handler>, i: nat)
    requires DistinctNames(handlers) && i < |handlers|
    ensures Without(handlers, handlers[i].name) == handlers[..i] + handlers[i + 1..]
  {
    if i == 0 {
      WithoutAbsent(handlers[1..], handlers[0].name);
    } else {
      WithoutOne(handlers[1..], i - 1);
      assert handlers[..i] == [handlers[0]] + handlers[1..][..i - 1];
      assert handlers[i + 1..] == handlers[1..][i..];
    }
  }

  lemma {:induction false} WithoutIn(handlers: seq<Handler>, name: Name)
    requires DistinctNames(handlers)
    ensures DistinctNames(Without(handlers, name))
    ensures forall h :: h in Without(handlers, name) <==> h in handlers && h.name != name
  {
    if handlers != [] { WithoutIn(handlers[1..], name); }
  }

  lemma {:induction false} FoundFirst(handlers: seq<Handler>, name: Name, i: nat)
    requires i <= |handlers|
    ensures match FindFrom(handlers, name, i)
            case Some(k) => i <= k < |handlers| && handlers[k].matches(name) && forall j :: i <= j < k ==> !handlers[j].matches(name)
            case None => forall j :: i <= j < |handlers| ==> !handlers[j].matches(name)
    decreases |handlers| - i
  {
    if i < |handlers| { FoundFirst(handlers, name, i + 1); }
  }

  datatype Outcome = Served(name: Name, handler: nat) | BadVersion | NoToken

  function Nas(n: nat): seq<Name> {
    seq(n, _ => Na())
  }

  class MultistreamMuxer {
    var handlers: seq<Handler>

    ghost predicate Valid()
      reads this
    {
      DistinctNames(handlers)
    }

    constructor ()
      ensures Valid() && handlers == []
    {
      handlers := [];
    }

    method RemoveHandler(name: Name)
      requires Valid()
      modifies this
      ensures Valid() && handlers == Without(old(handlers), name)
    {
      WithoutIn(handlers, name);
      var i := 0;
      while i < |handlers|
        invariant i <= |handlers| && handlers == old(handlers)
        invariant forall j :: 0 <= j < i ==> handlers[j].name != name
      {
        if handlers[i].name == name {
          WithoutOne(handlers, i);
          handlers := handlers[..i] + handlers[i + 1..];
          return;
        }
        i := i + 1;
      }
      WithoutAbsent(handlers, name);
    }

    /** A handler of the same name is replaced, and the new one goes last. */
    method AddHandlerWithFunc(name: Name, matches: Name -> bool)
      requires Valid()
      modifies this
      ensures Valid() && handlers == Without(old(handlers), name) + [Handler(name, matches)]
    {
      WithoutIn(handlers, name);
      RemoveHandler(name);
      assert forall i :: 0 <= i < |handlers| ==> handlers[i] in handlers && handlers[i].name != name;
      handlers := handlers + [Handler(name, matches)];
    }

    method FindHandler(name: Name) returns (r: Option<nat>)
      ensures r == Find(handlers, name)
      ensures match r
              case Some(k) => k < |handlers| && handlers[k].matches(name) && forall j :: 0 <= j < k ==> !handlers[j].matches(name)
              case None => forall h <- handlers :: !h.matches(name)
    {
      FoundFirst(handlers, name, 0);
      var i := 0;
      while i < |handlers|
        invariant i <= |handlers| && FindFrom(handlers, name, i) == FindFrom(handlers, name, 0)
      {
        if handlers[i].matches(name) { return Some(i); }
        i := i + 1;
      }
      return None;
    }

    /**
     * On the bytes the client will ever send: it takes the header, the refused proposals and the
     * first supported one, no byte more, and answers each once.
     */
    method Negotiate(r: Reader) returns (outcome: Outcome, out: seq<Byte>, ghost refused: seq<Name>)
      modifies r
      ensures outcome.Served? ==>
                && Find(handlers, outcome.name) == Some(outcome.handler)
                && old(r.rest) == Token(ProtocolId()) + Stream(refused) + Token(outcome.name) + r.rest
                && out == Token(ProtocolId()) + Stream(Nas(|refused|)) + Token(outcome.name)
      ensures forall name <- refused :: Find(handlers, name) == None
      ensures outcome.BadVersion? ==>
                out == Token(ProtocolId()) && Parse(old(r.rest)).Whole? && Parse(old(r.rest)).name != ProtocolId()
      ensures outcome.NoToken? ==>
                out == Token(ProtocolId()) + Stream(Nas(|refused|))
    {
      hide Parse, Token, Stream, Find, ProtocolId, Na;
      ghost var bytes := r.rest;
      refused := [];
      StreamNone();
      out := Token(ProtocolId());
      assert out + [] == out;
      var line := ReadNextToken(r);
      if !line.Whole? { return NoToken, out, refused; }
      if line.name != ProtocolId() { return BadVersion, out, refused; }
      ParsedBytes(bytes);
      while true
        invariant bytes == Token(ProtocolId()) + Stream(refused) + r.rest
        invariant out == Token(ProtocolId()) + Stream(Nas(|refused|))
        invariant forall name <- refused :: Find(handlers, name) == None
        decreases |r.rest|
      {
        ghost var before := r.rest;
        var tok := ReadNextToken(r);
        if !tok.Whole? { return NoToken, out, refused; }
        ParsedBytes(before);
        TokenNotEmpty(tok.name);
        assert bytes == Token(ProtocolId()) + Stream(refused) + Token(tok.name) + r.rest;
        var h := FindHandler(tok.name);
        if h.Some? {
          out := out + Token(tok.name);
          return Served(tok.name, h.value), out, refused;
        }
        StreamAppend(refused, tok.name);
        StreamAppend(Nas(|refused|), Na());
        assert Nas(|refused| + 1) == Nas(|refused|) + [Na()];
        refused := refused + [tok.name];
        out := out + Token(Na());
      }
    }
  }

  lemma StreamNone()
    ensures Stream([]) == [] && Stream(Nas(0)) == []
  {
  }

  // --- The client --------------------------------------------------------------------------------

  datatype Choice = Chosen(i: nat) | Unsupported | NoProtocols | Broken

  /** On the bytes the server will ever send, and with the writes succeeding. */
  method SelectOneOf(protos: seq<Name>, r: Reader) returns (choice: Choice, out: seq<Byte>)
    modifies r
    ensures choice.NoProtocols? <==> protos == []
    ensures protos == [] ==> out == [] && r.rest == old(r.rest)
    ensures choice.Chosen? ==>
              && choice.i < |protos|
              && old(r.rest) == Token(ProtocolId()) + Stream(Nas(choice.i)) + Token(protos[choice.i]) + r.rest
              && out == Token(ProtocolId()) + Stream(protos[..choice.i + 1])
    ensures choice.Unsupported? ==>
              && old(r.rest) == Token(ProtocolId()) + Stream(Nas(|protos|)) + r.rest
              && out == Token(ProtocolId()) + Stream(protos)
  {
    hide Parse, Token, Stream, ProtocolId, Na;
    if protos == [] { return NoProtocols, []; }
    ghost var bytes := r.rest;
    StreamNone();
    out := Token(ProtocolId()) + Token(protos[0]);
    var header := ReadNextToken(r);
    ghost var tail := r.rest;
    var reply := ReadNextToken(r);
    if !header.Whole? || header.name != ProtocolId() { return Broken, out; }
    ParsedBytes(bytes);
    ProposalSent(protos, 0);
    var i := 0;
    while true
      invariant i < |protos| && reply == Parse(tail) && (reply.Whole? ==> r.rest == reply.rest)
      invariant bytes == Token(ProtocolId()) + Stream(Nas(i)) + tail
      invariant out == Token(ProtocolId()) + Stream(protos[..i + 1])
      decreases |protos| - i
    {
      if !reply.Whole? { return Broken, out; }
      ParsedBytes(tail);
      if reply.name == protos[i] { return Chosen(i), out; }
      if reply.name != Na() { return Broken, out; }
      StreamAppend(Nas(i), Na());
      assert Nas(i + 1) == Nas(i) + [Na()];
      i := i + 1;
      if i == |protos| {
        assert protos[..i] == protos;
        return Unsupported, out;
      }
      ProposalSent(protos, i);
      out := out + Token(protos[i]);
      tail := r.rest;
      reply := ReadNextToken(r);
    }
  }

  lemma {:induction false} ProposalSent(protos: seq<Name>, i: nat)
    requires i < |protos|
    ensures Stream(protos[..i + 1]) == Stream(protos[..i]) + Token(protos[i])
    ensures i == 0 ==> Stream(protos[..i]) == []
  {
    hide Token;
    assert protos[..i + 1] == protos[..i] + [protos[i]];
    StreamAppend(protos[..i], protos[i]);
  }
}
