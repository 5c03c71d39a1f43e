/** Exactly when the two sides agree: the names that the protocol cannot carry. */
module NegotiationLimits {
  import opened Words
  import opened Varint
  import opened Tokens
  import opened Negotiation

  ghost predicate CanReach(protos: seq<Name>, handlers: seq<Handler>, w: World) {
    exists ws :: Run(ws, protos, handlers) && ws[|ws| - 1] == w
  }

  lemma {:induction false} ReachStart(protos: seq<Name>, handlers: seq<Handler>)
    requires protos != []
    ensures CanReach(protos, handlers, Start(protos, handlers))
  {
    hide Start;
    var ws := [Start(protos, handlers)];
    assert Run(ws, protos, handlers) && ws[|ws| - 1] == Start(protos, handlers);
  }

  lemma {:induction false} ReachNext(protos: seq<Name>, handlers: seq<Handler>, w: World, s: Step)
    requires CanReach(protos, handlers, w) && Enabled(w, s)
    ensures CanReach(protos, handlers, Next(w, s))
  {
    hide Next, Enabled, Start;
    var ws :| Run(ws, protos, handlers) && ws[|ws| - 1] == w;
    var vs := ws + [Next(w, s)];
    assert Follows(w, Next(w, s));
    forall i | 0 <= i < |vs| - 1 ensures Follows(vs[i], vs[i + 1]) {
      if i < |ws| - 1 { assert vs[i] == ws[i] && vs[i + 1] == ws[i + 1]; }
    }
    assert Run(vs, protos, handlers) && vs[|vs| - 1] == Next(w, s);
  }

  // --- A longer list of proposals ----------------------------------------------------------------

  function Lift(w: World, protos: seq<Name>): World {
    w.(protos := protos)
  }

  /** Up to the end of the shorter list both clients do the same. */
  lemma {:induction false} LiftStep(w: World, protos: seq<Name>, s: Step)
    requires w.protos != [] && w.protos < protos && Enabled(w, s) && ClientFine(w) && !w.client.NotSupported?
    ensures Enabled(Lift(w, protos), s)
    ensures if Next(w, s).client.NotSupported? then
              Next(Lift(w, protos), s) == Propose(Lift(Next(w, s), protos), |w.protos|)
            else Next(Lift(w, protos), s) == Lift(Next(w, s), protos)
  {
    hide Parse, Token, Find, ProtocolId, Na;
  }

  ghost predicate Empty(p: Pipe) {
    p == Pipe([], [], [], [])
  }

  /** All refused: the server waits for a command and both pipes are empty. */
  lemma {:induction false} AllRefused(w: World)
    requires Inv(w) && w.client.NotSupported?
    ensures w.server.Commands? && Empty(w.up) && Empty(w.down)
  {
    if w.server.Serving? { ServingHasRead(w); }
    hide Find, ProtocolId, Na, Replies;
    assert Asks(w)[w.asked..Asked(w)] == [] && Answers(w)[Told(w)..Answered(w)] == [];
  }

  /** The server idle, and the client's proposal f written but not yet read. */
  ghost predicate Poised(w: World, f: nat) {
    && f < |w.protos|
    && w.client == (if f == 0 then AwaitFirst(true) else Await(f))
    && w.server.Commands?
    && Empty(w.down)
    && w.up.said == [] && w.up.heard == []
    && ((w.up.sent == [] && w.up.pending == Token(w.protos[f])) || (w.up.sent == Token(w.protos[f]) && w.up.pending == []))
  }

  lemma {:induction false} ReachPoised(w: World, protos: seq<Name>, handlers: seq<Handler>) returns (v: World)
    requires Inv(w) && w.handlers == handlers && w.protos < protos && NoneBefore(w.protos, handlers, |w.protos|)
    requires !w.client.NotSupported? && CanReach(protos, handlers, Lift(w, protos))
    ensures CanReach(protos, handlers, v) && v.protos == protos && v.handlers == handlers && Poised(v, |w.protos|)
    decreases TokensLeft(w), Waiting(w)
  {
    hide Parse, Token, Find, ProtocolId, Na, Carries, CanReach, Enabled, Next, Usable, Poised;
    NoneSelected(w);
    TokensBounded(w);
    var s := SomeStep(w);
    StepKeeps(w, s);
    StepsSettle(w, s);
    LiftStep(w, protos, s);
    ReachNext(protos, handlers, Lift(w, protos), s);
    var u := Next(w, s);
    if u.client.NotSupported? {
      AllRefused(u);
      v := Propose(Lift(u, protos), |w.protos|);
      PoisedNow(u, protos);
    } else {
      v := ReachPoised(u, protos, handlers);
    }
  }

  lemma NoneSelected(w: World)
    requires Inv(w) && NoneBefore(w.protos, w.handlers, |w.protos|)
    ensures !w.client.Selected?
  {
    hide Find, Carries;
  }

  lemma PoisedNow(u: World, protos: seq<Name>)
    requires u.server.Commands? && Empty(u.up) && Empty(u.down) && u.protos != [] && u.protos < protos
    ensures Poised(Propose(Lift(u, protos), |u.protos|), |u.protos|)
  {
    hide Token;
  }

  /** The first proposal is on the wire as soon as both headers have been read. */
  lemma {:induction false} PoisedAtStart(protos: seq<Name>, handlers: seq<Handler>) returns (v: World)
    requires protos != []
    ensures CanReach(protos, handlers, v) && v.protos == protos && v.handlers == handlers && Poised(v, 0)
  {
    hide Token, CanReach, Find, Parse;
    var header, first := Token(ProtocolId()), Token(protos[0]);
    var w := Start(protos, handlers);
    ReachStart(protos, handlers);
    HeaderParses(first);
    HeaderParses([]);
    assert header + [] == header;
    hide ProtocolId;
    assert |header| > 0 by { TokenNotEmpty(ProtocolId()); }
    var w1 := Next(w, Push(true, |header + first|));
    ReachNext(protos, handlers, w, Push(true, |header + first|));
    var w2 := Next(w1, Push(false, |header|));
    ReachNext(protos, handlers, w1, Push(false, |header|));
    assert w2.up == Pipe([], header + first, [], []) && w2.down == Pipe([], header, [], []);
    var w3 := Next(w2, ClientRead);
    ReachNext(protos, handlers, w2, ClientRead);
    v := Next(w3, ServerRead);
    ReachNext(protos, handlers, w3, ServerRead);
  }

  lemma HeaderParses(rest: seq<Byte>)
    ensures Parse(Token(ProtocolId()) + rest) == Whole(ProtocolId(), rest)
  {
    ParseToken(ProtocolId(), rest);
  }

  /** The reader rejects a name that is too long, whatever follows. */
  lemma {:induction false} TooLongParses(name: Name, rest: seq<Byte>)
    requires !Sendable(name)
    ensures !Parse(Token(name) + rest).Whole? && !Parse(Token(name) + rest).More?
  {
    var x, bytes := |name| + 1, Token(name) + rest;
    assert bytes == ToUvarint(x) + (name + [NEWLINE] + rest);
    MinimalFront(bytes, x);
    Powers();
    LengthBounds(x, 9);
    if x < U63 { AcceptsCanonical(bytes, x); }
  }

  lemma {:induction false} PushedUp(w: World, f: nat) returns (v: World)
    requires Poised(w, f) && CanReach(w.protos, w.handlers, w)
    ensures v == w.(up := Pipe([], Token(w.protos[f]), [], [])) && CanReach(w.protos, w.handlers, v)
  {
    hide Token, CanReach, Find;
    v := w;
    if w.up.pending != [] {
      var s := Push(true, |w.up.pending|);
      ReachNext(w.protos, w.handlers, w, s);
      v := Next(w, s);
    }
  }

  /** A name that is too long stops the server. */
  lemma {:induction false} TooLongFails(w: World, f: nat) returns (v: World)
    requires Poised(w, f) && CanReach(w.protos, w.handlers, w) && !Sendable(w.protos[f])
    ensures CanReach(w.protos, w.handlers, v) && v.server.ServerError?
  {
    var u := PushedUp(w, f);
    hide Token, CanReach, Find, Parse;
    TooLongParses(w.protos[f], []);
    assert Token(w.protos[f]) + [] == Token(w.protos[f]);
    ReachNext(w.protos, w.handlers, u, ServerRead);
    v := Next(u, ServerRead);
  }

  lemma NaSendable()
    ensures Sendable(Na())
  {
  }

  lemma {:induction false} NaRefused(w: World, f: nat) returns (v: World)
    requires Poised(w, f) && CanReach(w.protos, w.handlers, w)
    requires w.protos[f] == Na() && Find(w.handlers, Na()) == None
    ensures CanReach(w.protos, w.handlers, v)
    ensures v == w.(up := Pipe([], [], [], []), down := Pipe([], Token(Na()), [], []), asked := w.asked + 1)
  {
    hide Token, CanReach, Find, Parse, Na;
    NaSendable();
    var u := PushedUp(w, f);
    ParseToken(Na(), []);
    var t := Token(Na());
    assert t + [] == t && |t| > 0 by { TokenNotEmpty(Na()); }
    ReachNext(w.protos, w.handlers, u, ServerRead);
    var u1 := Next(u, ServerRead);
    assert u1 == w.(up := Pipe([], [], [], []), down := Pipe(t, [], [], []), asked := w.asked + 1);
    ReachNext(w.protos, w.handlers, u1, Push(false, |t|));
    v := Next(u1, Push(false, |t|));
  }

  /** The client takes the refusal of a proposed "na" for its acceptance. */
  lemma {:induction false} NaMisleads(w: World, f: nat) returns (v: World)
    requires Poised(w, f) && CanReach(w.protos, w.handlers, w)
    requires w.protos[f] == Na() && Find(w.handlers, Na()) == None
    ensures CanReach(w.protos, w.handlers, v) && v.client == Selected(f) && v.server.Commands?
  {
    var u := NaRefused(w, f);
    ParseToken(Na(), []);
    hide Token, CanReach, Find, Parse, Na;
    assert Token(Na()) + [] == Token(Na());
    ReachNext(w.protos, w.handlers, u, ClientRead);
    v := Next(u, ClientRead);
    if f == 0 {
      ReachNext(w.protos, w.handlers, v, ClientJoin);
      v := Next(v, ClientJoin);
    }
  }

  // --- The exact condition -----------------------------------------------------------------------

  /** The first proposal that may be made but does not fit. */
  lemma {:induction false} FirstMisfit(protos: seq<Name>, handlers: seq<Handler>, i: nat) returns (f: nat)
    requires i < |protos| && NoneBefore(protos, handlers, i) && !Fits(handlers, protos[i])
    ensures f < |protos| && NoneBefore(protos, handlers, f) && !Fits(handlers, protos[f])
    ensures f > 0 ==> Usable(protos[..f], handlers)
  {
    hide Fits, Find;
    if j :| 0 <= j < i && !Fits(handlers, protos[j]) {
      f := FirstMisfit(protos, handlers, j);
    } else {
      f := i;
    }
  }

  ghost predicate AlwaysAgree(protos: seq<Name>, handlers: seq<Handler>) {
    forall w :: CanReach(protos, handlers, w) ==> Agreed(w, FirstSupported(protos, handlers))
  }

  lemma {:induction false} MisfitDisagrees(protos: seq<Name>, handlers: seq<Handler>, i: nat)
    requires i < |protos| && NoneBefore(protos, handlers, i) && !Fits(handlers, protos[i])
    ensures !AlwaysAgree(protos, handlers)
  {
    hide CanReach, Token, Find, Poised;
    var f := FirstMisfit(protos, handlers, i);
    var w;
    if f == 0 {
      w := PoisedAtStart(protos, handlers);
    } else {
      var short := protos[..f];
      StartFine(short, handlers);
      ReachStart(protos, handlers);
      assert Lift(Start(short, handlers), protos) == Start(protos, handlers);
      hide Start, Inv;
      w := ReachPoised(Start(short, handlers), protos, handlers);
    }
    var v;
    if Sendable(protos[f]) { v := NaMisleads(w, f); } else { v := TooLongFails(w, f); }
    assert CanReach(protos, handlers, v) && !Agreed(v, FirstSupported(protos, handlers));
  }

  /** Both sides always agree if and only if every proposal that can come to be made fits. */
  lemma {:induction false} AgreementIff(protos: seq<Name>, handlers: seq<Handler>)
    requires protos != []
    ensures AlwaysAgree(protos, handlers) <==> Usable(protos, handlers)
  {
    hide Agreed, Fits, NoneBefore, FirstSupported;
    if Usable(protos, handlers) {
      forall w | CanReach(protos, handlers, w) ensures Agreed(w, FirstSupported(protos, handlers)) {
        var ws :| Run(ws, protos, handlers) && ws[|ws| - 1] == w;
        Agreement(ws, protos, handlers);
        assert w in ws;
      }
    } else {
      var i :| 0 <= i < |protos| && NoneBefore(protos, handlers, i) && !Fits(handlers, protos[i]);
      MisfitDisagrees(protos, handlers, i);
    }
  }
}
