/** A SelectOneOf client and a Negotiate server over byte channels (multiformats/multistream). */
module Negotiation {
  import opened Words
  import opened Tokens

  /** "/multistream/1.0.0" */
  function ProtocolId(): Name {
    [47, 109, 117, 108, 116, 105, 115, 116, 114, 101, 97, 109, 47, 49, 46, 48, 46, 48]
  }

  /** "na" */
  function Na(): Name {
    [110, 97]
  }

  datatype Handler = Handler(name: Name, matches: Name -> bool)

  /** findHandler: the first handler that matches, from index i on. */
  function FindFrom(handlers: seq<Handler>, name: Name, i: nat): Option<nat>
    requires i <= |handlers|
    decreases |handlers| - i
  {
    if i == |handlers| then None
    else if handlers[i].matches(name) then Some(i)
    else FindFrom(handlers, name, i + 1)
  }

  function Find(handlers: seq<Handler>, name: Name): Option<nat> {
    FindFrom(handlers, name, 0)
  }

  // --- The two sides -----------------------------------------------------------------------------

  /** Where SelectOneOf stands; Join waits for the writing goroutine of SelectProtoOrFail. */
  datatype Client =
    | AwaitHeader
    | AwaitFirst(headerOk: bool)
    | Join(headerOk: bool, reply: Name)
    | Await(i: nat)
    | Selected(i: nat)
    | NotSupported
    | ClientError

  datatype Server =
    | ReadHeader
    | Commands
    | Serving(name: Name, handler: nat)
    | WrongVersion
    | ServerError

  /** One direction: written but not yet sent, sent but not yet read; and the application's share. */
  datatype Pipe = Pipe(pending: seq<Byte>, sent: seq<Byte>, said: seq<Byte>, heard: seq<Byte>)

  /** asked is history: the tokens the server has read. */
  datatype World = World(protos: seq<Name>, handlers: seq<Handler>, client: Client, server: Server, asked: nat, up: Pipe, down: Pipe)

  datatype Step =
    | Push(up: bool, n: nat)
    | ClientRead
    | ClientJoin
    | ServerRead
    | Say(up: bool, data: seq<Byte>)
    | Hear(up: bool, n: nat)

  function Queue(p: Pipe, bytes: seq<Byte>): Pipe {
    p.(pending := p.pending + bytes)
  }

  /** Both sides begin by writing: the client its header and first proposal, the server its header. */
  function Start(protos: seq<Name>, handlers: seq<Handler>): World
    requires protos != []
  {
    World(protos, handlers, AwaitHeader, ReadHeader, 0,
          Pipe(Token(ProtocolId()) + Token(protos[0]), [], [], []), Pipe(Token(ProtocolId()), [], [], []))
  }

  /** The next proposal of selectProtosOrFail, or the end of the list. */
  function Propose(w: World, i: nat): World {
    if i >= |w.protos| then w.(client := NotSupported)
    else w.(client := Await(i), up := Queue(w.up, Token(w.protos[i])))
  }

  /** readProto */
  function OnReply(w: World, i: nat, reply: Name): World
    requires i < |w.protos|
  {
    if reply == w.protos[i] then w.(client := Selected(i))
    else if reply == Na() then Propose(w, i + 1)
    else w.(client := ClientError)
  }

  predicate ClientReads(w: World) {
    || w.client.AwaitHeader?
    || w.client.AwaitFirst?
    || (w.client.Await? && w.client.i < |w.protos| && w.up.pending == [])
  }

  function ClientOnToken(w: World, name: Name): World
    requires ClientReads(w)
  {
    match w.client
    case AwaitHeader => w.(client := AwaitFirst(name == ProtocolId()))
    case AwaitFirst(ok) => w.(client := Join(ok, name))
    case Await(i) => OnReply(w, i, name)
  }

  function OnJoin(w: World): World
    requires w.client.Join? && w.protos != []
  {
    if w.client.headerOk then OnReply(w, 0, w.client.reply) else w.(client := ClientError)
  }

  predicate ServerReads(w: World) {
    w.down.pending == [] && (w.server.ReadHeader? || w.server.Commands?)
  }

  function ServerOnToken(w: World, name: Name): World
    requires ServerReads(w)
  {
    if w.server.ReadHeader? then
      w.(server := if name == ProtocolId() then Commands else WrongVersion)
    else match Find(w.handlers, name)
      case None => w.(down := Queue(w.down, Token(Na())))
      case Some(h) => w.(server := Serving(name, h), down := Queue(w.down, Token(name)))
  }

  predicate Enabled(w: World, s: Step) {
    match s
    case Push(up, n) => 0 < n <= |(if up then w.up else w.down).pending|
    case ClientRead => ClientReads(w) && !Parse(w.down.sent).More?
    case ClientJoin => w.client.Join? && w.up.pending == [] && w.protos != []
    case ServerRead => ServerReads(w) && !Parse(w.up.sent).More?
    case Say(up, _) => if up then w.client.Selected? else w.server.Serving?
    case Hear(up, n) => if up then w.server.Serving? && n <= |w.up.sent| else w.client.Selected? && n <= |w.down.sent|
  }

  function Pushed(p: Pipe, n: nat): Pipe
    requires n <= |p.pending|
  {
    p.(pending := p.pending[n..], sent := p.sent + p.pending[..n])
  }

  function Spoken(p: Pipe, data: seq<Byte>): Pipe {
    p.(pending := p.pending + data, said := p.said + data)
  }

  function Heard(p: Pipe, n: nat): Pipe
    requires n <= |p.sent|
  {
    p.(sent := p.sent[n..], heard := p.heard + p.sent[..n])
  }

  function Next(w: World, s: Step): World
    requires Enabled(w, s)
  {
    match s
    case Push(up, n) => if up then w.(up := Pushed(w.up, n)) else w.(down := Pushed(w.down, n))
    case ClientRead =>
      var p := Parse(w.down.sent);
      if p.Whole? then ClientOnToken(w.(down := w.down.(sent := p.rest)), p.name) else w.(client := ClientError)
    case ClientJoin => OnJoin(w)
    case ServerRead =>
      var p := Parse(w.up.sent);
      if p.Whole? then ServerOnToken(w.(up := w.up.(sent := p.rest), asked := w.asked + 1), p.name) else w.(server := ServerError)
    case Say(up, data) => if up then w.(up := Spoken(w.up, data)) else w.(down := Spoken(w.down, data))
    case Hear(up, n) => if up then w.(up := Heard(w.up, n)) else w.(down := Heard(w.down, n))
  }

  // --- What every step keeps ---------------------------------------------------------------------

  function Stream(names: seq<Name>): seq<Byte> {
    if names == [] then [] else Token(names[0]) + Stream(names[1..])
  }

  /** What the client writes, in order, as far as it gets. */
  function Asks(w: World): seq<Name> {
    [ProtocolId()] + w.protos
  }

  function Reply(handlers: seq<Handler>, name: Name): Name {
    if Find(handlers, name).Some? then name else Na()
  }

  function Replies(handlers: seq<Handler>, names: seq<Name>): (rs: seq<Name>)
    ensures |rs| == |names| && forall i :: 0 <= i < |names| ==> rs[i] == Reply(handlers, names[i])
  {
    if names == [] then [] else [Reply(handlers, names[0])] + Replies(handlers, names[1..])
  }

  /** What the server writes, in order, as far as it gets. */
  function Answers(w: World): seq<Name> {
    [ProtocolId()] + Replies(w.handlers, w.protos)
  }

  /** Tokens the client has written, and read. */
  function Asked(w: World): nat {
    match w.client
    case Await(i) => i + 2
    case Selected(i) => i + 2
    case NotSupported => |w.protos| + 1
    case _ => 2
  }

  function Told(w: World): nat {
    match w.client
    case AwaitHeader => 0
    case AwaitFirst(_) => 1
    case Join(_, _) => 2
    case Await(i) => i + 1
    case Selected(i) => i + 2
    case NotSupported => |w.protos| + 1
    case ClientError => 0
  }

  /** Tokens the server has written. */
  function Answered(w: World): nat {
    if w.server.ReadHeader? then 1 else w.asked
  }

  /** None of the first n proposals has a handler. */
  predicate NoneBefore(protos: seq<Name>, handlers: seq<Handler>, n: nat) {
    n <= |protos| && forall j :: 0 <= j < n ==> Find(handlers, protos[j]).None?
  }

  predicate Refused(w: World, n: nat) {
    NoneBefore(w.protos, w.handlers, n)
  }

  /** A name that fits in a token and is not a refusal in disguise. */
  predicate Fits(handlers: seq<Handler>, name: Name) {
    Sendable(name) && (name == Na() ==> Find(handlers, name).Some?)
  }

  /** Every proposal that can come to be made fits. */
  predicate Usable(protos: seq<Name>, handlers: seq<Handler>) {
    protos != [] && forall i :: 0 <= i < |protos| && NoneBefore(protos, handlers, i) ==> Fits(handlers, protos[i])
  }

  predicate ClientFine(w: World) {
    match w.client
    case AwaitHeader => true
    case AwaitFirst(ok) => ok
    case Join(ok, reply) => ok && w.protos != [] && reply == Reply(w.handlers, w.protos[0])
    case Await(i) => 0 < i < |w.protos| && Refused(w, i)
    case Selected(i) => i < |w.protos| && Refused(w, i) && Find(w.handlers, w.protos[i]).Some?
    case NotSupported => Refused(w, |w.protos|)
    case ClientError => false
  }

  predicate ServerFine(w: World) {
    match w.server
    case ReadHeader => w.asked == 0
    case Commands => 0 < w.asked && Refused(w, w.asked - 1)
    case Serving(name, h) =>
      2 <= w.asked <= |w.protos| + 1 && name == w.protos[w.asked - 2] && Find(w.handlers, name) == Some(h) && Refused(w, w.asked - 2)
    case _ => false
  }

  /** The pipe holds these tokens and then the application bytes not yet heard. */
  predicate Carries(p: Pipe, names: seq<Name>, talking: bool) {
    && p.heard <= p.said
    && p.sent + p.pending == Stream(names) + p.said[|p.heard|..]
    && (!talking ==> p.said == [])
  }

  predicate Inv(w: World) {
    && Usable(w.protos, w.handlers)
    && ClientFine(w)
    && ServerFine(w)
    && w.asked <= Asked(w) <= |w.protos| + 1
    && Told(w) <= Answered(w)
    && Carries(w.up, Asks(w)[w.asked..Asked(w)], w.client.Selected?)
    && Carries(w.down, Answers(w)[Told(w)..Answered(w)], w.server.Serving?)
  }

  lemma {:induction false} StreamAppend(names: seq<Name>, name: Name)
    ensures Stream(names + [name]) == Stream(names) + Token(name)
  {
    hide Token;
    var one: seq<Name> := [name];
    if names == [] {
      assert names + one == one && one[1..] == [];
    } else {
      StreamAppend(names[1..], name);
      assert (names + one)[1..] == names[1..] + one;
    }
  }

  lemma {:induction false} StartFine(protos: seq<Name>, handlers: seq<Handler>)
    requires Usable(protos, handlers)
    ensures Inv(Start(protos, handlers))
  {
    var w := Start(protos, handlers);
    var up, down: seq<Name> := [ProtocolId()], [ProtocolId()];
    assert Asks(w)[0..2] == up + [protos[0]] && Answers(w)[0..1] == down && down[1..] == [] && up[1..] == [];
    StreamAppend(up, protos[0]);
    assert Stream(up) == Token(ProtocolId()) + [] == Token(ProtocolId());
  }

  lemma {:induction false} PushKeeps(p: Pipe, n: nat, names: seq<Name>, talking: bool)
    requires n <= |p.pending| && Carries(p, names, talking)
    ensures Carries(Pushed(p, n), names, talking)
  {
    hide Stream;
    assert p.pending == p.pending[..n] + p.pending[n..];
    assert Pushed(p, n).sent + Pushed(p, n).pending == p.sent + p.pending;
  }

  lemma {:induction false} SayKeeps(p: Pipe, data: seq<Byte>, names: seq<Name>)
    requires Carries(p, names, true)
    ensures Carries(Spoken(p, data), names, true)
  {
    hide Stream;
    assert (p.said + data)[|p.heard|..] == p.said[|p.heard|..] + data;
    assert p.sent + (p.pending + data) == (p.sent + p.pending) + data;
  }

  lemma {:induction false} HearKeeps(p: Pipe, n: nat, talking: bool)
    requires n <= |p.sent| && Carries(p, [], talking)
    ensures Carries(Heard(p, n), [], talking)
  {
    MoveCut(p.heard, p.sent, p.pending, n);
    var q := Heard(p, n);
    assert p.said == p.heard + (p.sent + p.pending);
    assert p.said == q.heard + (q.sent + q.pending);
  }

  lemma MoveCut(a: seq<Byte>, b: seq<Byte>, c: seq<Byte>, n: nat)
    requires n <= |b|
    ensures a + (b + c) == (a + b[..n]) + (b[n..] + c)
  {
  }

  // --- Reading a token ---------------------------------------------------------------------------

  lemma StreamHead(names: seq<Name>)
    requires names != []
    ensures Stream(names) == Token(names[0]) + Stream(names[1..])
  {
  }

  /** A reader that finds something finds the next token, whole, and leaves the rest. */
  lemma {:induction false} CarriedToken(p: Pipe, names: seq<Name>, talking: bool)
    requires names != [] && Sendable(names[0]) && Carries(p, names, talking)
    ensures Parse(p.sent).More? || Parse(p.sent).Whole?
    ensures Parse(p.sent).Whole? ==>
              Parse(p.sent).name == names[0] && Carries(p.(sent := Parse(p.sent).rest), names[1..], talking)
    ensures p.pending == [] ==> Parse(p.sent).Whole?
  {
    hide Parse, Token, Stream;
    var app := p.said[|p.heard|..];
    var more := Stream(names[1..]) + app;
    StreamHead(names);
    Regroup(Token(names[0]), Stream(names[1..]), app);
    ParseArrived(names[0], more, p.sent, p.pending);
  }

  lemma {:induction false} NothingCarried(p: Pipe)
    requires Carries(p, [], false)
    ensures p.sent == [] && Parse(p.sent).More?
  {
    assert Token([])[..0] == [];
    ParseCut([], 0);
  }

  lemma {:induction false} AnswersSendable(w: World, i: nat)
    requires Usable(w.protos, w.handlers) && i <= |w.protos| && (i > 0 ==> Refused(w, i - 1))
    ensures Sendable(Asks(w)[i]) && Sendable(Answers(w)[i])
  {
    if i > 0 { assert Fits(w.handlers, w.protos[i - 1]); }
  }

  lemma {:induction false} NextSendable(w: World)
    requires Inv(w)
    ensures ClientReads(w) && Told(w) < Answered(w) ==> Sendable(Answers(w)[Told(w)])
    ensures ServerReads(w) && w.asked < Asked(w) ==> Sendable(Asks(w)[w.asked])
  {
    hide Carries, Usable, Answers, Asks;
    if ClientReads(w) && Told(w) < Answered(w) { AnswersSendable(w, Told(w)); }
    if ServerReads(w) && w.asked < Asked(w) { AnswersSendable(w, w.asked); }
  }

  /** While the client is waiting, the server has not yet answered further than it can see. */
  lemma {:induction false} ClientBehind(w: World)
    requires Inv(w) && ClientReads(w) && Told(w) == Answered(w)
    ensures !w.server.Serving?
  {
  }

  lemma {:induction false} ServerBehind(w: World)
    requires Inv(w) && ServerReads(w) && w.asked == Asked(w)
    ensures !w.client.Selected? && w.server.Commands?
  {
  }

  // --- Every step --------------------------------------------------------------------------------

  /** The client has just read the reply to proposal i. */
  ghost predicate HasReply(w: World, i: nat) {
    && Usable(w.protos, w.handlers)
    && ServerFine(w)
    && i < |w.protos|
    && Refused(w, i)
    && w.asked <= i + 2 <= Answered(w)
    && Carries(w.up, Asks(w)[w.asked..i + 2], false)
    && Carries(w.down, Answers(w)[i + 2..Answered(w)], w.server.Serving?)
  }

  /** A side that has said nothing yet writes one more token. */
  lemma {:induction false} QueueKeeps(p: Pipe, names: seq<Name>, name: Name, talking: bool)
    requires Carries(p, names, false)
    ensures Carries(Queue(p, Token(name)), names + [name], talking)
  {
    hide Stream, Token;
    StreamAppend(names, name);
    var t := Token(name);
    assert p.said == [] && p.sent + (p.pending + t) == (p.sent + p.pending) + t;
    assert p.said[|p.heard|..] == [];
  }

  lemma NextAsk(w: World, i: nat)
    requires i + 1 < |w.protos| && w.asked <= i + 2
    ensures i + 2 < |Asks(w)| && Asks(w)[w.asked..i + 3] == Asks(w)[w.asked..i + 2] + [w.protos[i + 1]]
  {
    SliceNext(Asks(w), w.asked, i + 2);
  }

  lemma {:induction false} ReplyFine(w: World, i: nat)
    requires HasReply(w, i)
    ensures var v := OnReply(w, i, Reply(w.handlers, w.protos[i])); ClientFine(v) && !v.client.ClientError?
  {
    hide Find, Carries, ProtocolId, Na, Token, ServerFine, Usable, Sendable, Answers, Asks;
    ReplyFits(w, i);
  }

  lemma ReplyFits(w: World, i: nat)
    requires Usable(w.protos, w.handlers) && i < |w.protos| && Refused(w, i)
    ensures Fits(w.handlers, w.protos[i])
  {
    hide Find, Na, Sendable;
  }

  lemma {:induction false} ReplyKeeps(w: World, i: nat)
    requires HasReply(w, i)
    ensures Inv(OnReply(w, i, Reply(w.handlers, w.protos[i])))
    ensures Told(OnReply(w, i, Reply(w.handlers, w.protos[i]))) == i + 2
    ensures var u := OnReply(w, i, Reply(w.handlers, w.protos[i])); u.asked == w.asked && u.protos == w.protos
  {
    hide Find, Carries, ProtocolId, Na, Token, Usable, ServerFine, Replies, ClientFine, Refused;
    var v := OnReply(w, i, Reply(w.handlers, w.protos[i]));
    ReplyFine(w, i);
    SameServer(w, v);
    assert Asks(v) == Asks(w) && Answers(v) == Answers(w) && |Asks(w)| == |Answers(w)| == |w.protos| + 1;
    if v.client.Await? {
      NextAsk(w, i);
      hide Asks, Answers;
      QueueKeeps(w.up, Asks(w)[w.asked..i + 2], w.protos[i + 1], false);
    } else if v.client.Selected? {
      QuietMayTalk(w.up, Asks(w)[w.asked..i + 2]);
    }
  }

  lemma {:induction false} QuietMayTalk(p: Pipe, names: seq<Name>)
    requires Carries(p, names, false)
    ensures Carries(p, names, true)
  {
  }

  /** The client has just taken its next token off the pipe, which leaves v. */
  lemma {:induction false} ClientTokenKeeps(w: World, v: World)
    requires Inv(w) && ClientReads(w) && Told(w) < Answered(w)
    requires v == w.(down := v.down)
    requires Carries(v.down, Answers(w)[Told(w) + 1..Answered(w)], w.server.Serving?)
    ensures var u := ClientOnToken(v, Answers(w)[Told(w)]); Inv(u) && Told(u) == Told(w) + 1
    ensures var u := ClientOnToken(v, Answers(w)[Told(w)]); u.asked == w.asked && u.protos == w.protos
  {
    hide Carries, Find, ProtocolId, Na, ServerFine, Replies;
    assert Answers(v) == Answers(w) && Asks(v) == Asks(w);
    SameServer(w, v);
    match w.client {
      case AwaitHeader => SameServer(w, v.(client := AwaitFirst(true)));
      case AwaitFirst(_) => SameServer(w, v.(client := Join(true, Answers(w)[1])));
      case Await(i) =>
        hide OnReply;
        ReplyKeeps(v, i);
        assert Answers(w)[i + 1] == Reply(w.handlers, w.protos[i]);
    }
  }

  lemma {:induction false} ClientReadKeeps(w: World)
    requires Inv(w) && Enabled(w, ClientRead)
    ensures Inv(Next(w, ClientRead)) && Told(Next(w, ClientRead)) == Told(w) + 1
    ensures Next(w, ClientRead).protos == w.protos && Next(w, ClientRead).asked == w.asked
  {
    hide Carries, Find, ProtocolId, Na, Parse, ClientFine, ServerFine, Replies, ClientOnToken, Usable;
    var t, a := Told(w), Answered(w);
    var names := Answers(w)[t..a];
    if t == a {
      ClientBehind(w);
      assert names == [];
      NothingCarried(w.down);
    } else {
      assert names[0] == Answers(w)[t] && names[1..] == Answers(w)[t + 1..a];
      NextSendable(w);
      CarriedToken(w.down, names, w.server.Serving?);
      ClientTokenKeeps(w, w.(down := w.down.(sent := Parse(w.down.sent).rest)));
    }
  }

  lemma {:induction false} JoinKeeps(w: World)
    requires Inv(w) && Enabled(w, ClientJoin)
    ensures Inv(Next(w, ClientJoin)) && Told(Next(w, ClientJoin)) == Told(w)
  {
    hide Carries, Find, ProtocolId, Na;
    ReplyKeeps(w, 0);
  }

  lemma {:induction false} CommandFine(w: World, v: World)
    requires Usable(w.protos, w.handlers) && ServerFine(w) && w.server.Commands? && w.asked <= |w.protos| && w.down.pending == []
    requires v == w.(up := v.up, asked := w.asked + 1)
    ensures ServerFine(ServerOnToken(v, Asks(w)[w.asked]))
    ensures ServerOnToken(v, Asks(w)[w.asked]).down == Queue(w.down, Token(Answers(w)[w.asked]))
    ensures Answered(ServerOnToken(v, Asks(w)[w.asked])) == w.asked + 1
  {
    hide Find, ProtocolId, Na, Token, Usable, Replies;
    var name := w.protos[w.asked - 1];
    assert Asks(w)[w.asked] == name && Answers(w)[w.asked] == Reply(w.handlers, name);
  }

  /** The server has just taken its next token off the pipe, which leaves v. */
  lemma {:induction false} ServerTokenKeeps(w: World, v: World)
    requires Inv(w) && ServerReads(w) && w.asked < Asked(w)
    requires v == w.(up := v.up, asked := w.asked + 1)
    requires Carries(v.up, Asks(w)[v.asked..Asked(w)], w.client.Selected?)
    ensures Inv(ServerOnToken(v, Asks(w)[w.asked]))
    ensures var u := ServerOnToken(v, Asks(w)[w.asked]); u.asked == v.asked && u.protos == w.protos && Told(u) == Told(w)
  {
    hide Carries, Find, ProtocolId, Na, Replies, Token, ClientFine;
    var u := ServerOnToken(v, Asks(w)[w.asked]);
    assert Answers(u) == Answers(w) && Asks(u) == Asks(w);
    SameClient(w, u);
    if w.server.Commands? {
      CommandFine(w, v);
      hide ServerFine, ServerOnToken;
      var t, a := Told(w), w.asked;
      var names, answer := Answers(w)[t..a], Answers(w)[a];
      QueueKeeps(w.down, names, answer, u.server.Serving?);
      SliceNext(Answers(w), t, a);
    }
  }

  lemma SameClient(w: World, u: World)
    requires ClientFine(w) && u.client == w.client && u.protos == w.protos && u.handlers == w.handlers
    ensures ClientFine(u) && Told(u) == Told(w) && Asked(u) == Asked(w)
  {
  }

  lemma {:induction false} ServerReadKeeps(w: World)
    requires Inv(w) && Enabled(w, ServerRead)
    ensures Inv(Next(w, ServerRead)) && Next(w, ServerRead).asked == w.asked + 1
    ensures Next(w, ServerRead).protos == w.protos && Told(Next(w, ServerRead)) == Told(w)
  {
    hide Carries, Find, ProtocolId, Na, Parse, ClientFine, ServerFine, Replies, ServerOnToken, Usable;
    var r, a := w.asked, Asked(w);
    var names := Asks(w)[r..a];
    if r == a {
      ServerBehind(w);
      assert names == [];
      NothingCarried(w.up);
    } else {
      assert names[0] == Asks(w)[r] && names[1..] == Asks(w)[r + 1..a];
      NextSendable(w);
      CarriedToken(w.up, names, w.client.Selected?);
      ServerTokenKeeps(w, w.(up := w.up.(sent := Parse(w.up.sent).rest), asked := r + 1));
    }
  }

  lemma {:induction false} ServingHasRead(w: World)
    requires Inv(w) && w.server.Serving?
    ensures w.asked == Asked(w) && !w.client.NotSupported?
  {
  }

  lemma {:induction false} SelectedIsServed(w: World)
    requires Inv(w) && w.client.Selected?
    ensures w.server.Serving? && w.server.name == w.protos[w.client.i] && Told(w) == Answered(w)
  {
  }

  lemma {:induction false} PipesKeep(w: World, v: World)
    requires Inv(w) && v == w.(up := v.up, down := v.down)
    requires Carries(v.up, Asks(w)[w.asked..Asked(w)], w.client.Selected?)
    requires Carries(v.down, Answers(w)[Told(w)..Answered(w)], w.server.Serving?)
    ensures Inv(v) && Told(v) == Told(w)
  {
    hide Carries, Find, ProtocolId, Na, ClientFine, ServerFine, Replies, Usable;
    SameClient(w, v);
    SameServer(w, v);
    assert Asks(v) == Asks(w) && Answers(v) == Answers(w);
  }

  lemma {:induction false} TalkKeeps(w: World, s: Step)
    requires Inv(w) && Enabled(w, s) && !s.ClientRead? && !s.ClientJoin? && !s.ServerRead?
    ensures Inv(Next(w, s)) && Told(Next(w, s)) == Told(w)
  {
    hide Carries, Find, ProtocolId, Na, ClientFine, ServerFine, Replies, Parse, Usable;
    var up, down := Asks(w)[w.asked..Asked(w)], Answers(w)[Told(w)..Answered(w)];
    match s {
      case Push(true, n) => PushKeeps(w.up, n, up, w.client.Selected?);
      case Push(false, n) => PushKeeps(w.down, n, down, w.server.Serving?);
      case Say(true, data) => SayKeeps(w.up, data, up);
      case Say(false, data) => SayKeeps(w.down, data, down);
      case Hear(true, n) =>
        ServingHasRead(w);
        assert up == [];
        HearKeeps(w.up, n, w.client.Selected?);
      case Hear(false, n) =>
        SelectedIsServed(w);
        assert down == [];
        HearKeeps(w.down, n, w.server.Serving?);
    }
    PipesKeep(w, Next(w, s));
  }

  lemma SameServer(w: World, u: World)
    requires ServerFine(w) && u.server == w.server && u.asked == w.asked && u.protos == w.protos && u.handlers == w.handlers
    ensures ServerFine(u) && Answered(u) == Answered(w)
  {
  }

  lemma {:induction false} StepKeeps(w: World, s: Step)
    requires Inv(w) && Enabled(w, s)
    ensures Inv(Next(w, s)) && Next(w, s).protos == w.protos && Next(w, s).handlers == w.handlers
  {
    hide Inv, Parse, Find, Token, ProtocolId, Na;
    match s
    case ClientRead => ClientReadKeeps(w);
    case ClientJoin => JoinKeeps(w);
    case ServerRead => ServerReadKeeps(w);
    case _ => TalkKeeps(w, s);
  }

  // --- Whole runs --------------------------------------------------------------------------------

  ghost predicate Follows(w: World, v: World) {
    exists s :: Enabled(w, s) && v == Next(w, s)
  }

  /** Any interleaving of the steps of both sides, the channels and the applications. */
  ghost predicate Run(ws: seq<World>, protos: seq<Name>, handlers: seq<Handler>) {
    && protos != []
    && ws != []
    && ws[0] == Start(protos, handlers)
    && forall i :: 0 <= i < |ws| - 1 ==> Follows(ws[i], ws[i + 1])
  }

  lemma {:induction false} RunKeeps(ws: seq<World>, protos: seq<Name>, handlers: seq<Handler>, n: nat)
    requires Run(ws, protos, handlers) && Usable(protos, handlers) && n < |ws|
    ensures Inv(ws[n]) && ws[n].protos == protos && ws[n].handlers == handlers
  {
    hide Inv, Next, Enabled;
    if n == 0 {
      StartFine(protos, handlers);
    } else {
      RunKeeps(ws, protos, handlers, n - 1);
      assert Follows(ws[n - 1], ws[n - 1 + 1]);
      var s :| Enabled(ws[n - 1], s) && ws[n] == Next(ws[n - 1], s);
      StepKeeps(ws[n - 1], s);
    }
  }

  /** The first of the client's proposals that some handler matches. */
  function FirstSupported(protos: seq<Name>, handlers: seq<Handler>, i: nat := 0): (r: Option<nat>)
    requires i <= |protos|
    ensures match r
            case Some(k) => i <= k < |protos| && Find(handlers, protos[k]).Some? && forall j :: i <= j < k ==> Find(handlers, protos[j]).None?
            case None => forall j :: i <= j < |protos| ==> Find(handlers, protos[j]).None?
    decreases |protos| - i
  {
    if i == |protos| then None
    else if Find(handlers, protos[i]).Some? then Some(i)
    else FirstSupported(protos, handlers, i + 1)
  }

  lemma {:induction false} FirstIs(w: World, k: nat)
    requires k < |w.protos| && Refused(w, k) && Find(w.handlers, w.protos[k]).Some?
    ensures FirstSupported(w.protos, w.handlers) == Some(k)
  {
    var r := FirstSupported(w.protos, w.handlers);
  }

  ghost predicate Agreed(w: World, k: Option<nat>) {
    && !w.client.ClientError? && !w.server.ServerError? && !w.server.WrongVersion?
    && (w.client.Selected? ==> k == Some(w.client.i) && w.server.Serving?)
    && (w.client.NotSupported? ==> k == None)
    && (w.server.Serving? ==>
          && k.Some? && k.value < |w.protos|
          && w.server.name == w.protos[k.value]
          && Find(w.handlers, w.server.name) == Some(w.server.handler))
  }

  lemma {:induction false} InvAgrees(w: World)
    requires Inv(w)
    ensures Agreed(w, FirstSupported(w.protos, w.handlers))
  {
    hide Carries, Find, ProtocolId, Na, Replies, FirstSupported;
    if w.server.Serving? { FirstIs(w, w.asked - 2); }
    if w.client.Selected? {
      SelectedIsServed(w);
      FirstIs(w, w.client.i);
    }
  }

  /**
   * Both sides settle on the client's first supported proposal, served by the first handler that
   * matches it; or the client learns that there is none. Neither ever fails.
   */
  lemma {:induction false} Agreement(ws: seq<World>, protos: seq<Name>, handlers: seq<Handler>)
    requires Run(ws, protos, handlers) && Usable(protos, handlers)
    ensures forall w <- ws :: Agreed(w, FirstSupported(protos, handlers))
  {
    hide Agreed, Inv, FirstSupported;
    forall n | 0 <= n < |ws| ensures Agreed(ws[n], FirstSupported(protos, handlers)) {
      RunKeeps(ws, protos, handlers, n);
      InvAgrees(ws[n]);
    }
  }

  lemma {:induction false} AllHeard(p: Pipe)
    requires Carries(p, [], true)
    ensures p.said == p.heard + p.sent + p.pending
  {
    assert p.said == p.heard + (p.sent + p.pending);
  }

  /** Once the client has its protocol, either application has heard or will hear exactly what the other said. */
  lemma {:induction false} NoByteConsumed(ws: seq<World>, protos: seq<Name>, handlers: seq<Handler>)
    requires Run(ws, protos, handlers) && Usable(protos, handlers)
    ensures var w := ws[|ws| - 1];
            && w.up.heard <= w.up.said && w.down.heard <= w.down.said
            && (w.client.Selected? ==>
                  && w.up.said == w.up.heard + w.up.sent + w.up.pending
                  && w.down.said == w.down.heard + w.down.sent + w.down.pending)
  {
    var w := ws[|ws| - 1];
    RunKeeps(ws, protos, handlers, |ws| - 1);
    if w.client.Selected? {
      SelectedIsServed(w);
      ServingHasRead(w);
      assert Asks(w)[w.asked..Asked(w)] == [] && Answers(w)[Told(w)..Answered(w)] == [];
      AllHeard(w.up);
      AllHeard(w.down);
    }
  }

  /** Steps of the negotiation itself, not of the applications. */
  predicate Negotiates(s: Step) {
    !s.Say? && !s.Hear?
  }

  lemma {:induction false} SomeStep(w: World) returns (s: Step)
    requires Inv(w) && !w.client.Selected? && !w.client.NotSupported?
    ensures Negotiates(s) && Enabled(w, s)
  {
    hide Parse, Find, Carries, ProtocolId, Na, Replies, Usable;
    if w.up.pending != [] {
      s := Push(true, 1);
    } else if w.down.pending != [] {
      s := Push(false, 1);
    } else if w.client.Join? {
      s := ClientJoin;
    } else if Told(w) < Answered(w) {
      s := ClientRead;
      NextSendable(w);
      CarriedToken(w.down, Answers(w)[Told(w)..Answered(w)], w.server.Serving?);
    } else {
      s := ServerRead;
      ClientBehind(w);
      NextSendable(w);
      CarriedToken(w.up, Asks(w)[w.asked..Asked(w)], w.client.Selected?);
    }
  }

  /** Until the client has its outcome, some side can go on. */
  lemma {:induction false} NotStuck(ws: seq<World>, protos: seq<Name>, handlers: seq<Handler>)
    requires Run(ws, protos, handlers) && Usable(protos, handlers)
    requires !ws[|ws| - 1].client.Selected? && !ws[|ws| - 1].client.NotSupported?
    ensures exists s :: Negotiates(s) && Enabled(ws[|ws| - 1], s)
  {
    hide Inv, Enabled, Negotiates;
    RunKeeps(ws, protos, handlers, |ws| - 1);
    var s := SomeStep(ws[|ws| - 1]);
  }

  /** Tokens still to be read by either side; then bytes to push and the wait for the writer. */
  function TokensLeft(w: World): int {
    2 * (|w.protos| + 1) - w.asked - Told(w)
  }

  function Waiting(w: World): nat {
    |w.up.pending| + |w.down.pending| + if w.client.Join? then 1 + |Token(if |w.protos| > 1 then w.protos[1] else [])| else 0
  }

  lemma {:induction false} TokensBounded(w: World)
    requires Inv(w)
    ensures TokensLeft(w) >= 0
  {
  }

  /** Every step of the negotiation brings its end nearer, so that without application traffic it ends. */
  lemma {:induction false} StepsSettle(w: World, s: Step)
    requires Inv(w) && Enabled(w, s)
    ensures 0 <= TokensLeft(Next(w, s)) <= TokensLeft(w)
    ensures Negotiates(s) ==> TokensLeft(Next(w, s)) < TokensLeft(w) || Waiting(Next(w, s)) < Waiting(w)
  {
    hide Inv, Find, Parse, Token, ProtocolId, Na, ClientOnToken, ServerOnToken, OnJoin;
    StepKeeps(w, s);
    TokensBounded(Next(w, s));
    match s
    case ClientRead => ReadSettles(w, s);
    case ServerRead => ReadSettles(w, s);
    case ClientJoin => JoinSettles(w);
    case _ => TalkKeeps(w, s);
  }

  lemma {:induction false} ReadSettles(w: World, s: Step)
    requires Inv(w) && Enabled(w, s) && (s.ClientRead? || s.ServerRead?)
    ensures TokensLeft(Next(w, s)) < TokensLeft(w)
  {
    hide Inv, Next, Told, Enabled;
    if s.ClientRead? { ClientReadKeeps(w); } else { ServerReadKeeps(w); }
  }

  lemma {:induction false} JoinSettles(w: World)
    requires Inv(w) && Enabled(w, ClientJoin)
    ensures TokensLeft(Next(w, ClientJoin)) == TokensLeft(w) && Waiting(Next(w, ClientJoin)) < Waiting(w)
  {
    hide Inv, Find, Token, ProtocolId, Na;
    JoinKeeps(w);
  }
}
