/** The lazily negotiating connection under concurrent calls (multiformats/multistream/lazyClient.go). */
module LazyConn {
  import opened Words
  import opened Tokens
  import opened Negotiation

  /** The calls of users, and the two goroutines that calls start. */
  datatype Call = Read(k: nat) | Write(b: seq<Byte>) | Flush | Close | GoRead | GoWrite

  datatype Pc = AtWriteOnce | WriteOwner | AfterWrite(n: nat) | AtReadOnce | ReadOwner | AfterRead | Finished

  datatype Proc = Proc(call: Call, pc: Pc)

  /** sync.Once: not run, being run by a thread, or over. */
  datatype Once = Idle | Busy(owner: nat) | Over

  datatype ReadFailure = Unsupported(proto: Name) | Mismatch(proto: Name) | Malformed

  /** order is history: the threads whose data went out, in order. */
  datatype Out = Out(once: Once, pending: seq<Byte>, wire: seq<Byte>, order: seq<nat>)

  /** next is the loop index of the read handshake; arrived and delivered are history. */
  datatype In = In(once: Once, next: nat, failure: Option<ReadFailure>, inbox: seq<Byte>, arrived: seq<Byte>, delivered: seq<Byte>)

  datatype Conn = Conn(protos: seq<Name>, procs: seq<Proc>, o: Out, i: In, closed: bool)

  datatype Step = Begin(call: Call) | Arrive(bytes: seq<Byte>) | Thread(t: nat, n: nat)

  function New(protos: seq<Name>): Conn {
    Conn(protos, [], Out(Idle, [], [], []), In(Idle, 0, None, [], [], []), false)
  }

  function Entry(call: Call): Pc {
    if call.Read? || call.GoRead? then AtReadOnce else AtWriteOnce
  }

  function Extra(call: Call): seq<Byte> {
    if call.Write? then call.b else []
  }

  /** Where a call goes on after its write handshake; n is what the handshake wrote of its data. */
  function PastWrite(call: Call, n: nat): Pc {
    match call
    case Write(_) => AfterWrite(n)
    case Close => AtReadOnce
    case _ => Finished
  }

  function PastRead(call: Call): Pc {
    if call.GoRead? then Finished else AfterRead
  }

  function At(c: Conn, t: nat, pc: Pc): Conn
    requires t < |c.procs|
  {
    c.(procs := c.procs[t := c.procs[t].(pc := pc)])
  }

  function Spawn(c: Conn, call: Call): Conn {
    c.(procs := c.procs + [Proc(call, Entry(call))])
  }

  function Logged(order: seq<nat>, t: nat, b: seq<Byte>): seq<nat> {
    if b == [] then order else order + [t]
  }

  // --- Steps of one thread -----------------------------------------------------------------------

  function EnterWrite(c: Conn, t: nat): Conn
    requires t < |c.procs| && !c.o.once.Busy?
  {
    var call := c.procs[t].call;
    if c.o.once.Over? then At(c, t, PastWrite(call, 0))
    else
      var b := Extra(call);
      var d := At(c, t, WriteOwner).(o := Out(Busy(t), Stream(c.protos) + b, c.o.wire, Logged(c.o.order, t, b)));
      if call.GoWrite? then d else Spawn(d, GoRead)
  }

  function OwnWrite(c: Conn, t: nat, n: nat): Conn
    requires t < |c.procs| && n <= |c.o.pending|
  {
    if c.o.pending != [] then
      c.(o := c.o.(pending := c.o.pending[n..], wire := c.o.wire + c.o.pending[..n]))
    else
      At(c, t, PastWrite(c.procs[t].call, |Extra(c.procs[t].call)|)).(o := c.o.(once := Over))
  }

  function LeaveWrite(c: Conn, t: nat, n: nat): Conn
    requires t < |c.procs|
  {
    var b := Extra(c.procs[t].call);
    var d := At(c, t, Finished);
    if n > 0 then d else d.(o := c.o.(wire := c.o.wire + b, order := Logged(c.o.order, t, b)))
  }

  function EnterRead(c: Conn, t: nat): Conn
    requires t < |c.procs| && !c.i.once.Busy?
  {
    var call := c.procs[t].call;
    if c.i.once.Over? then At(c, t, PastRead(call))
    else
      var d := At(c, t, ReadOwner).(i := c.i.(once := Busy(t)));
      if call.Read? then Spawn(d, GoWrite) else d
  }

  /** doReadHandshake on its next token. */
  function OnToken(i: In, proto: Name): In
    requires !Parse(i.inbox).More?
  {
    match Parse(i.inbox)
    case Whole(tok, rest) =>
      var j := i.(inbox := rest);
      if tok == Na() then j.(failure := Some(Unsupported(proto)))
      else if tok != proto then j.(failure := Some(Mismatch(proto)))
      else j.(next := i.next + 1)
    case _ => i.(failure := Some(Malformed))
  }

  predicate ReadDone(c: Conn) {
    c.i.failure.Some? || c.i.next >= |c.protos|
  }

  function OwnRead(c: Conn, t: nat): Conn
    requires t < |c.procs| && (ReadDone(c) || !Parse(c.i.inbox).More?)
  {
    if ReadDone(c) then At(c, t, PastRead(c.procs[t].call)).(i := c.i.(once := Over))
    else c.(i := OnToken(c.i, c.protos[c.i.next]))
  }

  function LeaveRead(c: Conn, t: nat, n: nat): Conn
    requires t < |c.procs| && n <= |c.i.inbox|
  {
    var d := At(c, t, Finished);
    if c.procs[t].call.Close? then d.(closed := true)
    else if c.i.failure.Some? then d
    else d.(i := c.i.(inbox := c.i.inbox[n..], delivered := c.i.delivered + c.i.inbox[..n]))
  }

  /** Whether the thread can move; n is how much it writes or reads, where it does. */
  predicate Moves(c: Conn, t: nat, n: nat) {
    && t < |c.procs| && !c.closed
    && match c.procs[t].pc
       case AtWriteOnce => !c.o.once.Busy?
       case WriteOwner => c.o.pending == [] || 0 < n <= |c.o.pending|
       case AfterWrite(_) => true
       case AtReadOnce => !c.i.once.Busy?
       case ReadOwner => ReadDone(c) || !Parse(c.i.inbox).More?
       case AfterRead =>
         var call := c.procs[t].call;
         n <= |c.i.inbox| && (call.Read? && c.i.failure.None? ==> n <= call.k && (n == 0 ==> call.k == 0))
       case Finished => false
  }

  function ThreadStep(c: Conn, t: nat, n: nat): Conn
    requires Moves(c, t, n)
  {
    match c.procs[t].pc
    case AtWriteOnce => EnterWrite(c, t)
    case WriteOwner => OwnWrite(c, t, if c.o.pending == [] then 0 else n)
    case AfterWrite(m) => LeaveWrite(c, t, m)
    case AtReadOnce => EnterRead(c, t)
    case ReadOwner => OwnRead(c, t)
    case AfterRead => LeaveRead(c, t, n)
  }

  predicate Enabled(c: Conn, s: Step) {
    match s
    case Begin(call) => !call.GoRead? && !call.GoWrite?
    case Arrive(_) => true
    case Thread(t, n) => Moves(c, t, n)
  }

  function Next(c: Conn, s: Step): Conn
    requires Enabled(c, s)
  {
    match s
    case Begin(call) => Spawn(c, call)
    case Arrive(bytes) => c.(i := c.i.(inbox := c.i.inbox + bytes, arrived := c.i.arrived + bytes))
    case Thread(t, n) => ThreadStep(c, t, n)
  }

  // --- The write half ----------------------------------------------------------------------------

  predicate NoRepeats(order: seq<nat>) {
    forall a, b :: 0 <= a < b < |order| ==> order[a] != order[b]
  }

  /** The threads that went out are writes of something. */
  predicate Writers(procs: seq<Proc>, order: seq<nat>) {
    NoRepeats(order) && forall a :: 0 <= a < |order| ==> order[a] < |procs| && Extra(procs[order[a]].call) != []
  }

  /** Their data, in that order. */
  function Data(procs: seq<Proc>, order: seq<nat>): seq<Byte>
    requires Writers(procs, order)
  {
    if order == [] then [] else
      Data(procs, order[..|order| - 1]) + Extra(procs[order[|order| - 1]].call)
  }

  predicate WriteProc(p: Proc, t: nat, o: Out) {
    && (p.pc.WriteOwner? <==> o.once == Busy(t))
    && match p.pc
       case AtWriteOnce => Entry(p.call) == AtWriteOnce && t !in o.order
       case WriteOwner => Entry(p.call) == AtWriteOnce && (t in o.order <==> Extra(p.call) != [])
       case AfterWrite(n) => p.call.Write? && o.once.Over? && (n == 0 || n == |p.call.b|) && (t in o.order <==> n > 0)
       case Finished => Extra(p.call) != [] ==> t in o.order
       case _ => !p.call.Write? && !p.call.Flush? && !p.call.GoWrite?
  }

  predicate WriteProcs(procs: seq<Proc>, o: Out) {
    && (o.once.Busy? ==> o.once.owner < |procs|)
    && forall t :: 0 <= t < |procs| ==> WriteProc(procs[t], t, o)
  }

  /** The handshake once, then the data. */
  predicate Wire(protos: seq<Name>, procs: seq<Proc>, o: Out) {
    && Writers(procs, o.order)
    && if o.once.Idle? then o == Out(Idle, [], [], [])
       else o.wire + o.pending == Stream(protos) + Data(procs, o.order) && (o.once.Over? ==> o.pending == [])
  }

  predicate WriteInv(c: Conn) {
    WriteProcs(c.procs, c.o) && Wire(c.protos, c.procs, c.o)
  }

  /** Every thread of c still makes its call in d. */
  predicate SameCalls(procs: seq<Proc>, ps: seq<Proc>) {
    |procs| <= |ps| && forall t :: 0 <= t < |procs| ==> ps[t].call == procs[t].call
  }

  lemma {:induction false} DataKept(procs: seq<Proc>, ps: seq<Proc>, order: seq<nat>)
    requires Writers(procs, order) && SameCalls(procs, ps)
    ensures Writers(ps, order) && Data(ps, order) == Data(procs, order)
  {
    if order != [] {
      var last := order[|order| - 1];
      assert last in order;
      DataKept(procs, ps, order[..|order| - 1]);
    }
  }

  lemma {:induction false} DataLogged(procs: seq<Proc>, order: seq<nat>, t: nat)
    requires Writers(procs, order) && t < |procs| && t !in order
    ensures var b := Extra(procs[t].call);
            Writers(procs, Logged(order, t, b)) && Data(procs, Logged(order, t, b)) == Data(procs, order) + b
  {
    var b := Extra(procs[t].call);
    if b != [] {
      var more := order + [t];
      assert more[..|more| - 1] == order;
    }
  }

  lemma {:induction false} SpawnKeepsWrite(c: Conn, call: Call)
    requires WriteInv(c)
    ensures WriteInv(Spawn(c, call))
  {
    hide Stream, Data;
    var d := Spawn(c, call);
    assert |c.procs| !in c.o.order;
    DataKept(c.procs, d.procs, c.o.order);
  }

  lemma {:induction false} FirstWriteKeeps(c: Conn, t: nat, d: Conn)
    requires WriteInv(c) && t < |c.procs| && c.procs[t].pc.AtWriteOnce? && c.o.once.Idle?
    requires d.protos == c.protos && d.procs == c.procs[t := c.procs[t].(pc := WriteOwner)]
    requires var b := Extra(c.procs[t].call); d.o == Out(Busy(t), Stream(c.protos) + b, [], Logged([], t, b))
    ensures WriteInv(d)
  {
    hide Stream, Data, Writers;
    assert WriteProc(c.procs[t], t, c.o);
    DataLogged(c.procs, [], t);
    DataKept(c.procs, d.procs, d.o.order);
    DataNone(c.procs);
  }

  lemma {:induction false} EnterWriteKeeps(c: Conn, t: nat)
    requires WriteInv(c) && t < |c.procs| && c.procs[t].pc.AtWriteOnce? && !c.o.once.Busy?
    ensures WriteInv(EnterWrite(c, t))
  {
    hide Stream, Data, Writers;
    var call := c.procs[t].call;
    if c.o.once.Over? {
      assert WriteProc(c.procs[t], t, c.o);
      DataKept(c.procs, EnterWrite(c, t).procs, c.o.order);
    } else {
      var b := Extra(call);
      var d := At(c, t, WriteOwner).(o := Out(Busy(t), Stream(c.protos) + b, [], Logged([], t, b)));
      FirstWriteKeeps(c, t, d);
      hide WriteInv;
      if !call.GoWrite? { SpawnKeepsWrite(d, GoRead); }
    }
  }

  lemma DataNone(procs: seq<Proc>)
    ensures Writers(procs, []) && Data(procs, []) == []
  {
  }

  lemma {:induction false} OwnWriteKeeps(c: Conn, t: nat, n: nat)
    requires WriteInv(c) && t < |c.procs| && c.procs[t].pc.WriteOwner? && n <= |c.o.pending|
    ensures WriteInv(OwnWrite(c, t, n))
  {
    hide Stream, Data;
    var d := OwnWrite(c, t, n);
    assert WriteProc(c.procs[t], t, c.o);
    DataKept(c.procs, d.procs, c.o.order);
    assert c.o.pending == c.o.pending[..n] + c.o.pending[n..];
    assert c.o.pending != [] ==> d.o.wire + d.o.pending == c.o.wire + c.o.pending;
    assert c.o.wire + [] == c.o.wire;
  }

  lemma {:induction false} LeaveWriteKeeps(c: Conn, t: nat)
    requires WriteInv(c) && t < |c.procs| && c.procs[t].pc.AfterWrite?
    ensures WriteInv(LeaveWrite(c, t, c.procs[t].pc.n))
  {
    hide Stream, Data;
    var d := LeaveWrite(c, t, c.procs[t].pc.n);
    var b := Extra(c.procs[t].call);
    assert WriteProc(c.procs[t], t, c.o);
    if c.procs[t].pc.n == 0 { DataLogged(c.procs, c.o.order, t); }
    DataKept(c.procs, d.procs, d.o.order);
    assert d.o.wire + [] == d.o.wire && c.o.wire + [] == c.o.wire;
  }

  /** A thread moving among its read steps. */
  lemma {:induction false} ReadMoveKeepsWrite(c: Conn, t: nat, pc: Pc, d: Conn)
    requires WriteInv(c) && t < |c.procs| && (c.procs[t].pc.AtReadOnce? || c.procs[t].pc.ReadOwner? || c.procs[t].pc.AfterRead?)
    requires pc.ReadOwner? || pc.AfterRead? || pc.Finished?
    requires d.protos == c.protos && d.o == c.o && d.procs == c.procs[t := c.procs[t].(pc := pc)]
    ensures WriteInv(d)
  {
    hide Stream, Data;
    assert WriteProc(c.procs[t], t, c.o);
    DataKept(c.procs, d.procs, c.o.order);
  }

  // --- The read half -----------------------------------------------------------------------------

  predicate Legal(protos: seq<Name>) {
    forall j :: 0 <= j < |protos| ==> Sendable(protos[j]) && protos[j] != Na()
  }

  /** However the peer goes on, it has not sent the handshake. */
  ghost predicate Doomed(protos: seq<Name>, arrived: seq<Byte>) {
    Legal(protos) ==> forall more :: !(Stream(protos) <= arrived + more)
  }

  predicate ReadProcs(procs: seq<Proc>, i: In) {
    && (i.once.Busy? ==> i.once.owner < |procs|)
    && forall t :: 0 <= t < |procs| ==>
         (procs[t].pc.ReadOwner? <==> i.once == Busy(t)) && (procs[t].pc.AfterRead? ==> i.once.Over?)
  }

  ghost predicate Inbox(protos: seq<Name>, i: In) {
    && i.next <= |protos|
    && (i.once.Idle? ==> i.next == 0 && i.failure.None?)
    && (i.once.Over? ==> i.failure.Some? || i.next == |protos|)
    && (i.delivered != [] ==> i.once.Over? && i.failure.None?)
    && match i.failure
       case None => i.arrived == Stream(protos[..i.next]) + (i.delivered + i.inbox)
       case Some(f) =>
         && Doomed(protos, i.arrived)
         && i.next < |protos|
         && (f.Unsupported? ==> f.proto == protos[i.next] && Stream(protos[..i.next]) + Token(Na()) <= i.arrived)
  }

  ghost predicate ReadInv(c: Conn) {
    ReadProcs(c.procs, c.i) && Inbox(c.protos, c.i)
  }

  lemma {:induction false} StreamSplit(a: seq<Name>, b: seq<Name>)
    ensures Stream(a + b) == Stream(a) + Stream(b)
  {
    if a == [] {
      assert a + b == b;
    } else {
      assert a + b == [a[0]] + (a[1..] + b);
      StreamCons(a[0], a[1..] + b);
      StreamCons(a[0], a[1..]);
      assert [a[0]] + a[1..] == a;
      hide Token, Stream;
      StreamSplit(a[1..], b);
      Regroup(Token(a[0]), Stream(a[1..]), Stream(b));
    }
  }

  lemma StreamCons(name: Name, names: seq<Name>)
    ensures Stream([name] + names) == Token(name) + Stream(names)
  {
    assert ([name] + names)[1..] == names;
  }

  lemma {:induction false} CutFront(s: seq<Byte>, t: seq<Byte>, u: seq<Byte>, all: seq<Byte>) returns (tail: seq<Byte>)
    requires s + (t + u) <= s + all
    ensures all == t + (u + tail)
  {
    var w := t + u;
    assert (s + all)[..|s + w|] == s + w;
    assert all[..|w|] == (s + all)[|s|..|s| + |w|] == (s + w)[|s|..] == w;
    tail := all[|w|..];
    assert all == w + tail;
  }

  /** If the peer does send the handshake, the next token is the expected one. */
  lemma {:induction false} ExpectedToken(protos: seq<Name>, n: nat, inbox: seq<Byte>, more: seq<Byte>)
    requires Legal(protos) && n < |protos| && Stream(protos) <= Stream(protos[..n]) + (inbox + more)
    ensures Parse(inbox).More? || (Parse(inbox).Whole? && Parse(inbox).name == protos[n])
  {
    hide Stream, Parse, Token;
    var p, ps := protos[n], protos[n + 1..];
    assert protos == protos[..n] + ([p] + ps);
    StreamSplit(protos[..n], [p] + ps);
    StreamCons(p, ps);
    var tail := CutFront(Stream(protos[..n]), Token(p), Stream(ps), inbox + more);
    ParseArrived(p, Stream(ps) + tail, inbox, more);
  }

  lemma {:induction false} FailureIsFinal(protos: seq<Name>, i: In)
    requires Inbox(protos, i) && i.failure.None? && i.delivered == [] && i.next < |protos|
    requires !Parse(i.inbox).More? && OnToken(i, protos[i.next]).failure.Some?
    ensures Doomed(protos, i.arrived)
  {
    if Legal(protos) {
      forall more ensures !(Stream(protos) <= i.arrived + more) {
        if Stream(protos) <= i.arrived + more {
          assert i.delivered + i.inbox == i.inbox;
          Regroup(Stream(protos[..i.next]), i.inbox, more);
          ExpectedToken(protos, i.next, i.inbox, more);
        }
      }
    }
  }

  /** The arrived bytes with the token in front of the inbox taken off. */
  lemma {:induction false} TakeToken(protos: seq<Name>, n: nat, inbox: seq<Byte>)
    requires n < |protos| && Parse(inbox).Whole?
    ensures Stream(protos[..n]) + inbox == (Stream(protos[..n]) + Token(Parse(inbox).name)) + Parse(inbox).rest
    ensures Parse(inbox).name == protos[n] ==> Stream(protos[..n + 1]) == Stream(protos[..n]) + Token(protos[n])
  {
    ParsedBytes(inbox);
    hide Parse, Token, Stream;
    Regroup(Stream(protos[..n]), Token(Parse(inbox).name), Parse(inbox).rest);
    StreamAppend(protos[..n], protos[n]);
    assert protos[..n + 1] == protos[..n] + [protos[n]];
  }

  lemma {:induction false} TokenKeeps(protos: seq<Name>, i: In)
    requires Inbox(protos, i) && i.once.Busy? && i.failure.None? && i.next < |protos| && !Parse(i.inbox).More?
    ensures Inbox(protos, OnToken(i, protos[i.next]))
  {
    hide Parse, Token, Stream, Doomed;
    var j := OnToken(i, protos[i.next]);
    assert i.delivered + i.inbox == i.inbox && j.delivered + j.inbox == j.inbox;
    if j.failure.Some? { FailureIsFinal(protos, i); }
    if Parse(i.inbox).Whole? { TakeToken(protos, i.next, i.inbox); }
  }

  lemma {:induction false} ArriveKeeps(protos: seq<Name>, i: In, bytes: seq<Byte>)
    requires Inbox(protos, i)
    ensures Inbox(protos, i.(inbox := i.inbox + bytes, arrived := i.arrived + bytes))
  {
    hide Stream, Token;
    var s := Stream(protos[..i.next]);
    assert s + (i.delivered + i.inbox) + bytes == s + (i.delivered + (i.inbox + bytes));
    if i.failure.Some? && Legal(protos) {
      forall more ensures !(Stream(protos) <= i.arrived + bytes + more) {
        assert i.arrived + bytes + more == i.arrived + (bytes + more);
      }
    }
  }

  lemma {:induction false} DeliverKeeps(protos: seq<Name>, i: In, n: nat)
    requires Inbox(protos, i) && i.once.Over? && i.failure.None? && n <= |i.inbox|
    ensures Inbox(protos, i.(inbox := i.inbox[n..], delivered := i.delivered + i.inbox[..n]))
  {
    hide Stream;
    assert i.inbox == i.inbox[..n] + i.inbox[n..];
    assert i.delivered + i.inbox == (i.delivered + i.inbox[..n]) + i.inbox[n..];
  }

  lemma {:induction false} EnterReadKeeps(c: Conn, t: nat)
    requires ReadInv(c) && t < |c.procs| && c.procs[t].pc.AtReadOnce? && !c.i.once.Busy?
    ensures ReadInv(EnterRead(c, t))
  {
    hide Stream, Doomed, Token;
  }

  lemma {:induction false} OwnReadKeeps(c: Conn, t: nat)
    requires ReadInv(c) && t < |c.procs| && c.procs[t].pc.ReadOwner? && (ReadDone(c) || !Parse(c.i.inbox).More?)
    ensures ReadInv(OwnRead(c, t))
  {
    hide Stream, Doomed, Token, Parse;
    if !ReadDone(c) {
      TokenKeeps(c.protos, c.i);
      hide Inbox;
    }
  }

  lemma {:induction false} LeaveReadKeeps(c: Conn, t: nat, n: nat)
    requires ReadInv(c) && t < |c.procs| && c.procs[t].pc.AfterRead? && n <= |c.i.inbox|
    ensures ReadInv(LeaveRead(c, t, n))
  {
    hide Inbox;
    if !c.procs[t].call.Close? && c.i.failure.None? { DeliverKeeps(c.protos, c.i, n); }
  }

  /** A thread moving among its write steps, or starting. */
  lemma {:induction false} WriteMoveKeepsRead(c: Conn, d: Conn)
    requires ReadInv(c) && d.protos == c.protos && d.i == c.i && |c.procs| <= |d.procs|
    requires forall t :: 0 <= t < |c.procs| ==>
               d.procs[t] == c.procs[t] || !(c.procs[t].pc.ReadOwner? || d.procs[t].pc.ReadOwner? || d.procs[t].pc.AfterRead?)
    requires forall t :: |c.procs| <= t < |d.procs| ==> !d.procs[t].pc.ReadOwner? && !d.procs[t].pc.AfterRead?
    ensures ReadInv(d)
  {
    hide Inbox;
  }

  // --- Whole runs --------------------------------------------------------------------------------

  /** The handshake has been sent, is being sent, or some thread is about to send it. */
  ghost predicate Announced(c: Conn) {
    !c.o.once.Idle? || exists t :: 0 <= t < |c.procs| && c.procs[t].pc.AtWriteOnce?
  }

  ghost predicate Heralds(c: Conn) {
    && (c.i.once.Idle? || Announced(c))
    && (forall t :: 0 <= t < |c.procs| && c.procs[t].pc.AtReadOnce? && !c.procs[t].call.Read? ==> !c.o.once.Idle?)
    && (forall t :: 0 <= t < |c.procs| && c.procs[t].pc.Finished? ==> !c.o.once.Idle? || !c.i.once.Idle?)
  }

  ghost predicate Inv(c: Conn) {
    WriteInv(c) && ReadInv(c) && Heralds(c)
  }

  lemma {:induction false} WriteStepKeeps(c: Conn, t: nat, n: nat)
    requires Inv(c) && Moves(c, t, n)
    requires c.procs[t].pc.AtWriteOnce? || c.procs[t].pc.WriteOwner? || c.procs[t].pc.AfterWrite?
    ensures Inv(ThreadStep(c, t, n))
  {
    hide Stream, Wire, Inbox, WriteProc;
    var d := ThreadStep(c, t, n);
    assert WriteInv(d) by {
      match c.procs[t].pc
      case AtWriteOnce => EnterWriteKeeps(c, t);
      case WriteOwner => OwnWriteKeeps(c, t, if c.o.pending == [] then 0 else n);
      case AfterWrite(_) => LeaveWriteKeeps(c, t);
    }
    if !c.procs[t].pc.AtWriteOnce? { PastOnce(c, t); }
    WriteMoveKeepsRead(c, d);
  }

  lemma PastOnce(c: Conn, t: nat)
    requires WriteInv(c) && t < |c.procs| && (c.procs[t].pc.WriteOwner? || c.procs[t].pc.AfterWrite?)
    ensures !c.o.once.Idle?
  {
    assert WriteProc(c.procs[t], t, c.o);
  }

  lemma {:induction false} ReadStepKeeps(c: Conn, t: nat, n: nat)
    requires Inv(c) && Moves(c, t, n)
    requires c.procs[t].pc.AtReadOnce? || c.procs[t].pc.ReadOwner? || c.procs[t].pc.AfterRead?
    ensures Inv(ThreadStep(c, t, n))
  {
    hide Stream, Wire, Inbox, WriteProc, Parse, OnToken, WriteInv;
    var d := ThreadStep(c, t, n);
    assert ReadInv(d) by {
      match c.procs[t].pc
      case AtReadOnce => EnterReadKeeps(c, t);
      case ReadOwner => OwnReadKeeps(c, t);
      case AfterRead => LeaveReadKeeps(c, t, n);
    }
    ReadStepKeepsWrite(c, t, n);
    if c.o.once.Idle? {
      if c.i.once.Idle? {
        assert c.procs[t].pc.AtReadOnce? && d.procs[|c.procs|].pc.AtWriteOnce?;
      } else {
        var a :| 0 <= a < |c.procs| && c.procs[a].pc.AtWriteOnce?;
        assert d.procs[a] == c.procs[a];
      }
    }
  }

  lemma {:induction false} ReadStepKeepsWrite(c: Conn, t: nat, n: nat)
    requires WriteInv(c) && Moves(c, t, n)
    requires c.procs[t].pc.AtReadOnce? || c.procs[t].pc.ReadOwner? || c.procs[t].pc.AfterRead?
    ensures WriteInv(ThreadStep(c, t, n))
  {
    hide WriteInv, Parse, OnToken, Stream;
    var d := ThreadStep(c, t, n);
    match c.procs[t].pc {
      case AtReadOnce =>
        var pc := if c.i.once.Over? then PastRead(c.procs[t].call) else ReadOwner;
        var e := At(c, t, pc);
        ReadMoveKeepsWrite(c, t, pc, e);
        if c.i.once.Idle? && c.procs[t].call.Read? {
          SpawnKeepsWrite(e, GoWrite);
          SameWrite(Spawn(e, GoWrite), d);
        } else {
          SameWrite(e, d);
        }
      case ReadOwner =>
        if ReadDone(c) { ReadMoveKeepsWrite(c, t, PastRead(c.procs[t].call), d); } else { SameWrite(c, d); }
      case AfterRead => ReadMoveKeepsWrite(c, t, Finished, d);
    }
  }

  lemma SameWrite(c: Conn, d: Conn)
    requires WriteInv(c) && d.protos == c.protos && d.o == c.o && d.procs == c.procs
    ensures WriteInv(d)
  {
  }

  lemma {:induction false} StepKeeps(c: Conn, s: Step)
    requires Inv(c) && Enabled(c, s)
    ensures Inv(Next(c, s)) && Next(c, s).protos == c.protos
  {
    hide WriteInv, Inbox, Parse, Stream;
    var d := Next(c, s);
    match s {
      case Begin(call) =>
        SpawnKeepsWrite(c, call);
        WriteMoveKeepsRead(c, d);
      case Arrive(bytes) =>
        ArriveKeeps(c.protos, c.i, bytes);
        SameWrite(c, d);
      case Thread(t, n) =>
        hide Inv;
        match c.procs[t].pc
        case AtReadOnce => ReadStepKeeps(c, t, n);
        case ReadOwner => ReadStepKeeps(c, t, n);
        case AfterRead => ReadStepKeeps(c, t, n);
        case _ => WriteStepKeeps(c, t, n);
    }
  }

  ghost predicate Follows(c: Conn, d: Conn) {
    exists s :: Enabled(c, s) && d == Next(c, s)
  }

  /** Any interleaving of calls, their threads and arriving bytes. */
  ghost predicate Run(cs: seq<Conn>, protos: seq<Name>) {
    cs != [] && cs[0] == New(protos) && forall j :: 0 <= j < |cs| - 1 ==> Follows(cs[j], cs[j + 1])
  }

  lemma {:induction false} RunKeeps(cs: seq<Conn>, protos: seq<Name>, n: nat)
    requires Run(cs, protos) && n < |cs|
    ensures Inv(cs[n]) && cs[n].protos == protos
  {
    if n == 0 {
      assert Stream(protos[..0]) == [];
    } else {
      hide Inv, Enabled, Next;
      RunKeeps(cs, protos, n - 1);
      assert Follows(cs[n - 1], cs[n - 1 + 1]);
      var s :| Enabled(cs[n - 1], s) && cs[n] == Next(cs[n - 1], s);
      StepKeeps(cs[n - 1], s);
    }
  }

  /**
   * The wire carries the handshake once and then the data of the writes, each once and whole, in one
   * order; every write that has returned is among them.
   */
  lemma {:induction false} HandshakeThenData(cs: seq<Conn>, protos: seq<Name>, c: Conn)
    requires Run(cs, protos) && c == cs[|cs| - 1]
    ensures Writers(c.procs, c.o.order)
    ensures c.o.wire <= Stream(protos) + Data(c.procs, c.o.order)
    ensures c.o.once.Over? ==> c.o.wire == Stream(protos) + Data(c.procs, c.o.order)
    ensures forall t :: 0 <= t < |c.procs| && c.procs[t].pc.Finished? && Extra(c.procs[t].call) != [] ==> t in c.o.order
    ensures (exists t :: 0 <= t < |c.procs| && c.procs[t].pc.Finished?) ==> Announced(c)
  {
    hide Stream, Data, Inbox;
    RunKeeps(cs, protos, |cs| - 1);
    assert c.o.wire <= c.o.wire + c.o.pending;
    assert c.o.wire + [] == c.o.wire;
    forall t | 0 <= t < |c.procs| ensures WriteProc(c.procs[t], t, c.o) {}
  }

  /** Reads deliver exactly what followed the peer's handshake, and fail only if it sent another. */
  lemma {:induction false} ReadsFollowHandshake(cs: seq<Conn>, protos: seq<Name>, c: Conn)
    requires Run(cs, protos) && c == cs[|cs| - 1]
    ensures c.i.delivered != [] ==> Stream(protos) + c.i.delivered <= c.i.arrived
    ensures c.i.once.Over? && c.i.failure.None? ==> c.i.arrived == Stream(protos) + c.i.delivered + c.i.inbox
    ensures Legal(protos) && Stream(protos) <= c.i.arrived ==> c.i.failure.None?
    ensures c.i.failure.Some? && c.i.failure.value.Unsupported? ==>
              exists n :: 0 <= n < |protos| && c.i.failure.value.proto == protos[n] && Stream(protos[..n]) + Token(Na()) <= c.i.arrived
  {
    hide Stream, Token, WriteInv;
    RunKeeps(cs, protos, |cs| - 1);
    assert protos[..|protos|] == protos;
    assert c.i.arrived + [] == c.i.arrived;
    var s, d, b := Stream(protos), c.i.delivered, c.i.inbox;
    assert s + (d + b) == s + d + b;
  }

  /** Writing never waits for the peer: whoever runs the write handshake can go on. */
  lemma {:induction false} WritesDoNotWait(cs: seq<Conn>, protos: seq<Name>, c: Conn)
    requires Run(cs, protos) && c == cs[|cs| - 1] && !c.closed && c.o.once.Busy?
    ensures c.o.once.owner < |c.procs| && Moves(c, c.o.once.owner, 1)
    ensures var d := ThreadStep(c, c.o.once.owner, 1); |d.o.pending| < |c.o.pending| || d.o.once.Over?
  {
    hide Stream, Inbox;
    RunKeeps(cs, protos, |cs| - 1);
    assert WriteProc(c.procs[c.o.once.owner], c.o.once.owner, c.o);
  }

  lemma {:induction false} StepGrows(c: Conn, s: Step)
    requires Enabled(c, s)
    ensures c.o.order <= Next(c, s).o.order
  {
    hide Parse, Stream;
  }

  /** Data that is out stays first: a write begun after another returned comes after it. */
  lemma {:induction false} OrderOnlyGrows(cs: seq<Conn>, protos: seq<Name>, m: nat, n: nat)
    requires Run(cs, protos) && m <= n < |cs|
    ensures cs[m].o.order <= cs[n].o.order
  {
    hide Enabled, Next;
    if m < n {
      OrderOnlyGrows(cs, protos, m, n - 1);
      assert Follows(cs[n - 1], cs[n - 1 + 1]);
      var s :| Enabled(cs[n - 1], s) && cs[n] == Next(cs[n - 1], s);
      StepGrows(cs[n - 1], s);
    }
  }
}
