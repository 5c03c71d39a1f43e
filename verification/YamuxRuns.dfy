/** Life cycle and announcement of a stream, and the theorems over all runs. */
module YamuxRuns {
  import opened Words
  import opened YamuxLife
  import opened YamuxSystem
  import opened YamuxSafety

  // --- Life cycle --------------------------------------------------------------------------------

  predicate Cleans(t: Task) {
    match t
    case FinFlags(cleanup) => cleanup
    case FinSend(_, cleanup) => cleanup
    case RstSend => true
    case Cleanup => true
  }

  /** Someone is on the way to closeStream. */
  predicate CleanupPending(c: Control, rx: Rx) {
    (rx.RxBusy? && rx.cleanup) || exists t <- c.tasks :: Cleans(t)
  }

  /** Nothing has happened yet on a stream the acceptor has not heard of. */
  predicate Untouched(e: Endpoint) {
    && e.ctl.life == Life(SynReceived, Open, Open) && !e.ctl.inUse
    && e.rcv.pc.RFlags? && e.rcv.buf.data == [] && e.rcv.delivered == [] && e.rx.RxIdle?
  }

  predicate Tidy(e: Endpoint) {
    && Sound(e.ctl.life)
    && (e.ctl.life.state.Finished? ==> e.ctl.reg.Removed? || CleanupPending(e.ctl, e.rx))
    && (e.rx.RxBusy? && e.rx.cleanup ==> e.rx.stage.RstStage? || e.rx.stage.CleanStage?)
    && (e.ctl.reg.Absent? ==> Untouched(e))
    && (!e.ctl.inUse ==> e.ctl.tasks == [] && e.snd.pc.WIdle?)
  }

  /** A step of one endpoint as its stream's life cycle sees it. */
  predicate TidyStep(e: Endpoint, d: Endpoint) {
    && Tidy(d)
    && Evolves(e.ctl.life, d.ctl.life)
    && (e.ctl.reg.Removed? ==> d.ctl.reg.Removed?)
    && (d.ctl.reg.Absent? ==> e.ctl.reg.Absent?)
  }

  lemma {:induction false} FlagsTidy(e: Endpoint)
    requires Tidy(e) && e.rx.RxBusy?
    ensures TidyStep(e, ReceiveStep(e))
  {}

  lemma {:induction false} TaskTidy(e: Endpoint, i: nat, ok: bool)
    requires Tidy(e) && i < |e.ctl.tasks|
    ensures TidyStep(e, TaskStepOf(e, i, ok).e)
  {
    var d := TaskStepOf(e, i, ok).e;
    forall k | 0 <= k < |e.ctl.tasks| && k != i
      ensures e.ctl.tasks[k] in d.ctl.tasks
    {
      assert d.ctl.tasks[if k < i || |d.ctl.tasks| == |e.ctl.tasks| then k else k - 1] == e.ctl.tasks[k];
    }
    if Cleans(e.ctl.tasks[i]) && !e.ctl.tasks[i].Cleanup? {
      assert d.ctl.tasks[i] in d.ctl.tasks;
    }
  }

  lemma {:induction false} CloseTidy(e: Endpoint, act: Action)
    requires Tidy(e)
    ensures TidyStep(e, e.(ctl := CloseStep(e.ctl, act)))
  {
    var d := CloseStep(e.ctl, act);
    assert |d.tasks| > |e.ctl.tasks| ==> d.tasks[|d.tasks| - 1] in d.tasks;
  }

  lemma {:induction false} CalmTidy(cfg: Config, e: Endpoint, inbox: seq<Frame>, act: Action)
    requires Tidy(e)
    requires act.TakeFrame? || act.Shutdown? || act.WriteFlags? || act.WriteSend? || act.UpdateFlags?
    ensures TidyStep(e, Act(cfg, e, inbox, act).e)
  {}

  lemma {:induction false} DataTidy(cfg: Config, e: Endpoint, inbox: seq<Frame>, act: Action)
    requires Tidy(e)
    requires act.CheckWritable? || act.LoadWindow? || act.WriteSubtract? || act.CheckReadable? || act.ReadBytes?
             || act.UpdateGrow? || act.UpdateTune? || act.UpdateSend?
    ensures TidyStep(e, Act(cfg, e, inbox, act).e)
  {}

  lemma {:induction false} ActTidy(cfg: Config, e: Endpoint, inbox: seq<Frame>, act: Action)
    requires Tidy(e)
    ensures TidyStep(e, Act(cfg, e, inbox, act).e)
  {
    match act
    case RxStep => if e.rx.RxBusy? { FlagsTidy(e); }
    case TaskStep(i, ok) => if i < |e.ctl.tasks| { TaskTidy(e, i, ok); }
    case CloseWriteCall => CloseTidy(e, act);
    case CloseReadCall => CloseTidy(e, act);
    case ResetCall => CloseTidy(e, act);
    case TakeFrame(_) => CalmTidy(cfg, e, inbox, act);
    case Shutdown => CalmTidy(cfg, e, inbox, act);
    case WriteFlags => CalmTidy(cfg, e, inbox, act);
    case WriteSend(_, _) => CalmTidy(cfg, e, inbox, act);
    case UpdateFlags => CalmTidy(cfg, e, inbox, act);
    case _ => DataTidy(cfg, e, inbox, act);
  }

  // --- Announcement ------------------------------------------------------------------------------

  function ReaderFlags(r: Reader): Flags {
    if r.RGrow? || r.RTune? || r.RSend? then r.flags else NO_FLAGS
  }

  /** This endpoint holds no SYN that it might still send. */
  predicate SynFree(e: Endpoint) {
    && !e.ctl.life.state.Init?
    && !ReaderFlags(e.rcv.pc).syn
    && (e.snd.pc.WFlagged? ==> !e.snd.pc.flags.syn)
    && (forall t <- e.ctl.tasks :: t.FinSend? ==> !t.flags.syn)
  }

  /** The opener has not announced the stream yet. */
  predicate Announcing(e: Endpoint) {
    && !e.ctl.inUse
    && if e.ctl.life.state.Init? then e.rcv.pc.RFlags? else ReaderFlags(e.rcv.pc).syn
  }

  /** This endpoint will not send anything any more. */
  predicate Mute(e: Endpoint) {
    e.ctl.down || (!e.ctl.inUse && e.rcv.pc.RFailed?)
  }

  ghost predicate SynFreeAct(cfg: Config, e: Endpoint, inbox: seq<Frame>, act: Action) {
    var x := Act(cfg, e, inbox, act);
    SynFree(x.e) && forall f <- x.sent :: !f.flags.syn
  }

  lemma {:induction false} TaskSynFree(cfg: Config, e: Endpoint, inbox: seq<Frame>, act: Action)
    requires SynFree(e) && act.TaskStep?
    ensures SynFreeAct(cfg, e, inbox, act)
  {}

  lemma {:induction false} ReceiveSynFree(cfg: Config, e: Endpoint, inbox: seq<Frame>, act: Action)
    requires SynFree(e) && (act.RxStep? || act.TakeFrame?)
    ensures SynFreeAct(cfg, e, inbox, act)
  {}

  lemma {:induction false} CloseSynFree(cfg: Config, e: Endpoint, inbox: seq<Frame>, act: Action)
    requires SynFree(e) && (act.CloseWriteCall? || act.CloseReadCall? || act.ResetCall? || act.Shutdown?)
    ensures SynFreeAct(cfg, e, inbox, act)
  {}

  lemma {:induction false} LocalSynFree(cfg: Config, e: Endpoint, inbox: seq<Frame>, act: Action)
    requires SynFree(e) && !act.RxStep? && !act.TakeFrame? && !act.TaskStep?
    requires !act.CloseWriteCall? && !act.CloseReadCall? && !act.ResetCall? && !act.Shutdown?
    ensures SynFreeAct(cfg, e, inbox, act)
  {}

  lemma {:induction false} ActSynFree(cfg: Config, e: Endpoint, inbox: seq<Frame>, act: Action)
    requires SynFree(e)
    ensures SynFreeAct(cfg, e, inbox, act)
  {
    match act
    case RxStep => ReceiveSynFree(cfg, e, inbox, act);
    case TakeFrame(_) => ReceiveSynFree(cfg, e, inbox, act);
    case TaskStep(_, _) => TaskSynFree(cfg, e, inbox, act);
    case CloseWriteCall => CloseSynFree(cfg, e, inbox, act);
    case CloseReadCall => CloseSynFree(cfg, e, inbox, act);
    case ResetCall => CloseSynFree(cfg, e, inbox, act);
    case Shutdown => CloseSynFree(cfg, e, inbox, act);
    case _ => LocalSynFree(cfg, e, inbox, act);
  }

  lemma {:induction false} AnnouncingStep(cfg: Config, e: Endpoint, act: Action)
    requires Announcing(e) && Tidy(e) && e.rx.RxIdle?
    ensures var x := Act(cfg, e, [], act);
            && !x.taken && x.e.rx.RxIdle?
            && if x.sent == [] then Announcing(x.e) || (SynFree(x.e) && Mute(x.e))
               else |x.sent| == 1 && x.sent[0].flags.syn && SynFree(x.e)
  {}

  lemma {:induction false} MuteStep(cfg: Config, e: Endpoint, act: Action)
    requires Mute(e) && Tidy(e) && e.rx.RxIdle?
    ensures var x := Act(cfg, e, [], act);
            !x.taken && x.e.rx.RxIdle? && x.sent == [] && Mute(x.e)
  {}

  lemma {:induction false} AbsentStep(cfg: Config, e: Endpoint, inbox: seq<Frame>, act: Action)
    requires e.ctl.reg.Absent? && Tidy(e) && SynFree(e)
    requires inbox != [] ==> inbox[0].flags.syn
    ensures var x := Act(cfg, e, inbox, act);
            if x.taken then inbox != [] && !x.e.ctl.reg.Absent? && !x.e.rx.RxFailed?
            else x.sent == [] && x.e.ctl.reg.Absent?
  {}

  /** The first frame the acceptor sees is the only SYN, and it meets an unknown stream. */
  predicate Announced(s: System) {
    && SynFree(s.b)
    && (Announcing(s.a) || SynFree(s.a))
    && (forall f <- s.ba :: !f.flags.syn)
    && (forall i | 0 < i < |s.ab| :: !s.ab[i].flags.syn)
    && (Announcing(s.a) ==> s.ab == [] && s.b.ctl.reg.Absent?)
    && (s.ab != [] && s.ab[0].flags.syn ==> s.b.ctl.reg.Absent?)
    && (s.b.ctl.reg.Absent? ==>
          && s.ba == [] && s.a.rx.RxIdle?
          && if s.ab == [] then Announcing(s.a) || Mute(s.a) else s.ab[0].flags.syn)
  }

  lemma {:induction false} QuietBefore(cfg: Config, e: Endpoint, act: Action)
    requires e.rx.RxIdle?
    ensures !Act(cfg, e, [], act).taken && Act(cfg, e, [], act).e.rx.RxIdle?
  {
    hide SendFlags, CloseStep, RunTask, ShutdownStep;
  }

  lemma {:induction false} OpenerAnnounces(ca: Config, cb: Config, s: System, act: Action)
    requires Announced(s) && Tidy(s.a) && Tidy(s.b)
    ensures Announced(Step(ca, cb, s, Move(true, act)))
  {
    hide Act, Tidy, Mute;
    if Announcing(s.a) {
      AnnouncingStep(ca, s.a, act);
    } else {
      ActSynFree(ca, s.a, s.ba, act);
      if s.b.ctl.reg.Absent? { QuietBefore(ca, s.a, act); }
      if s.b.ctl.reg.Absent? && s.ab == [] { MuteStep(ca, s.a, act); }
    }
  }

  lemma {:induction false} AcceptorAnnounces(ca: Config, cb: Config, s: System, act: Action)
    requires Announced(s) && Tidy(s.a) && Tidy(s.b)
    ensures Announced(Step(ca, cb, s, Move(false, act)))
  {
    hide Act, Tidy, Mute;
    ActSynFree(cb, s.b, s.ab, act);
    ActTidy(cb, s.b, s.ab, act);
    if s.b.ctl.reg.Absent? { AbsentStep(cb, s.b, s.ab, act); }
  }

  // --- One direction of the stream ---------------------------------------------------------------

  /** Credit at the sender and on the way never exceeds the room at the receiver. */
  ghost predicate CreditFits(x: Endpoint, y: Endpoint, xy: seq<Frame>, yx: seq<Frame>) {
    Credit(x.snd, x.rx) + |Bytes(xy)| + Deltas(yx) <= Room(y.rcv, y.rx)
  }

  /** The receiver has what the sender accepted, less what is on the way; after removal, a prefix. */
  ghost predicate BytesAgree(accepted: seq<Byte>, y: Endpoint, xy: seq<Frame>) {
    if y.ctl.reg.Removed? then Received(y.rcv, y.rx) <= accepted
    else accepted == Received(y.rcv, y.rx) + Bytes(xy)
  }

  /** Granted so far less sent so far: the send window as a counter that cannot wrap. */
  function Allowance(w: Sender): int {
    INITIAL_STREAM_WINDOW + w.credited - |w.accepted|
  }

  ghost predicate Flow(x: Endpoint, y: Endpoint, xy: seq<Frame>, yx: seq<Frame>) {
    && CreditFits(x, y, xy, yx)
    && BytesAgree(x.snd.accepted, y, xy)
    && Allowance(x.snd) == Sub32(x.snd.window, Debt(x.snd.pc))
    && (forall f <- xy :: |Body(f)| < U32)
  }

  lemma {:induction false} SenderCredit(x: Endpoint, y: Endpoint, xy: seq<Frame>, yx: seq<Frame>, m: Effect)
    requires CreditFits(x, y, xy, yx) && Balanced(x, m, Kept(m, yx))
    ensures CreditFits(m.e, y, xy + m.sent, Rest(yx, m.taken))
  {
    LinkAppend(xy, m.sent);
  }

  lemma {:induction false} SenderBytes(accepted: seq<Byte>, y: Endpoint, xy: seq<Frame>, sent: seq<Frame>)
    requires BytesAgree(accepted, y, xy)
    ensures BytesAgree(accepted + Bytes(sent), y, xy + sent)
  {
    hide Bytes, Received;
    LinkAppend(xy, sent);
    if !y.ctl.reg.Removed? { Regroup(Received(y.rcv, y.rx), Bytes(xy), Bytes(sent)); }
  }

  lemma {:induction false} SenderTallies(x: Endpoint, m: Effect, got: Frame)
    requires Balanced(x, m, got) && Allowance(x.snd) == Sub32(x.snd.window, Debt(x.snd.pc))
    ensures Allowance(m.e.snd) == Sub32(m.e.snd.window, Debt(m.e.snd.pc))
  {
    hide Bytes;
  }

  lemma {:induction false} SenderFlows(x: Endpoint, y: Endpoint, xy: seq<Frame>, yx: seq<Frame>, m: Effect)
    requires Flow(x, y, xy, yx) && Balanced(x, m, Kept(m, yx))
    ensures Flow(m.e, y, xy + m.sent, Rest(yx, m.taken))
  {
    SenderCredit(x, y, xy, yx, m);
    SenderBytes(x.snd.accepted, y, xy, m.sent);
    SenderTallies(x, m, Kept(m, yx));
  }

  /** Only frames for a stream that is gone are dropped. */
  ghost predicate KeepsIfLive(m: Effect) {
    m.taken ==> !m.e.rx.RxFailed? && (m.e.rx.RxBusy? || m.e.ctl.reg.Removed?)
  }

  lemma {:induction false} ActKeepsIfLive(c: Config, y: Endpoint, xy: seq<Frame>, act: Action)
    requires xy != [] ==> (xy[0].flags.syn <==> y.ctl.reg.Absent?)
    ensures KeepsIfLive(Act(c, y, xy, act))
  {}

  lemma {:induction false} ReceiverBytes(x: Endpoint, y: Endpoint, xy: seq<Frame>, m: Effect)
    requires BytesAgree(x.snd.accepted, y, xy) && Balanced(y, m, Kept(m, xy)) && KeepsIfLive(m)
    requires y.ctl.reg.Removed? ==> m.e.ctl.reg.Removed? && Kept(m, xy) == NOTHING
    ensures BytesAgree(x.snd.accepted, m.e, Rest(xy, m.taken))
  {
    if !y.ctl.reg.Removed? && m.taken && xy != [] {
      assert Bytes(xy) == Body(xy[0]) + Bytes(xy[1..]);
    }
  }

  lemma {:induction false} ReceiverFlows(x: Endpoint, y: Endpoint, xy: seq<Frame>, yx: seq<Frame>, m: Effect)
    requires Flow(x, y, xy, yx) && Balanced(y, m, Kept(m, xy)) && KeepsIfLive(m)
    requires y.ctl.reg.Removed? ==> m.e.ctl.reg.Removed? && Kept(m, xy) == NOTHING
    ensures Flow(x, m.e, Rest(xy, m.taken), yx + m.sent)
  {
    ReceiverBytes(x, y, xy, m);
    LinkAppend(yx, m.sent);
    assert CreditFits(x, m.e, Rest(xy, m.taken), yx + m.sent);
  }

  lemma {:induction false} RemovedKeepsNothing(c: Config, y: Endpoint, xy: seq<Frame>, act: Action)
    requires y.ctl.reg.Removed?
    ensures Kept(Act(c, y, xy, act), xy) == NOTHING
  {}

  // --- Every run ---------------------------------------------------------------------------------

  ghost predicate Inv(ca: Config, cb: Config, s: System) {
    && Local(ca, s.a) && Local(cb, s.b)
    && Tidy(s.a) && Tidy(s.b)
    && Announced(s) && !s.a.ctl.reg.Absent?
    && !s.a.rx.RxFailed? && !s.b.rx.RxFailed?
    && Flow(s.a, s.b, s.ab, s.ba)
    && Flow(s.b, s.a, s.ba, s.ab)
  }

  lemma {:induction false} FlowSolvent(x: Endpoint, y: Endpoint, xy: seq<Frame>, yx: seq<Frame>)
    requires Flow(x, y, xy, yx)
    ensures Credit(x.snd, x.rx) < U32 && 0 <= Room(y.rcv, y.rx)
  {}

  lemma {:induction false} StepKeepsInv(ca: Config, cb: Config, s: System, m: Move)
    requires Inv(ca, cb, s)
    ensures Inv(ca, cb, Step(ca, cb, s, m))
  {
    FlowSolvent(s.a, s.b, s.ab, s.ba);
    FlowSolvent(s.b, s.a, s.ba, s.ab);
    if m.byOpener {
      ActSane(ca, s.a, s.ba, m.act);
      ActTidy(ca, s.a, s.ba, m.act);
      OpenerAnnounces(ca, cb, s, m.act);
      ActKeepsIfLive(ca, s.a, s.ba, m.act);
      if s.a.ctl.reg.Removed? { RemovedKeepsNothing(ca, s.a, s.ba, m.act); }
      SenderFlows(s.a, s.b, s.ab, s.ba, Act(ca, s.a, s.ba, m.act));
      ReceiverFlows(s.b, s.a, s.ba, s.ab, Act(ca, s.a, s.ba, m.act));
    } else {
      ActSane(cb, s.b, s.ab, m.act);
      ActTidy(cb, s.b, s.ab, m.act);
      AcceptorAnnounces(ca, cb, s, m.act);
      ActKeepsIfLive(cb, s.b, s.ab, m.act);
      if s.b.ctl.reg.Removed? { RemovedKeepsNothing(cb, s.b, s.ab, m.act); }
      SenderFlows(s.b, s.a, s.ba, s.ab, Act(cb, s.b, s.ab, m.act));
      ReceiverFlows(s.a, s.b, s.ab, s.ba, Act(cb, s.b, s.ab, m.act));
    }
  }

  lemma {:induction false} RunKeepsInv(ca: Config, cb: Config, moves: seq<Move>)
    requires ca.Verified() && cb.Verified()
    ensures Inv(ca, cb, Run(ca, cb, moves))
  {
    if moves != [] {
      RunKeepsInv(ca, cb, moves[..|moves| - 1]);
      StepKeepsInv(ca, cb, Run(ca, cb, moves[..|moves| - 1]), moves[|moves| - 1]);
    }
  }

  /** One direction as its users see it. */
  ghost predicate WithinWindow(cy: Config, x: Endpoint, y: Endpoint, xy: seq<Frame>, yx: seq<Frame>) {
    // credit at the sender, bytes under way and credit under way fit the receiver's free space
    && Sub32(x.snd.window, Debt(x.snd.pc)) + |Held(y.rx)| + |Bytes(xy)| + HeldDelta(x.rx) + Deltas(yx) + Promised(y.rcv.pc)
       <= y.rcv.buf.cap
    && y.rcv.buf.cap + |y.rcv.buf.data| <= y.rcv.window <= cy.maxWindow < U32
    // the receive loop has died neither of an overflow nor of a duplicate stream
    && !y.rx.RxFailed?
    // whenever no write is between sendMsg and its subtraction, the 32-bit counter is what was granted
    // less what was sent; in that gap it is still so modulo 2^32, once the subtraction is made
    && Sub32(x.snd.window, Debt(x.snd.pc)) == Allowance(x.snd)
    && (!x.snd.pc.WSent? ==> x.snd.window == Allowance(x.snd))
    // a frame that passed checkOverflow still fits when it is stored
    && (y.rx.RxBusy? && y.rx.stage.AppendStage? ==> |Body(y.rx.frame)| <= y.rcv.buf.cap)
  }

  lemma {:induction false} FlowControlSafety(ca: Config, cb: Config, moves: seq<Move>)
    requires ca.Verified() && cb.Verified()
    ensures var s := Run(ca, cb, moves);
            WithinWindow(cb, s.a, s.b, s.ab, s.ba) && WithinWindow(ca, s.b, s.a, s.ba, s.ab)
  {
    RunKeepsInv(ca, cb, moves);
  }

  /** Bytes come out as they went in; a stream still registered loses nothing. */
  lemma {:induction false} StreamIntegrity(ca: Config, cb: Config, moves: seq<Move>)
    requires ca.Verified() && cb.Verified()
    ensures var s := Run(ca, cb, moves);
            && s.b.rcv.delivered <= s.a.snd.accepted
            && s.a.rcv.delivered <= s.b.snd.accepted
            && (!s.b.ctl.reg.Removed? ==>
                  s.a.snd.accepted == s.b.rcv.delivered + s.b.rcv.buf.data + Held(s.b.rx) + Bytes(s.ab))
            && (!s.a.ctl.reg.Removed? ==>
                  s.b.snd.accepted == s.a.rcv.delivered + s.a.rcv.buf.data + Held(s.a.rx) + Bytes(s.ba))
  {
    RunKeepsInv(ca, cb, moves);
  }

  /** Finished means both halves left Open, and it is followed by removal from the session. */
  lemma {:induction false} FinishedIsRemoved(ca: Config, cb: Config, moves: seq<Move>)
    requires ca.Verified() && cb.Verified()
    ensures var s := Run(ca, cb, moves);
            forall e <- [s.a, s.b] ::
              && (e.ctl.life.state.Finished? <==> !e.ctl.life.rd.Open? && !e.ctl.life.wr.Open?)
              && (e.ctl.life.state.Finished? ==> e.ctl.reg.Removed? || CleanupPending(e.ctl, e.rx))
  {
    RunKeepsInv(ca, cb, moves);
  }

  function Side(s: System, opener: bool): Endpoint {
    if opener then s.a else s.b
  }

  function StepsLeft(t: Task): nat {
    match t
    case FinFlags(_) => 3
    case FinSend(_, _) => 2
    case RstSend => 2
    case Cleanup => 1
  }

  /** Steps of one side's pending calls and receive loop; ok says whether their frames get through. */
  predicate OwnSteps(moves: seq<Move>, opener: bool, ok: bool) {
    forall m <- moves :: m.byOpener == opener && (m.act.RxStep? || (m.act.TaskStep? && m.act.ok == ok))
  }

  lemma {:induction false} RunMore(ca: Config, cb: Config, moves: seq<Move>, m: Move)
    ensures Run(ca, cb, moves + [m]) == Step(ca, cb, Run(ca, cb, moves), m)
  {
    assert (moves + [m])[..|moves|] == moves;
  }

  lemma {:induction false} TaskLeaves(ca: Config, cb: Config, moves: seq<Move>, opener: bool, ok: bool, i: nat)
    returns (more: seq<Move>)
    requires var e := Side(Run(ca, cb, moves), opener); i < |e.ctl.tasks| && Cleans(e.ctl.tasks[i])
    ensures |more| <= 3 && OwnSteps(more, opener, ok)
    ensures |more| <= StepsLeft(Side(Run(ca, cb, moves), opener).ctl.tasks[i])
    ensures Side(Run(ca, cb, moves + more), opener).ctl.reg.Removed?
    decreases StepsLeft(Side(Run(ca, cb, moves), opener).ctl.tasks[i])
  {
    var m := Move(opener, TaskStep(i, ok));
    RunMore(ca, cb, moves, m);
    hide Run;
    more := [m];
    if !Side(Run(ca, cb, moves), opener).ctl.tasks[i].Cleanup? {
      var rest := TaskLeaves(ca, cb, moves + [m], opener, ok, i);
      more := [m] + rest;
      assert moves + more == (moves + [m]) + rest;
    }
  }

  lemma {:induction false} ReceiverLeaves(ca: Config, cb: Config, moves: seq<Move>, opener: bool)
    returns (more: seq<Move>)
    requires var rx := Side(Run(ca, cb, moves), opener).rx;
             rx.RxBusy? && rx.cleanup && (rx.stage.RstStage? || rx.stage.CleanStage?)
    ensures |more| <= 2 && OwnSteps(more, opener, true) && OwnSteps(more, opener, false)
    ensures Side(Run(ca, cb, moves + more), opener).ctl.reg.Removed?
  {
    var m := Move(opener, RxStep);
    RunMore(ca, cb, moves, m);
    hide Run;
    more := [m];
    if Side(Run(ca, cb, moves), opener).rx.stage.RstStage? {
      RunMore(ca, cb, moves + [m], m);
      more := [m, m];
      assert moves + more == (moves + [m]) + [m];
    }
  }

  /** After any run, at most three steps of its own take a finished stream out of its session: the
      peer need not move, and the frames of the closing calls may be lost. */
  lemma {:induction false} FinishedLeaves(ca: Config, cb: Config, moves: seq<Move>, opener: bool, ok: bool)
    returns (more: seq<Move>)
    requires ca.Verified() && cb.Verified()
    requires Side(Run(ca, cb, moves), opener).ctl.life.state.Finished?
    ensures |more| <= 3 && OwnSteps(more, opener, ok)
    ensures Side(Run(ca, cb, moves + more), opener).ctl.reg.Removed?
  {
    var e := Side(Run(ca, cb, moves), opener);
    assert Tidy(e) by { RunKeepsInv(ca, cb, moves); }
    hide Run;
    if e.ctl.reg.Removed? {
      more := [];
      assert moves + more == moves;
    } else if e.rx.RxBusy? && e.rx.cleanup {
      more := ReceiverLeaves(ca, cb, moves, opener);
    } else {
      var i :| 0 <= i < |e.ctl.tasks| && Cleans(e.ctl.tasks[i]);
      more := TaskLeaves(ca, cb, moves, opener, ok, i);
    }
  }

  // --- Segments ----------------------------------------------------------------------------------

  function Total(segs: seq<nat>): nat {
    if segs == [] then 0 else segs[0] + Total(segs[1..])
  }

  lemma {:induction false} TotalAppend(segs: seq<nat>, n: nat)
    ensures Total(segs + [n]) == Total(segs) + n
  {
    if segs == [] {
      assert segs + [n] == [n] && [n][1..] == [];
    } else {
      assert (segs + [n])[1..] == segs[1..] + [n];
      TotalAppend(segs[1..], n);
    }
  }

  /** The segments are the buffered bytes, and none is empty. */
  predicate Segmented(e: Endpoint) {
    && Total(e.rcv.segs) == |e.rcv.buf.data| && (forall n <- e.rcv.segs :: n > 0)
    && (e.rx.RxBusy? && e.rx.stage.AppendStage? ==> Body(e.rx.frame) != [])
  }

  lemma {:induction false} ReadSegmented(r: Receiver, n: nat)
    requires Total(r.segs) == |r.buf.data| && forall m <- r.segs :: m > 0
    ensures var q := ReadStep(r, n); Total(q.segs) == |q.buf.data| && forall m <- q.segs :: m > 0
  {
    var q := ReadStep(r, n);
    if r.segs != [] && q.segs != r.segs {
      assert |q.segs| == |r.segs| ==> q.segs[1..] == r.segs[1..];
      forall i | 0 <= i < |q.segs| ensures q.segs[i] > 0 {
        assert r.segs[if |q.segs| == |r.segs| then i else i + 1] in r.segs;
      }
    }
  }

  lemma {:induction false} BodySegmented(e: Endpoint)
    requires Segmented(e) && e.rx.RxBusy?
    ensures Segmented(BodyStep(e))
  {
    TotalAppend(e.rcv.segs, |Body(e.rx.frame)|);
  }

  lemma {:induction false} ActSegmented(cfg: Config, e: Endpoint, inbox: seq<Frame>, act: Action)
    requires Segmented(e)
    ensures Segmented(Act(cfg, e, inbox, act).e)
  {
    hide Total, SendFlags, CloseStep, RunTask, ShutdownStep;
    if act.ReadBytes? {
      ReadSegmented(e.rcv, act.n);
      hide ReadStep;
    } else if act.RxStep? && e.rx.RxBusy? {
      BodySegmented(e);
      hide BodyStep;
    }
  }

  /** After any run a buffer is empty exactly if it has no segments, so a read never gets stuck on bytes. */
  lemma {:induction false} RunSegmented(ca: Config, cb: Config, moves: seq<Move>)
    ensures var s := Run(ca, cb, moves); Segmented(s.a) && Segmented(s.b)
  {
    if moves != [] {
      var before, m := moves[..|moves| - 1], moves[|moves| - 1];
      RunSegmented(ca, cb, before);
      var s := Run(ca, cb, before);
      hide Act, Segmented;
      if m.byOpener { ActSegmented(ca, s.a, s.ba, m.act); } else { ActSegmented(cb, s.b, s.ab, m.act); }
    }
  }

  /** A half that has left Open at some point of a run has the same state ever after. */
  lemma {:induction false} HalvesSettle(ca: Config, cb: Config, moves: seq<Move>, k: nat)
    requires ca.Verified() && cb.Verified() && k <= |moves|
    ensures var (s, t) := (Run(ca, cb, moves[..k]), Run(ca, cb, moves));
            Evolves(s.a.ctl.life, t.a.ctl.life) && Evolves(s.b.ctl.life, t.b.ctl.life)
    decreases |moves|
  {
    if k == |moves| {
      assert moves[..k] == moves;
    } else {
      var before := moves[..|moves| - 1];
      assert before[..k] == moves[..k];
      HalvesSettle(ca, cb, before, k);
      RunKeepsInv(ca, cb, before);
      var s := Run(ca, cb, before);
      ActTidy(ca, s.a, s.ba, moves[|moves| - 1].act);
      ActTidy(cb, s.b, s.ab, moves[|moves| - 1].act);
    }
  }
}
