/** Runs put together step by step: a stream is opened, fed, drained and granted new credit. */
module YamuxPaths {
  import opened Words
  import opened YamuxBuffer
  import opened YamuxLife
  import opened YamuxSystem
  import opened YamuxStall

  /** t is reached from s by moves whose window updates all get through. */
  ghost predicate Reaches(ca: Config, cb: Config, s: System, t: System) {
    exists moves :: AllLossless(moves) && Exec(ca, cb, s, moves) == t
  }

  lemma Here(ca: Config, cb: Config, s: System)
    ensures Reaches(ca, cb, s, s)
  {
    assert AllLossless([]) && Exec(ca, cb, s, []) == s;
  }

  lemma {:induction false} Next(ca: Config, cb: Config, s: System, t: System, m: Move)
    requires Reaches(ca, cb, s, t) && Lossless(m.act)
    ensures Reaches(ca, cb, s, Step(ca, cb, t, m))
  {
    hide Step;
    var moves :| AllLossless(moves) && Exec(ca, cb, s, moves) == t;
    assert (moves + [m])[..|moves|] == moves;
    assert AllLossless(moves + [m]) && Exec(ca, cb, s, moves + [m]) == Step(ca, cb, t, m);
  }

  // --- Exchanging the roles ----------------------------------------------------------------------

  function Swap(s: System): System {
    System(s.b, s.a, s.ba, s.ab)
  }

  function Flip(m: Move): Move {
    m.(byOpener := !m.byOpener)
  }

  /** Once the stream exists the protocol no longer tells the opener from the acceptor. */
  lemma {:induction false} SwapExec(ca: Config, cb: Config, s: System, moves: seq<Move>)
    requires AllLossless(moves)
    ensures Reaches(cb, ca, Swap(s), Swap(Exec(ca, cb, s, moves)))
  {
    if moves == [] {
      Here(cb, ca, Swap(s));
    } else {
      var before, m := moves[..|moves| - 1], moves[|moves| - 1];
      hide Reaches, Act;
      SwapExec(ca, cb, s, before);
      Next(cb, ca, Swap(s), Swap(Exec(ca, cb, s, before)), Flip(m));
    }
  }

  lemma {:induction false} SwapReaches(ca: Config, cb: Config, s0: System, s: System, t: System)
    requires Reaches(ca, cb, s0, s) && Reaches(cb, ca, Swap(s), t)
    ensures Reaches(ca, cb, s0, Swap(t))
  {
    var moves :| AllLossless(moves) && Exec(cb, ca, Swap(s), moves) == t;
    SwapExec(cb, ca, Swap(s), moves);
    assert Swap(Swap(s)) == s;
    Join(ca, cb, s0, s, Swap(t));
  }

  lemma {:induction false} Join(ca: Config, cb: Config, s: System, t: System, u: System)
    requires Reaches(ca, cb, s, t) && Reaches(ca, cb, t, u)
    ensures Reaches(ca, cb, s, u)
  {
    hide Step;
    var moves :| AllLossless(moves) && Exec(ca, cb, t, moves) == u;
    JoinExec(ca, cb, s, t, moves);
  }

  lemma {:induction false} JoinExec(ca: Config, cb: Config, s: System, t: System, moves: seq<Move>)
    requires Reaches(ca, cb, s, t) && AllLossless(moves)
    ensures Reaches(ca, cb, s, Exec(ca, cb, t, moves))
  {
    if moves != [] {
      var before, m := moves[..|moves| - 1], moves[|moves| - 1];
      hide Reaches, Step;
      JoinExec(ca, cb, s, t, before);
      Next(ca, cb, s, Exec(ca, cb, t, before), m);
    }
  }

  /** An endpoint of an established stream that is open both ways and between two frames. */
  predicate Easy(e: Endpoint) {
    e.ctl == Control(Live, false, Life(Established, Open, Open), true, []) && e.rx.RxIdle?
  }

  /** Nothing under way or buffered, and neither the writer nor the reader inside a call. */
  predicate AtRest(s: System) {
    && s.ab == [] && s.ba == [] && Easy(s.a) && Easy(s.b)
    && s.a.snd.pc.WIdle? && s.b.rcv.pc.RIdle?
    && s.b.rcv.buf.data == [] && s.b.rcv.segs == []
  }

  function Zeros(n: nat): (b: seq<Byte>)
    ensures |b| == n
  {
    seq(n, _ => 0)
  }

  lemma {:induction false} OpenerDoes(ca: Config, cb: Config, s0: System, s: System, act: Action, x: Effect)
    returns (t: System)
    requires Reaches(ca, cb, s0, s) && Lossless(act) && Act(ca, s.a, s.ba, act) == x
    ensures Reaches(ca, cb, s0, t) && t == System(x.e, s.b, s.ab + x.sent, Rest(s.ba, x.taken))
  {
    hide Reaches, Act;
    Next(ca, cb, s0, s, Move(true, act));
    t := Step(ca, cb, s, Move(true, act));
  }

  lemma {:induction false} AcceptorDoes(ca: Config, cb: Config, s0: System, s: System, act: Action, x: Effect)
    returns (t: System)
    requires Reaches(ca, cb, s0, s) && Lossless(act) && Act(cb, s.b, s.ab, act) == x
    ensures Reaches(ca, cb, s0, t) && t == System(s.a, x.e, Rest(s.ab, x.taken), s.ba + x.sent)
  {
    hide Reaches, Act;
    Next(ca, cb, s0, s, Move(false, act));
    t := Step(ca, cb, s, Move(false, act));
  }

  // --- Sending -----------------------------------------------------------------------------------

  lemma {:induction false} WriteOne(cfg: Config, e: Endpoint, inbox: seq<Frame>, b: seq<Byte>)
    requires e.snd.pc.WFlagged? && !e.ctl.down && |b| <= e.snd.pc.window && |b| <= cfg.maxMessage - HEADER_SIZE
    ensures Act(cfg, e, inbox, WriteSend(b, true))
         == Effect(e.(snd := e.snd.(pc := WSent(|b|), accepted := e.snd.accepted + b)), [Data(e.snd.pc.flags, b)], false)
  {
    assert Wrap32(|b|) == |b|;
    assert b[..|b|] == b;
  }

  /** The opener hands one frame of n bytes to the session, and has not yet subtracted its length. */
  lemma {:induction false} SendOut(ca: Config, cb: Config, s0: System, s: System, n: Word) returns (t: System)
    requires Reaches(ca, cb, s0, s) && s.ab == [] && Easy(s.a) && s.a.snd.pc.WIdle?
    requires 0 < n <= s.a.snd.window && n <= ca.maxMessage - HEADER_SIZE
    ensures Reaches(ca, cb, s0, t)
    ensures t == s.(a := s.a.(snd := s.a.snd.(pc := WSent(n), accepted := s.a.snd.accepted + Zeros(n))),
                    ab := [Data(NO_FLAGS, Zeros(n))])
  {
    hide Reaches;
    var e, w := s.a, s.a.snd.window;
    t := OpenerDoes(ca, cb, s0, s, CheckWritable, Stay(e.(snd := e.snd.(pc := WChecked))));
    t := OpenerDoes(ca, cb, s0, t, LoadWindow, Stay(e.(snd := e.snd.(pc := WLoaded(w)))));
    t := OpenerDoes(ca, cb, s0, t, WriteFlags, Stay(e.(snd := e.snd.(pc := WFlagged(w, NO_FLAGS)))));
    WriteOne(ca, t.a, t.ba, Zeros(n));
    t := OpenerDoes(ca, cb, s0, t, WriteSend(Zeros(n), true), Act(ca, t.a, t.ba, WriteSend(Zeros(n), true)));
  }

  lemma {:induction false} WriteOut(ca: Config, cb: Config, s0: System, s: System, n: Word) returns (t: System)
    requires Reaches(ca, cb, s0, s) && s.ab == [] && Easy(s.a) && s.a.snd.pc.WIdle?
    requires 0 < n <= s.a.snd.window && n <= ca.maxMessage - HEADER_SIZE
    ensures Reaches(ca, cb, s0, t)
    ensures t == s.(a := s.a.(snd := s.a.snd.(window := s.a.snd.window - n, accepted := s.a.snd.accepted + Zeros(n))),
                    ab := [Data(NO_FLAGS, Zeros(n))])
  {
    hide Reaches;
    t := SendOut(ca, cb, s0, s, n);
    t := OpenerDoes(ca, cb, s0, t, WriteSubtract,
                    Stay(t.a.(snd := t.a.snd.(window := t.a.snd.window - n, pc := WIdle))));
  }

  /** Processing the flags of a frame without FIN and RST, up to its body. */
  lemma {:induction false} FlagsPass(cfg: Config, e: Endpoint, inbox: seq<Frame>, stage: Stage, f: Frame)
    requires !f.flags.fin && !f.flags.rst
    requires e.rx == RxBusy(stage, f, false)
    requires stage.AckStage? || stage.FinStage? || stage.RstStage? || stage.CleanStage?
    ensures Act(cfg, e, inbox, RxStep)
         == Stay(e.(ctl := if stage.AckStage? then Acked(e.ctl, f) else e.ctl, rx := RxBusy(After(stage), f, false)))
  {}

  function Acked(c: Control, f: Frame): Control {
    if f.flags.ack then c.(life := OnAck(c.life)) else c
  }

  function After(stage: Stage): Stage {
    match stage
    case AckStage => FinStage
    case FinStage => RstStage
    case RstStage => CleanStage
    case CleanStage => BodyStage
    case _ => AppendStage
  }

  lemma {:induction false} AcceptorTakes(ca: Config, cb: Config, s0: System, s: System, f: Frame) returns (t: System)
    requires Reaches(ca, cb, s0, s) && s.ab == [f] && !f.flags.fin && !f.flags.rst
    requires if f.flags.syn then s.b.ctl.reg.Absent? else s.b.ctl.reg.Live?
    requires !s.b.ctl.down && s.b.rx.RxIdle?
    ensures Reaches(ca, cb, s0, t)
    ensures t == s.(b := s.b.(ctl := Acked(s.b.ctl.(reg := Live), f), rx := RxBusy(BodyStage, f, false)), ab := [])
  {
    hide Reaches;
    var e := s.b.(ctl := s.b.ctl.(reg := Live), rx := RxBusy(AckStage, f, false));
    t := AcceptorDoes(ca, cb, s0, s, TakeFrame(true), Effect(e, [], true));
    FlagsPass(cb, t.b, t.ab, AckStage, f);
    t := AcceptorDoes(ca, cb, s0, t, RxStep, Act(cb, t.b, t.ab, RxStep));
    FlagsPass(cb, t.b, t.ab, FinStage, f);
    t := AcceptorDoes(ca, cb, s0, t, RxStep, Act(cb, t.b, t.ab, RxStep));
    FlagsPass(cb, t.b, t.ab, RstStage, f);
    t := AcceptorDoes(ca, cb, s0, t, RxStep, Act(cb, t.b, t.ab, RxStep));
    FlagsPass(cb, t.b, t.ab, CleanStage, f);
    t := AcceptorDoes(ca, cb, s0, t, RxStep, Act(cb, t.b, t.ab, RxStep));
  }

  lemma {:induction false} OpenerTakes(ca: Config, cb: Config, s0: System, s: System, f: Frame) returns (t: System)
    requires Reaches(ca, cb, s0, s) && s.ba == [f] && !f.flags.syn && !f.flags.fin && !f.flags.rst
    requires s.a.ctl.reg.Live? && !s.a.ctl.down && s.a.rx.RxIdle?
    ensures Reaches(ca, cb, s0, t)
    ensures t == s.(a := s.a.(ctl := Acked(s.a.ctl, f), rx := RxBusy(BodyStage, f, false)), ba := [])
  {
    hide Reaches;
    var e := s.a.(rx := RxBusy(AckStage, f, false));
    t := OpenerDoes(ca, cb, s0, s, TakeFrame(true), Effect(e, [], true));
    FlagsPass(ca, t.a, t.ba, AckStage, f);
    t := OpenerDoes(ca, cb, s0, t, RxStep, Act(ca, t.a, t.ba, RxStep));
    FlagsPass(ca, t.a, t.ba, FinStage, f);
    t := OpenerDoes(ca, cb, s0, t, RxStep, Act(ca, t.a, t.ba, RxStep));
    FlagsPass(ca, t.a, t.ba, RstStage, f);
    t := OpenerDoes(ca, cb, s0, t, RxStep, Act(ca, t.a, t.ba, RxStep));
    FlagsPass(ca, t.a, t.ba, CleanStage, f);
    t := OpenerDoes(ca, cb, s0, t, RxStep, Act(ca, t.a, t.ba, RxStep));
  }

  // --- Buffering and reading ---------------------------------------------------------------------

  /** A frame of n bytes arrives and is buffered. */
  lemma {:induction false} BufferIn(ca: Config, cb: Config, s0: System, s: System, n: Word) returns (t: System)
    requires Reaches(ca, cb, s0, s) && Easy(s.b) && s.ab == [Data(NO_FLAGS, Zeros(n))]
    requires 0 < n <= s.b.rcv.buf.cap && s.b.rcv.buf.data == [] && s.b.rcv.segs == []
    ensures Reaches(ca, cb, s0, t)
    ensures t == s.(b := s.b.(rcv := s.b.rcv.(buf := Buf(s.b.rcv.buf.cap - n, Zeros(n)), segs := [n])), ab := [])
  {
    hide Reaches;
    var f := Data(NO_FLAGS, Zeros(n));
    t := AcceptorTakes(ca, cb, s0, s, f);
    t := AcceptorDoes(ca, cb, s0, t, RxStep, Stay(t.b.(rx := RxBusy(AppendStage, f, false))));
    Stored(cb, t.b, t.ab, n);
    t := AcceptorDoes(ca, cb, s0, t, RxStep, Act(cb, t.b, t.ab, RxStep));
  }

  lemma {:induction false} Stored(cfg: Config, e: Endpoint, inbox: seq<Frame>, n: Word)
    requires e.rx == RxBusy(AppendStage, Data(NO_FLAGS, Zeros(n)), false)
    requires n <= e.rcv.buf.cap && e.rcv.buf.data == [] && e.rcv.segs == []
    ensures Act(cfg, e, inbox, RxStep)
         == Stay(e.(rx := RxIdle, rcv := e.rcv.(buf := Buf(e.rcv.buf.cap - n, Zeros(n)), segs := [n])))
  {
    assert Wrap32(n) == n;
    assert [] + Zeros(n) == Zeros(n);
  }

  /** The one segment buffered is read in one call, which then turns to the window update. */
  lemma {:induction false} ReadOut(ca: Config, cb: Config, s0: System, s: System, n: Word) returns (t: System)
    requires Reaches(ca, cb, s0, s) && n > 0 && Easy(s.b) && s.b.rcv.pc.RIdle?
    requires s.b.rcv.buf.data == Zeros(n) && s.b.rcv.segs == [n]
    ensures Reaches(ca, cb, s0, t)
    ensures t == s.(b := s.b.(rcv := s.b.rcv.(buf := Buf(s.b.rcv.buf.cap, []), segs := [], pc := RGrow(NO_FLAGS),
                                              delivered := s.b.rcv.delivered + Zeros(n))))
  {
    hide Reaches;
    t := AcceptorDoes(ca, cb, s0, s, CheckReadable, Stay(s.b.(rcv := s.b.rcv.(pc := RChecked))));
    ReadAll(cb, t.b, t.ab, n);
    t := AcceptorDoes(ca, cb, s0, t, ReadBytes(n), Act(cb, t.b, t.ab, ReadBytes(n)));
    t := AcceptorDoes(ca, cb, s0, t, UpdateFlags, Stay(t.b.(rcv := t.b.rcv.(pc := RGrow(NO_FLAGS)))));
  }

  lemma {:induction false} ReadAll(cfg: Config, e: Endpoint, inbox: seq<Frame>, n: Word)
    requires n > 0 && e.rcv.pc.RChecked? && e.rcv.buf.data == Zeros(n) && e.rcv.segs == [n]
    ensures Act(cfg, e, inbox, ReadBytes(n))
         == Stay(e.(rcv := e.rcv.(buf := Buf(e.rcv.buf.cap, []), segs := [], delivered := e.rcv.delivered + Zeros(n),
                                  pc := RFlags)))
  {
    assert Zeros(n)[..n] == Zeros(n) && Zeros(n)[n..] == [];
    assert [n][1..] == [];
  }

  /** The receiver has read everything and is about to see whether it owes an update. */
  predicate Drained(t: System) {
    && t.ab == [] && t.ba == [] && Easy(t.a) && Easy(t.b)
    && t.b.rcv.buf.data == [] && t.b.rcv.segs == [] && t.b.rcv.pc == RGrow(NO_FLAGS)
  }

  /** n bytes have gone from the sender's credit to the reader. */
  predicate Passed(s: System, t: System, n: int) {
    && t.a.snd.window == s.a.snd.window - n && t.b.rcv.buf.cap == s.b.rcv.buf.cap - n
    && t.b.rcv.window == s.b.rcv.window && t.b.rcv.grown == s.b.rcv.grown
  }

  /** The sender writes one message, and the reader reads it. */
  lemma {:induction false} Spend(ca: Config, cb: Config, s0: System, s: System, n: Word) returns (t: System)
    requires Reaches(ca, cb, s0, s) && AtRest(s)
    requires 0 < n <= s.a.snd.window && n <= s.b.rcv.buf.cap && n <= Largest(ca)
    ensures Reaches(ca, cb, s0, t) && Drained(t) && t.a.snd.pc.WIdle? && Passed(s, t, n)
  {
    hide Reaches;
    t := WriteOut(ca, cb, s0, s, n);
    t := BufferIn(ca, cb, s0, t, n);
    t := ReadOut(ca, cb, s0, t, n);
  }

  // --- The window update -------------------------------------------------------------------------

  /** The first GrowTo finds at least half the window missing. */
  lemma {:induction false} Grows(cfg: Config, e: Endpoint, inbox: seq<Frame>)
    requires e.rcv.pc == RGrow(NO_FLAGS) && e.rcv.buf.data == [] && e.ctl.inUse
    requires e.rcv.buf.cap < e.rcv.window && e.rcv.window - e.rcv.buf.cap >= e.rcv.window / 2
    ensures Act(cfg, e, inbox, UpdateGrow)
         == Stay(e.(rcv := e.rcv.(buf := Buf(e.rcv.window, []), pc := RTune(NO_FLAGS, e.rcv.window - e.rcv.buf.cap))))
  {
    assert Wrap32(0) == 0;
  }

  /** The first GrowTo finds less than half the window missing. */
  lemma {:induction false} Idles(cfg: Config, e: Endpoint, inbox: seq<Frame>)
    requires e.rcv.pc == RGrow(NO_FLAGS) && e.rcv.buf.data == [] && e.ctl.inUse
    requires e.rcv.window - e.rcv.buf.cap < e.rcv.window / 2
    ensures Act(cfg, e, inbox, UpdateGrow) == Stay(e.(rcv := e.rcv.(pc := RIdle)))
  {
    assert Wrap32(0) == 0;
  }

  /** A drained receiver after auto-tuning. */
  function Widened(r: Receiver, max: Word): Receiver {
    var w := NextWindow(r.window, max);
    Receiver(w, r.grown + 1, Buf(w, []), r.segs, RIdle, r.delivered)
  }

  lemma {:induction false} Tunes(cfg: Config, e: Endpoint, inbox: seq<Frame>, delta: Word)
    requires e.rcv.pc == RTune(NO_FLAGS, delta) && e.rcv.buf == Buf(e.rcv.window, [])
    requires 0 < e.rcv.window < cfg.maxWindow
    ensures NextWindow(e.rcv.window, cfg.maxWindow) > e.rcv.window
    ensures Act(cfg, e, inbox, UpdateTune(true))
         == Stay(e.(rcv := Widened(e.rcv, cfg.maxWindow).(pc := RSend(NO_FLAGS, NextWindow(e.rcv.window, cfg.maxWindow) - e.rcv.window))))
  {
    assert Wrap32(0) == 0;
  }

  lemma {:induction false} Sends(cfg: Config, e: Endpoint, inbox: seq<Frame>)
    requires e.rcv.pc.RSend? && !e.ctl.down
    ensures Act(cfg, e, inbox, UpdateSend(true))
         == Effect(e.(rcv := e.rcv.(pc := RIdle), ctl := e.ctl.(inUse := true)),
                   [Update(e.rcv.pc.flags, e.rcv.pc.delta)], false)
  {}

  /** Too little is missing for an update. */
  lemma {:induction false} NoUpdate(ca: Config, cb: Config, s0: System, s: System) returns (t: System)
    requires Reaches(ca, cb, s0, s) && Drained(s) && s.b.rcv.window - s.b.rcv.buf.cap < s.b.rcv.window / 2
    ensures Reaches(ca, cb, s0, t) && t == s.(b := s.b.(rcv := s.b.rcv.(pc := RIdle)))
  {
    hide Reaches;
    Idles(cb, s.b, s.ab);
    t := AcceptorDoes(ca, cb, s0, s, UpdateGrow, Act(cb, s.b, s.ab, UpdateGrow));
  }

  /** Half the window is missing, and without auto-tuning all of it is granted. */
  lemma {:induction false} Grant(ca: Config, cb: Config, s0: System, s: System) returns (t: System)
    requires Reaches(ca, cb, s0, s) && Drained(s)
    requires s.b.rcv.buf.cap < s.b.rcv.window && s.b.rcv.window - s.b.rcv.buf.cap >= s.b.rcv.window / 2
    ensures Reaches(ca, cb, s0, t)
    ensures t == s.(b := s.b.(rcv := s.b.rcv.(buf := Buf(s.b.rcv.window, []), pc := RIdle)),
                    ba := [Update(NO_FLAGS, s.b.rcv.window - s.b.rcv.buf.cap)])
  {
    hide Reaches;
    var d := s.b.rcv.window - s.b.rcv.buf.cap;
    Grows(cb, s.b, s.ab);
    t := AcceptorDoes(ca, cb, s0, s, UpdateGrow, Act(cb, s.b, s.ab, UpdateGrow));
    t := AcceptorDoes(ca, cb, s0, t, UpdateTune(false), Stay(t.b.(rcv := t.b.rcv.(pc := RSend(NO_FLAGS, d)))));
    t := AcceptorSends(ca, cb, s0, t);
  }

  /** Half the window is missing; auto-tuning enlarges it and tells the sender the difference only. */
  lemma {:induction false} Enlarge(ca: Config, cb: Config, s0: System, s: System) returns (t: System)
    requires Reaches(ca, cb, s0, s) && Drained(s)
    requires s.b.rcv.buf.cap < s.b.rcv.window < cb.maxWindow
    requires s.b.rcv.window - s.b.rcv.buf.cap >= s.b.rcv.window / 2
    ensures Reaches(ca, cb, s0, t)
    ensures var r := s.b.rcv;
            NextWindow(r.window, cb.maxWindow) > r.window &&
            t == s.(b := s.b.(rcv := Widened(r, cb.maxWindow)),
                    ba := [Update(NO_FLAGS, NextWindow(r.window, cb.maxWindow) - r.window)])
  {
    hide Reaches;
    Grows(cb, s.b, s.ab);
    t := AcceptorDoes(ca, cb, s0, s, UpdateGrow, Act(cb, s.b, s.ab, UpdateGrow));
    t := TuneUp(ca, cb, s0, t, t.b.rcv.pc.delta);
    t := AcceptorSends(ca, cb, s0, t);
  }

  lemma {:induction false} TuneUp(ca: Config, cb: Config, s0: System, s: System, delta: Word) returns (t: System)
    requires Reaches(ca, cb, s0, s) && s.b.rcv.pc == RTune(NO_FLAGS, delta) && s.b.rcv.buf == Buf(s.b.rcv.window, [])
    requires 0 < s.b.rcv.window < cb.maxWindow
    ensures Reaches(ca, cb, s0, t) && NextWindow(s.b.rcv.window, cb.maxWindow) > s.b.rcv.window
    ensures t == s.(b := s.b.(rcv := Widened(s.b.rcv, cb.maxWindow).(
                      pc := RSend(NO_FLAGS, NextWindow(s.b.rcv.window, cb.maxWindow) - s.b.rcv.window))))
  {
    hide Reaches;
    Tunes(cb, s.b, s.ab, delta);
    t := AcceptorDoes(ca, cb, s0, s, UpdateTune(true), Act(cb, s.b, s.ab, UpdateTune(true)));
  }

  lemma {:induction false} AcceptorSends(ca: Config, cb: Config, s0: System, s: System) returns (t: System)
    requires Reaches(ca, cb, s0, s) && s.b.rcv.pc.RSend? && !s.b.ctl.down && s.ba == []
    ensures Reaches(ca, cb, s0, t)
    ensures t == s.(b := s.b.(rcv := s.b.rcv.(pc := RIdle), ctl := s.b.ctl.(inUse := true)),
                    ba := [Update(s.b.rcv.pc.flags, s.b.rcv.pc.delta)])
  {
    hide Reaches;
    Sends(cb, s.b, s.ab);
    t := AcceptorDoes(ca, cb, s0, s, UpdateSend(true), Act(cb, s.b, s.ab, UpdateSend(true)));
  }

  /** A window update arrives at the sender. */
  lemma {:induction false} CreditIn(ca: Config, cb: Config, s0: System, s: System, d: Word) returns (t: System)
    requires Reaches(ca, cb, s0, s) && Easy(s.a) && s.ba == [Update(NO_FLAGS, d)]
    ensures Reaches(ca, cb, s0, t)
    ensures t == s.(a := s.a.(snd := Topped(s.a.snd, d)), ba := [])
  {
    hide Reaches;
    t := OpenerTakes(ca, cb, s0, s, Update(NO_FLAGS, d));
    Credited(ca, t.a, t.ba, t.a.rx.frame);
    t := OpenerDoes(ca, cb, s0, t, RxStep, Act(ca, t.a, t.ba, RxStep));
  }

  /** incrSendWindow */
  function Topped(w: Sender, d: Word): Sender {
    w.(window := Add32(w.window, d), credited := w.credited + d)
  }

  /** Message by message, n bytes go through without an update. */
  lemma {:induction false} Trickle(ca: Config, cb: Config, s0: System, s: System, n: Word) returns (t: System)
    requires Reaches(ca, cb, s0, s) && AtRest(s) && ca.Verified()
    requires n <= s.a.snd.window <= s.b.rcv.buf.cap <= s.b.rcv.window
    requires n > 0 ==> s.b.rcv.window - (s.b.rcv.buf.cap - n) < s.b.rcv.window / 2
    ensures Reaches(ca, cb, s0, t) && AtRest(t) && Passed(s, t, n)
    decreases n
  {
    hide Reaches;
    if n == 0 { return s; }
    var c := Min(n, Largest(ca));
    t := Spend(ca, cb, s0, s, c);
    t := NoUpdate(ca, cb, s0, t);
    t := Trickle(ca, cb, s0, t, n - c);
  }

  /** One enlargement in which n bytes, at least half the window, have been freed and are forgotten; all
      but the last message of them must have gone through without an update. */
  lemma {:induction false} Round(ca: Config, cb: Config, s0: System, s: System, n: Word) returns (t: System)
    requires Reaches(ca, cb, s0, s) && AtRest(s) && ca.Verified()
    requires 0 < n <= s.a.snd.window <= s.b.rcv.buf.cap == s.b.rcv.window < cb.maxWindow
    requires s.b.rcv.window / 2 <= n <= Slack(s.b.rcv.window, Largest(ca))
    ensures Reaches(ca, cb, s0, t) && AtRest(t)
    ensures t.b.rcv.window == t.b.rcv.buf.cap == NextWindow(s.b.rcv.window, cb.maxWindow) > s.b.rcv.window
    ensures t.b.rcv.grown == s.b.rcv.grown + 1
    ensures t.a.snd.window == s.a.snd.window - n + t.b.rcv.window - s.b.rcv.window
  {
    hide Reaches;
    var last := Min(n, Largest(ca));
    t := Trickle(ca, cb, s0, s, n - last);
    t := Spend(ca, cb, s0, t, last);
    t := Enlarge(ca, cb, s0, t);
    t := CreditIn(ca, cb, s0, t, t.ba[0].delta);
  }

  // --- Opening the stream ------------------------------------------------------------------------

  /** A forced first update, which announces the stream or acknowledges it. */
  lemma {:induction false} FirstUpdate(cfg: Config, e: Endpoint, inbox: seq<Frame>, flags: Flags)
    requires e.rcv.pc == RGrow(flags) && flags != NO_FLAGS && e.rcv.buf.data == [] && e.rcv.buf.cap <= e.rcv.window
    ensures Act(cfg, e, inbox, UpdateGrow)
         == Stay(e.(rcv := e.rcv.(buf := Buf(e.rcv.window, []), pc := RTune(flags, e.rcv.window - e.rcv.buf.cap))))
    ensures var d := Act(cfg, e, inbox, UpdateGrow).e;
            Act(cfg, d, inbox, UpdateTune(false))
            == Stay(d.(rcv := d.rcv.(pc := RSend(flags, e.rcv.window - e.rcv.buf.cap))))
  {
    assert Wrap32(0) == 0;
  }

  lemma {:induction false} FlagsSet(cfg: Config, e: Endpoint, inbox: seq<Frame>, life: Life, flags: Flags)
    requires e.rcv.pc.RFlags? && !e.ctl.reg.Absent? && SendFlags(e.ctl.life) == (life, flags)
    ensures Act(cfg, e, inbox, UpdateFlags)
         == Stay(e.(ctl := e.ctl.(life := life), rcv := e.rcv.(pc := RGrow(flags))))
  {}

  const SYN := NO_FLAGS.(syn := true)
  const ACK := NO_FLAGS.(ack := true)

  function Opening(r: Receiver): Receiver {
    r.(buf := Buf(r.window, []), pc := RIdle)
  }

  lemma {:induction false} OpenerSyns(ca: Config, cb: Config, s0: System, s: System) returns (t: System)
    requires Reaches(ca, cb, s0, s) && s.ab == [] && ca.Verified()
    requires s.a.ctl == Control(Live, false, Life(Init, Open, Open), false, [])
    requires s.a.rcv == NewEndpoint(ca, Live, Init).rcv
    ensures Reaches(ca, cb, s0, t)
    ensures t == s.(a := s.a.(ctl := Control(Live, false, Life(SynSent, Open, Open), true, []), rcv := Opening(s.a.rcv)),
                    ab := [Update(SYN, ca.initialWindow - INITIAL_STREAM_WINDOW)])
  {
    hide Reaches;
    FlagsSet(ca, s.a, s.ba, Life(SynSent, Open, Open), SYN);
    t := OpenerDoes(ca, cb, s0, s, UpdateFlags, Act(ca, s.a, s.ba, UpdateFlags));
    FirstUpdate(ca, t.a, t.ba, SYN);
    t := OpenerDoes(ca, cb, s0, t, UpdateGrow, Act(ca, t.a, t.ba, UpdateGrow));
    t := OpenerDoes(ca, cb, s0, t, UpdateTune(false), Act(ca, t.a, t.ba, UpdateTune(false)));
    Sends(ca, t.a, t.ba);
    t := OpenerDoes(ca, cb, s0, t, UpdateSend(true), Act(ca, t.a, t.ba, UpdateSend(true)));
  }

  lemma {:induction false} AcceptorAccepts(ca: Config, cb: Config, s0: System, s: System, d: Word) returns (t: System)
    requires Reaches(ca, cb, s0, s) && s.ab == [Update(SYN, d)] && s.ba == [] && cb.Verified()
    requires s.b == NewEndpoint(cb, Absent, SynReceived)
    ensures Reaches(ca, cb, s0, t)
    ensures t == System(s.a, s.b.(ctl := Control(Live, false, Life(Established, Open, Open), true, []),
                                  snd := Topped(s.b.snd, d), rcv := Opening(s.b.rcv)),
                        [], [Update(ACK, cb.initialWindow - INITIAL_STREAM_WINDOW)])
  {
    hide Reaches;
    t := AcceptorTakes(ca, cb, s0, s, Update(SYN, d));
    Credited(cb, t.b, t.ab, t.b.rx.frame);
    t := AcceptorDoes(ca, cb, s0, t, RxStep, Act(cb, t.b, t.ab, RxStep));
    t := AcceptorAcks(ca, cb, s0, t);
  }

  lemma {:induction false} AcceptorAcks(ca: Config, cb: Config, s0: System, s: System) returns (t: System)
    requires Reaches(ca, cb, s0, s) && s.ba == [] && cb.Verified()
    requires s.b.ctl == Control(Live, false, Life(SynReceived, Open, Open), false, [])
    requires s.b.rcv == NewEndpoint(cb, Absent, SynReceived).rcv
    ensures Reaches(ca, cb, s0, t)
    ensures t == s.(b := s.b.(ctl := Control(Live, false, Life(Established, Open, Open), true, []), rcv := Opening(s.b.rcv)),
                    ba := [Update(ACK, cb.initialWindow - INITIAL_STREAM_WINDOW)])
  {
    hide Reaches;
    FlagsSet(cb, s.b, s.ab, Life(Established, Open, Open), ACK);
    t := AcceptorDoes(ca, cb, s0, s, UpdateFlags, Act(cb, s.b, s.ab, UpdateFlags));
    FirstUpdate(cb, t.b, t.ab, ACK);
    t := AcceptorDoes(ca, cb, s0, t, UpdateGrow, Act(cb, t.b, t.ab, UpdateGrow));
    t := AcceptorDoes(ca, cb, s0, t, UpdateTune(false), Act(cb, t.b, t.ab, UpdateTune(false)));
    t := AcceptorSends(ca, cb, s0, t);
  }

  /** x may send all that the fresh receiver y has room for. */
  predicate Fresh(cy: Config, x: Endpoint, y: Endpoint) {
    x.snd.window == y.rcv.buf.cap == y.rcv.window == cy.initialWindow && y.rcv.grown == 0
  }

  /** An open stream at rest, both windows as configured. */
  lemma {:induction false} Opened(ca: Config, cb: Config) returns (t: System)
    requires ca.Verified() && cb.Verified()
    ensures Reaches(ca, cb, Start(ca, cb), t)
    ensures AtRest(t) && Fresh(cb, t.a, t.b)
    ensures AtRest(Swap(t)) && Fresh(ca, t.b, t.a)
  {
    hide Reaches;
    var s := Start(ca, cb);
    Here(ca, cb, s);
    t := OpenerSyns(ca, cb, s, s);
    t := AcceptorAccepts(ca, cb, s, t, ca.initialWindow - INITIAL_STREAM_WINDOW);
    t := OpenerLearns(ca, cb, s, t, t.ba[0]);
  }

  /** The first window update reaches the opener. */
  lemma {:induction false} OpenerLearns(ca: Config, cb: Config, s0: System, s: System, f: Frame) returns (t: System)
    requires Reaches(ca, cb, s0, s) && s.ba == [f] && f.Update? && f.flags == ACK
    requires s.a.ctl.reg.Live? && !s.a.ctl.down && s.a.rx.RxIdle?
    ensures Reaches(ca, cb, s0, t)
    ensures t == s.(a := s.a.(ctl := Acked(s.a.ctl, f), snd := Topped(s.a.snd, f.delta)), ba := [])
  {
    hide Reaches;
    t := OpenerTakes(ca, cb, s0, s, f);
    Credited(ca, t.a, t.ba, f);
    t := OpenerDoes(ca, cb, s0, t, RxStep, Act(ca, t.a, t.ba, RxStep));
  }

  lemma {:induction false} Credited(cfg: Config, e: Endpoint, inbox: seq<Frame>, f: Frame)
    requires f.Update? && e.rx == RxBusy(BodyStage, f, false)
    ensures Act(cfg, e, inbox, RxStep) == Stay(e.(snd := Topped(e.snd, f.delta), rx := RxIdle))
  {}
}
