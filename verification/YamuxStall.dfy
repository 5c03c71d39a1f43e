/**
 Auto-tuning calls GrowTo twice and announces only the second delta, so some granted room is never
 told to the sender. This module settles when that can starve the sender for good.
 */
module YamuxStall {
  import opened Words
  import opened YamuxLife
  import opened YamuxSystem
  import opened YamuxSafety
  import opened YamuxRuns

  /** The receive window after k enlargements. */
  function Enlarged(cfg: Config, k: nat): Word {
    if k == 0 then cfg.initialWindow else NextWindow(Enlarged(cfg, k - 1), cfg.maxWindow)
  }

  /** The receive window before the last enlargement. */
  function Previous(cfg: Config, r: Receiver): Word {
    if r.grown == 0 then 0 else Enlarged(cfg, r.grown - 1)
  }

  function Missing(r: Receiver): int {
    r.window - r.buf.cap - |r.buf.data|
  }

  /** The bytes of the largest message a side sends. */
  function Largest(cfg: Config): int {
    cfg.maxMessage - HEADER_SIZE
  }

  /** The most that can be missing when a read of at most longest bytes turns to the update. */
  function Slack(window: Word, longest: int): int {
    window / 2 - 1 + longest
  }

  /** The window follows the doublings, each of which made it larger; a reader between two calls has
      granted so much that less than half the window is missing, and one call adds one segment. */
  predicate Tuned(cfg: Config, longest: int, ctl: Control, r: Receiver) {
    && r.window == Enlarged(cfg, r.grown) >= 2
    && Previous(cfg, r) < r.window
    && (forall n <- r.segs :: n <= longest)
    && (r.pc.RIdle? || r.pc.RChecked? ==> Missing(r) <= 0 || Missing(r) < r.window / 2)
    && (r.pc.RFlags? && ctl.inUse ==> Missing(r) <= Slack(r.window, longest))
    && (r.pc.RGrow? && r.pc.flags == NO_FLAGS ==> Missing(r) <= Slack(r.window, longest))
    && (r.pc.RTune? || r.pc.RSend? ==> Missing(r) <= 0)
    && (r.pc.RTune? && r.pc.flags == NO_FLAGS ==> r.pc.delta <= Slack(r.window, longest))
    && (!ctl.inUse && r.pc.RFlags? ==> ctl.life.state.Init? || ctl.life.state.SynReceived?)
    && (!ctl.inUse ==> !r.pc.RIdle? && !r.pc.RChecked?)
  }

  /** Room at the receiver that the sender will never hear of. */
  function Lost(x: Endpoint, y: Endpoint, xy: seq<Frame>, yx: seq<Frame>): int {
    Room(y.rcv, y.rx) - Credit(x.snd, x.rx) - |Bytes(xy)| - Deltas(yx)
  }

  predicate Lossless(act: Action) {
    act.UpdateSend? ==> act.ok
  }

  predicate AllLossless(moves: seq<Move>) {
    forall m <- moves :: Lossless(m.act)
  }

  /** A step of a receiver keeps its books exactly, unless it enlarges the window. */
  ghost predicate Exact(cfg: Config, longest: int, e: Endpoint, x: Effect, got: Frame) {
    if x.e.rcv.grown == e.rcv.grown then
      Room(x.e.rcv, x.e.rx) - Deltas(x.sent) == Room(e.rcv, e.rx) - |Body(got)|
    else
      && x.sent == [] && !x.taken && x.e.rx == e.rx
      && x.e.rcv.grown == e.rcv.grown + 1 && e.rcv.window == Previous(cfg, x.e.rcv)
      && Room(x.e.rcv, x.e.rx) <= e.rcv.window
      && Room(x.e.rcv, x.e.rx) <= Room(e.rcv, e.rx) + Slack(e.rcv.window, longest)
  }

  ghost predicate ExactAct(cfg: Config, longest: int, e: Endpoint, inbox: seq<Frame>, act: Action) {
    var x := Act(cfg, e, inbox, act);
    && (!x.e.ctl.life.state.Finished? ==> Tuned(cfg, longest, x.e.ctl, x.e.rcv))
    && Exact(cfg, longest, e, x, Kept(x, inbox))
  }

  /** What a step is taken from. */
  predicate Steady(cfg: Config, longest: int, e: Endpoint) {
    Local(cfg, e) && Tuned(cfg, longest, e.ctl, e.rcv) && |Held(e.rx)| <= longest
  }

  lemma {:induction false} ReadTuned(cfg: Config, longest: int, ctl: Control, r: Receiver, n: nat)
    requires ReceiverOk(cfg, r) && Tuned(cfg, longest, ctl, r)
    ensures Tuned(cfg, longest, ctl, CheckStep(ctl, r)) && CheckStep(ctl, r).grown == r.grown
    ensures Tuned(cfg, longest, ctl, ReadStep(r, n)) && ReadStep(r, n).grown == r.grown
  {
    hide Enlarged;
    var q := ReadStep(r, n);
    forall i | 0 <= i < |q.segs| ensures q.segs[i] <= longest {
      var j := if |q.segs| == |r.segs| then i else i + 1;
      assert r.segs[j] in r.segs;
    }
    assert r.segs != [] ==> r.segs[0] in r.segs;
  }

  lemma {:induction false} GrowTuned(cfg: Config, longest: int, ctl: Control, r: Receiver)
    requires ReceiverOk(cfg, r) && Tuned(cfg, longest, ctl, r)
    ensures var q := GrowStep(r);
            q.grown == r.grown && Tuned(cfg, longest, ctl.(inUse := ctl.inUse || q.pc.RIdle?), q)
  {
    hide Enlarged;
  }

  /** The delta of the first GrowTo is forgotten: at most the old window, and at most one read too many. */
  lemma {:induction false} TuneTuned(cfg: Config, longest: int, ctl: Control, r: Receiver, tune: bool)
    requires ReceiverOk(cfg, r) && Tuned(cfg, longest, ctl, r)
    ensures var q := TuneStep(cfg, r, tune);
            && Tuned(cfg, longest, ctl, q)
            && (q.grown != r.grown ==>
                  && q.grown == r.grown + 1 && r.window == Previous(cfg, q)
                  && q.buf.cap - Promised(q.pc) == r.buf.cap <= r.window && Promised(r.pc) <= Slack(r.window, longest))
  {
    NextWindowBounds(r.window, cfg.maxWindow);
  }

  lemma {:induction false} BufferExact(cfg: Config, longest: int, e: Endpoint, inbox: seq<Frame>, act: Action)
    requires Steady(cfg, longest, e)
    requires act.CheckReadable? || act.ReadBytes? || act.UpdateGrow?
    ensures ExactAct(cfg, longest, e, inbox, act)
  {
    ReadTuned(cfg, longest, e.ctl, e.rcv, if act.ReadBytes? then act.n else 0);
    GrowTuned(cfg, longest, e.ctl, e.rcv);
    hide Tuned;
  }

  lemma {:induction false} TuneExact(cfg: Config, longest: int, e: Endpoint, inbox: seq<Frame>, act: Action)
    requires Steady(cfg, longest, e) && act.UpdateTune?
    ensures ExactAct(cfg, longest, e, inbox, act)
  {
    TuneTuned(cfg, longest, e.ctl, e.rcv, act.tune);
    hide Tuned;
  }

  lemma {:induction false} SendExact(cfg: Config, longest: int, e: Endpoint, inbox: seq<Frame>, act: Action)
    requires Steady(cfg, longest, e) && Lossless(act) && !e.ctl.down
    requires act.WriteSend? || act.UpdateSend?
    ensures ExactAct(cfg, longest, e, inbox, act)
  {
    var x := Act(cfg, e, inbox, act);
    if |x.sent| == 1 { Single(x.sent[0]); }
  }

  lemma {:induction false} TaskExact(cfg: Config, longest: int, e: Endpoint, inbox: seq<Frame>, act: Action)
    requires Steady(cfg, longest, e) && act.TaskStep? && (!e.ctl.inUse ==> e.ctl.tasks == [])
    ensures ExactAct(cfg, longest, e, inbox, act)
  {
    var x := Act(cfg, e, inbox, act);
    if |x.sent| == 1 { Single(x.sent[0]); }
  }

  lemma {:induction false} TakeExact(cfg: Config, longest: int, e: Endpoint, inbox: seq<Frame>, act: Action)
    requires Steady(cfg, longest, e) && act.TakeFrame?
    requires e.ctl.reg.Absent? ==> e.rcv.pc.RFlags?
    ensures ExactAct(cfg, longest, e, inbox, act)
  {
    hide Enlarged;
    var x := Act(cfg, e, inbox, act);
    if |x.sent| == 1 { Single(x.sent[0]); }
  }

  lemma {:induction false} BodyExact(cfg: Config, longest: int, e: Endpoint)
    requires Steady(cfg, longest, e) && Solvent(e) && e.rx.RxBusy?
    ensures var d := BodyStep(e);
            && Room(d.rcv, d.rx) == Room(e.rcv, e.rx) && d.ctl == e.ctl
            && d.rcv.grown == e.rcv.grown && Tuned(cfg, longest, d.ctl, d.rcv)
  {
    hide Enlarged;
  }

  lemma {:induction false} ReceiveExact(cfg: Config, longest: int, e: Endpoint, inbox: seq<Frame>, act: Action)
    requires Steady(cfg, longest, e) && Solvent(e) && act.RxStep?
    ensures ExactAct(cfg, longest, e, inbox, act)
  {
    if e.rx.RxBusy? { BodyExact(cfg, longest, e); }
    hide BodyStep, Enlarged;
  }

  lemma {:induction false} CalmExact(cfg: Config, longest: int, e: Endpoint, inbox: seq<Frame>, act: Action)
    requires Steady(cfg, longest, e)
    requires act.UpdateFlags? || act.Shutdown? || act.CloseWriteCall? || act.CloseReadCall? || act.ResetCall?
    ensures ExactAct(cfg, longest, e, inbox, act)
  {
    hide Enlarged;
  }

  lemma {:induction false} WriterExact(cfg: Config, longest: int, e: Endpoint, inbox: seq<Frame>, act: Action)
    requires Steady(cfg, longest, e) && (!e.ctl.inUse ==> e.snd.pc.WIdle?)
    requires act.CheckWritable? || act.LoadWindow? || act.WriteSubtract? || act.WriteFlags?
    ensures ExactAct(cfg, longest, e, inbox, act)
  {
    hide Enlarged;
  }

  lemma {:induction false} ActExact(cfg: Config, longest: int, e: Endpoint, inbox: seq<Frame>, act: Action)
    requires Steady(cfg, longest, e) && Solvent(e) && Lossless(act) && !e.ctl.down && Tidy(e)
    ensures ExactAct(cfg, longest, e, inbox, act)
  {
    hide Steady, ExactAct;
    match act
    case WriteSend(_, _) => SendExact(cfg, longest, e, inbox, act);
    case UpdateSend(_) => SendExact(cfg, longest, e, inbox, act);
    case TaskStep(_, _) => TaskExact(cfg, longest, e, inbox, act);
    case TakeFrame(_) => TakeExact(cfg, longest, e, inbox, act);
    case RxStep => ReceiveExact(cfg, longest, e, inbox, act);
    case CheckReadable => BufferExact(cfg, longest, e, inbox, act);
    case ReadBytes(_) => BufferExact(cfg, longest, e, inbox, act);
    case UpdateGrow => BufferExact(cfg, longest, e, inbox, act);
    case UpdateTune(_) => TuneExact(cfg, longest, e, inbox, act);
    case CheckWritable => WriterExact(cfg, longest, e, inbox, act);
    case LoadWindow => WriterExact(cfg, longest, e, inbox, act);
    case WriteSubtract => WriterExact(cfg, longest, e, inbox, act);
    case WriteFlags => WriterExact(cfg, longest, e, inbox, act);
    case _ => CalmExact(cfg, longest, e, inbox, act);
  }

  // --- When nothing is lost for good --------------------------------------------------------------

  /** Repeated doubling of w ends on max, or one short of doubling. */
  predicate Aligned(w: nat, max: nat)
    decreases max - w
  {
    if w == 0 || w >= max then true
    else if 2 * w <= max then Aligned(2 * w, max)
    else 2 * w <= max + 1
  }

  /** In particular, when max is w times a power of two, as in the default configuration. */
  lemma {:induction false} PowerOfTwoAligned(w: nat, k: nat)
    ensures Aligned(w, w * Pow2(k))
    decreases k
  {
    if k > 0 {
      assert w * Pow2(k) == 2 * w * Pow2(k - 1);
      PowerOfTwoAligned(2 * w, k - 1);
      Pow2Positive(k - 1);
      assert w > 0 ==> 2 * w <= w * Pow2(k) by { MulAtLeast(2 * w, Pow2(k - 1)); }
    }
  }

  function Pow2(k: nat): nat {
    if k == 0 then 1 else 2 * Pow2(k - 1)
  }

  lemma Pow2Positive(k: nat)
    ensures Pow2(k) >= 1
  {}

  lemma MulAtLeast(a: nat, b: nat)
    requires b >= 1
    ensures a <= a * b
  {}

  lemma {:induction false} AlignedSteps(cfg: Config, k: nat)
    requires cfg.Verified() && Aligned(cfg.initialWindow, cfg.maxWindow)
    ensures 0 < Enlarged(cfg, k) <= cfg.maxWindow
    ensures Aligned(Enlarged(cfg, k), cfg.maxWindow)
    ensures Enlarged(cfg, k) < Enlarged(cfg, k + 1) ==> 2 * Enlarged(cfg, k) <= Enlarged(cfg, k + 1) + 1
  {
    if k > 0 { AlignedSteps(cfg, k - 1); NextWindowBounds(Enlarged(cfg, k - 1), cfg.maxWindow); }
    NextWindowBounds(Enlarged(cfg, k), cfg.maxWindow);
  }

  /** The most that k enlargements can have kept from the sender. */
  function Lossy(cx: Config, cy: Config, k: nat): int {
    if k == 0 then 0
    else Min(Enlarged(cy, k - 1), Lossy(cx, cy, k - 1) + Slack(Enlarged(cy, k - 1), Largest(cx)))
  }

  /** No frame under way is longer than a message of the sender may be. */
  predicate Short(cx: Config, y: Endpoint, xy: seq<Frame>) {
    |Held(y.rx)| <= Largest(cx) && forall f <- xy :: |Body(f)| <= Largest(cx)
  }

  predicate Alive(x: Endpoint, y: Endpoint) {
    !x.ctl.reg.Removed? && !y.ctl.reg.Removed? && !y.ctl.down && !y.ctl.life.state.Finished?
  }

  ghost predicate FewLost(cx: Config, cy: Config, x: Endpoint, y: Endpoint, xy: seq<Frame>, yx: seq<Frame>) {
    && Short(cx, y, xy)
    && (Alive(x, y) ==>
          Tuned(cy, Largest(cx), y.ctl, y.rcv) && Lost(x, y, xy, yx) <= Lossy(cx, cy, y.rcv.grown))
  }

  lemma {:induction false} SendsShort(cfg: Config, e: Endpoint, inbox: seq<Frame>, act: Action)
    requires cfg.Verified()
    ensures forall f <- Act(cfg, e, inbox, act).sent :: |Body(f)| <= Largest(cfg)
  {
    hide SendFlags, CloseStep, FlagsStep, GrowStep, TuneStep, ShutdownStep;
  }

  lemma {:induction false} TakesShort(cx: Config, cy: Config, y: Endpoint, xy: seq<Frame>, act: Action)
    requires cx.Verified() && Short(cx, y, xy)
    ensures var m := Act(cy, y, xy, act); Short(cx, m.e, Rest(xy, m.taken))
  {
    hide SendFlags, CloseStep, GrowStep, TuneStep, ShutdownStep, RunTask;
  }

  lemma {:induction false} SenderLoses(cx: Config, cy: Config, x: Endpoint, y: Endpoint,
                                       xy: seq<Frame>, yx: seq<Frame>, m: Effect)
    requires FewLost(cx, cy, x, y, xy, yx) && Balanced(x, m, Kept(m, yx)) && KeepsIfLive(m)
    requires x.ctl.reg.Removed? ==> m.e.ctl.reg.Removed?
    requires forall f <- m.sent :: |Body(f)| <= Largest(cx)
    ensures FewLost(cx, cy, m.e, y, xy + m.sent, Rest(yx, m.taken))
  {
    hide Tuned, Lossy;
    LinkAppend(xy, m.sent);
  }

  lemma {:induction false} ReceiverLoses(cx: Config, cy: Config, x: Endpoint, y: Endpoint,
                                         xy: seq<Frame>, yx: seq<Frame>, m: Effect)
    requires FewLost(cx, cy, x, y, xy, yx) && KeepsIfLive(m) && Short(cx, m.e, Rest(xy, m.taken))
    requires Alive(x, y) ==> Exact(cy, Largest(cx), y, m, Kept(m, xy))
    requires Alive(x, m.e) ==> Alive(x, y) && Tuned(cy, Largest(cx), m.e.ctl, m.e.rcv)
    ensures FewLost(cx, cy, x, m.e, Rest(xy, m.taken), yx + m.sent)
  {
    hide Tuned, Short;
    LinkAppend(yx, m.sent);
  }

  lemma {:induction false} DownForGood(cfg: Config, e: Endpoint, inbox: seq<Frame>, act: Action)
    requires e.ctl.down
    ensures Act(cfg, e, inbox, act).e.ctl.down
  {}

  /** A lossless step by y, seen by the direction from x to y. */
  lemma {:induction false} ReceiverStepLoses(cx: Config, cy: Config, x: Endpoint, y: Endpoint,
                                             xy: seq<Frame>, yx: seq<Frame>, act: Action)
    requires FewLost(cx, cy, x, y, xy, yx) && Flow(x, y, xy, yx) && Flow(y, x, yx, xy)
    requires Local(cx, x) && Local(cy, y) && Tidy(y) && Lossless(act)
    requires xy != [] ==> (xy[0].flags.syn <==> y.ctl.reg.Absent?)
    ensures var m := Act(cy, y, xy, act); FewLost(cx, cy, x, m.e, Rest(xy, m.taken), yx + m.sent)
  {
    FlowSolvent(x, y, xy, yx);
    FlowSolvent(y, x, yx, xy);
    ActTidy(cy, y, xy, act);
    ActKeepsIfLive(cy, y, xy, act);
    TakesShort(cx, cy, y, xy, act);
    hide Act, Tuned, Exact, Lossy, Flow;
    if y.ctl.down { DownForGood(cy, y, xy, act); }
    else if Alive(x, y) { ActExact(cy, Largest(cx), y, xy, act); }
    ReceiverLoses(cx, cy, x, y, xy, yx, Act(cy, y, xy, act));
  }

  /** A step by x, seen by the direction from x to y. */
  lemma {:induction false} SenderStepLoses(cx: Config, cy: Config, x: Endpoint, y: Endpoint,
                                           xy: seq<Frame>, yx: seq<Frame>, act: Action)
    requires FewLost(cx, cy, x, y, xy, yx) && Flow(x, y, xy, yx) && Flow(y, x, yx, xy)
    requires Local(cx, x) && Local(cy, y) && Tidy(x)
    requires yx != [] ==> (yx[0].flags.syn <==> x.ctl.reg.Absent?)
    ensures var m := Act(cx, x, yx, act); FewLost(cx, cy, m.e, y, xy + m.sent, Rest(yx, m.taken))
  {
    FlowSolvent(x, y, xy, yx);
    FlowSolvent(y, x, yx, xy);
    ActTidy(cx, x, yx, act);
    ActKeepsIfLive(cx, x, yx, act);
    ActSane(cx, x, yx, act);
    SendsShort(cx, x, yx, act);
    hide Act, Tidy, FewLost, Flow;
    SenderLoses(cx, cy, x, y, xy, yx, Act(cx, x, yx, act));
  }

  lemma {:induction false} RunLosesLittle(ca: Config, cb: Config, moves: seq<Move>)
    requires ca.Verified() && cb.Verified() && AllLossless(moves)
    ensures var s := Run(ca, cb, moves);
            FewLost(ca, cb, s.a, s.b, s.ab, s.ba) && FewLost(cb, ca, s.b, s.a, s.ba, s.ab)
  {
    if moves != [] {
      var before, m := moves[..|moves| - 1], moves[|moves| - 1];
      RunLosesLittle(ca, cb, before);
      RunKeepsInv(ca, cb, before);
      var s := Run(ca, cb, before);
      hide FewLost, Act, Flow, Tidy, Local;
      if m.byOpener {
        SenderStepLoses(ca, cb, s.a, s.b, s.ab, s.ba, m.act);
        ReceiverStepLoses(cb, ca, s.b, s.a, s.ba, s.ab, m.act);
      } else {
        SenderStepLoses(cb, ca, s.b, s.a, s.ba, s.ab, m.act);
        ReceiverStepLoses(ca, cb, s.a, s.b, s.ab, s.ba, m.act);
      }
    }
  }

  /** The sender has no credit, and nothing under way or buffered will ever bring any. */
  predicate Starved(x: Endpoint, y: Endpoint, xy: seq<Frame>, yx: seq<Frame>) {
    && x.ctl.reg.Live? && y.ctl.reg.Live? && !y.ctl.down && !y.ctl.life.state.Finished?
    && xy == [] && yx == [] && x.rx.RxIdle? && y.rx.RxIdle?
    && x.snd.pc.WIdle? && x.snd.window == 0
    && y.rcv.pc.RIdle? && y.rcv.buf.data == []
  }

  /** After k enlargements so much is kept back that what is left is less than half the window. */
  predicate Starvable(cx: Config, cy: Config, k: nat) {
    (k > 0 ==> Enlarged(cy, k - 1) < cy.maxWindow) && 2 * Lossy(cx, cy, k) >= Enlarged(cy, k) + 2
  }

  lemma {:induction false} StarvedIsLossy(cx: Config, cy: Config, x: Endpoint, y: Endpoint, xy: seq<Frame>, yx: seq<Frame>)
    requires FewLost(cx, cy, x, y, xy, yx) && Local(cy, y) && Starved(x, y, xy, yx)
    ensures Starvable(cx, cy, y.rcv.grown)
  {
    hide Lossy, Enlarged;
  }

  /** With updates that get through, only a starvable receiver starves a sender. */
  lemma {:induction false} StarvesOnlyIf(ca: Config, cb: Config, moves: seq<Move>)
    requires ca.Verified() && cb.Verified() && AllLossless(moves)
    ensures var s := Run(ca, cb, moves);
            && (Starved(s.a, s.b, s.ab, s.ba) ==> Starvable(ca, cb, s.b.rcv.grown))
            && (Starved(s.b, s.a, s.ba, s.ab) ==> Starvable(cb, ca, s.a.rcv.grown))
  {
    RunLosesLittle(ca, cb, moves);
    RunKeepsInv(ca, cb, moves);
    var s := Run(ca, cb, moves);
    hide FewLost, Starved, Starvable, Run;
    if Starved(s.a, s.b, s.ab, s.ba) { StarvedIsLossy(ca, cb, s.a, s.b, s.ab, s.ba); }
    if Starved(s.b, s.a, s.ba, s.ab) { StarvedIsLossy(cb, ca, s.b, s.a, s.ba, s.ab); }
  }

  /** Aligned windows are safe with every peer. */
  lemma {:induction false} AlignedIsSafe(cx: Config, cy: Config, k: nat)
    requires cy.Verified() && Aligned(cy.initialWindow, cy.maxWindow)
    ensures !Starvable(cx, cy, k)
  {
    if k > 0 { AlignedSteps(cy, k - 1); }
    AlignedSteps(cy, k);
    if k > 0 && Enlarged(cy, k - 1) < cy.maxWindow { NextWindowBounds(Enlarged(cy, k - 1), cy.maxWindow); }
  }
}
