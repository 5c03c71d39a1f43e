/**
 The send window is a 32-bit counter to which credit is added while a write may already be on the
 wire and not yet subtracted. This module settles when that addition passes 2^32.
 */
module YamuxCounter {
  import opened Words
  import opened YamuxLife
  import opened YamuxSystem
  import opened YamuxSafety
  import opened YamuxRuns
  import opened YamuxStall
  import opened YamuxPaths

  /** The counter has lost a multiple of 2^32: it is not what was granted less what was subtracted. */
  predicate Wrapped(w: Sender) {
    w.window != Allowance(w) + Debt(w.pc)
  }

  /** The least that the first k enlargements of the window have kept from the sender. */
  function Spent(cfg: Config, k: nat): nat {
    if k == 0 then 0 else Spent(cfg, k - 1) + Enlarged(cfg, k - 1) / 2
  }

  /** The most credit a sender can have after k enlargements. */
  function Crest(cfg: Config, k: nat): int {
    Enlarged(cfg, k) - Spent(cfg, k)
  }

  /** After k enlargements, the largest write and the credit it is drawn from pass 2^32 together. */
  predicate Overflows(cx: Config, cy: Config, k: nat) {
    Crest(cy, k) + Min(Largest(cx), Crest(cy, k)) >= U32
  }

  // --- What every run keeps ----------------------------------------------------------------------

  /** An update that auto-tuning may replace is worth at least half the window. */
  predicate Metered(cfg: Config, r: Receiver) {
    && r.window == Enlarged(cfg, r.grown)
    && (r.pc.RTune? && r.pc.flags == NO_FLAGS ==> 2 * r.pc.delta + 1 >= r.window)
  }

  /** The length of a write under way was within some crest when it was chosen. */
  ghost predicate Drawn(cx: Config, cy: Config, w: Sender) {
    w.pc.WSent? ==> w.pc.n <= Largest(cx) && exists j: nat :: w.pc.n <= Crest(cy, j)
  }

  /** One direction: the room the receiver has kept back by tuning is never used. */
  ghost predicate Capped(cx: Config, cy: Config, x: Endpoint, y: Endpoint, xy: seq<Frame>, yx: seq<Frame>) {
    && Metered(cy, y.rcv)
    && Credit(x.snd, x.rx) + |Bytes(xy)| + Deltas(yx) + Spent(cy, y.rcv.grown) <= Room(y.rcv, y.rx)
    && Drawn(cx, cy, x.snd)
  }

  lemma {:induction false} TuneMeters(cfg: Config, r: Receiver, tune: bool)
    requires ReceiverOk(cfg, r) && Metered(cfg, r)
    ensures var q := TuneStep(cfg, r, tune);
            && Metered(cfg, q) && q.grown >= r.grown
            && q.buf.cap - Promised(q.pc) >= r.buf.cap - Promised(r.pc) + Spent(cfg, q.grown) - Spent(cfg, r.grown)
  {
    NextWindowBounds(r.window, cfg.maxWindow);
  }

  lemma {:induction false} GrowMeters(cfg: Config, r: Receiver)
    requires ReceiverOk(cfg, r) && Metered(cfg, r)
    ensures Metered(cfg, GrowStep(r)) && GrowStep(r).grown == r.grown
  {}

  lemma {:induction false} BodyMeters(cfg: Config, e: Endpoint)
    requires Metered(cfg, e.rcv) && e.rx.RxBusy?
    ensures Metered(cfg, ReceiveStep(e).rcv) && ReceiveStep(e).rcv.grown == e.rcv.grown
  {}

  lemma {:induction false} CalmMeters(cfg: Config, e: Endpoint, inbox: seq<Frame>, act: Action)
    requires Metered(cfg, e.rcv) && !act.UpdateTune? && !act.UpdateGrow? && !act.RxStep?
    ensures var d := Act(cfg, e, inbox, act).e; Metered(cfg, d.rcv) && d.rcv.grown == e.rcv.grown
  {
    hide SendFlags, CloseStep, RunTask, ShutdownStep;
  }

  /** What a step of the receiver leaves for its peer. */
  lemma {:induction false} ActMeters(cfg: Config, e: Endpoint, inbox: seq<Frame>, act: Action)
    requires Metered(cfg, e.rcv) && Local(cfg, e) && Sane(cfg, e, inbox, act)
    ensures var x := Act(cfg, e, inbox, act);
            && Metered(cfg, x.e.rcv)
            && Room(x.e.rcv, x.e.rx) - Deltas(x.sent) >= Room(e.rcv, e.rx) - |Body(Kept(x, inbox))|
               + Spent(cfg, x.e.rcv.grown) - Spent(cfg, e.rcv.grown)
  {
    match act
    case UpdateTune(tune) => TuneMeters(cfg, e.rcv, tune);
    case UpdateGrow => GrowMeters(cfg, e.rcv);
    case RxStep => if e.rx.RxBusy? { BodyMeters(cfg, e); }
    case _ => CalmMeters(cfg, e, inbox, act);
  }

  /** The credit of a sender is within the crest of its receiver. */
  lemma {:induction false} WithinCrest(cx: Config, cy: Config, x: Endpoint, y: Endpoint, xy: seq<Frame>, yx: seq<Frame>)
    requires Capped(cx, cy, x, y, xy, yx) && ReceiverOk(cy, y.rcv)
    ensures Sub32(x.snd.window, Debt(x.snd.pc)) <= Crest(cy, y.rcv.grown)
  {}

  lemma {:induction false} ActDraws(cx: Config, cy: Config, e: Endpoint, inbox: seq<Frame>, act: Action, k: nat)
    requires cx.Verified() && SenderOk(e.ctl, e.snd) && Drawn(cx, cy, e.snd)
    requires Sub32(e.snd.window, Debt(e.snd.pc)) <= Crest(cy, k)
    ensures Drawn(cx, cy, Act(cx, e, inbox, act).e.snd)
  {
    hide Crest, SendFlags, CloseStep, RunTask, ShutdownStep;
  }

  lemma {:induction false} SenderCapped(cx: Config, cy: Config, x: Endpoint, y: Endpoint,
                                        xy: seq<Frame>, yx: seq<Frame>, act: Action)
    requires Capped(cx, cy, x, y, xy, yx) && Local(cx, x) && Local(cy, y) && Sane(cx, x, yx, act)
    ensures var m := Act(cx, x, yx, act); Capped(cx, cy, m.e, y, xy + m.sent, Rest(yx, m.taken))
  {
    WithinCrest(cx, cy, x, y, xy, yx);
    ActDraws(cx, cy, x, yx, act, y.rcv.grown);
    hide Act, Drawn, Spent;
    LinkAppend(xy, Act(cx, x, yx, act).sent);
  }

  lemma {:induction false} ReceiverCapped(cx: Config, cy: Config, x: Endpoint, y: Endpoint,
                                          xy: seq<Frame>, yx: seq<Frame>, act: Action)
    requires Capped(cx, cy, x, y, xy, yx) && Local(cy, y) && Sane(cy, y, xy, act)
    ensures var m := Act(cy, y, xy, act); Capped(cx, cy, x, m.e, Rest(xy, m.taken), yx + m.sent)
  {
    ActMeters(cy, y, xy, act);
    hide Act, Drawn, Spent, Metered;
    LinkAppend(yx, Act(cy, y, xy, act).sent);
  }

  lemma {:induction false} RunCapped(ca: Config, cb: Config, moves: seq<Move>)
    requires ca.Verified() && cb.Verified()
    ensures var s := Run(ca, cb, moves);
            Capped(ca, cb, s.a, s.b, s.ab, s.ba) && Capped(cb, ca, s.b, s.a, s.ba, s.ab)
  {
    if moves != [] {
      var before, m := moves[..|moves| - 1], moves[|moves| - 1];
      RunCapped(ca, cb, before);
      RunKeepsInv(ca, cb, before);
      var s := Run(ca, cb, before);
      FlowSolvent(s.a, s.b, s.ab, s.ba);
      FlowSolvent(s.b, s.a, s.ba, s.ab);
      hide Capped, Act, Local, Sane, Flow, Tidy, Announced;
      if m.byOpener {
        ActSane(ca, s.a, s.ba, m.act);
        SenderCapped(ca, cb, s.a, s.b, s.ab, s.ba, m.act);
        ReceiverCapped(cb, ca, s.b, s.a, s.ba, s.ab, m.act);
      } else {
        ActSane(cb, s.b, s.ab, m.act);
        SenderCapped(cb, ca, s.b, s.a, s.ba, s.ab, m.act);
        ReceiverCapped(ca, cb, s.a, s.b, s.ab, s.ba, m.act);
      }
    }
  }

  /** A counter that has wrapped names an enlargement whose crest allows it. */
  lemma {:induction false} WrapNeedsRoom(cx: Config, cy: Config, x: Endpoint, y: Endpoint,
                                         xy: seq<Frame>, yx: seq<Frame>) returns (k: nat)
    requires Capped(cx, cy, x, y, xy, yx) && Local(cy, y)
    requires Allowance(x.snd) == Sub32(x.snd.window, Debt(x.snd.pc)) && Wrapped(x.snd)
    ensures Overflows(cx, cy, k)
  {
    WithinCrest(cx, cy, x, y, xy, yx);
    hide Crest;
    k := y.rcv.grown;
    var j: nat :| x.snd.pc.n <= Crest(cy, j);
    if Crest(cy, k) < Crest(cy, j) { k := j; }
  }

  // --- The run that wraps ------------------------------------------------------------------------

  /** While the window can still be enlarged, half of it has not been kept back. */
  lemma {:induction false} CrestHigh(cfg: Config, k: nat)
    requires cfg.Verified() && Enlarged(cfg, k) < cfg.maxWindow
    ensures 2 * Spent(cfg, k) <= Enlarged(cfg, k) && Enlarged(cfg, k) >= INITIAL_STREAM_WINDOW
  {
    if k > 0 {
      EnlargedBounds(cfg, k - 1);
      CrestHigh(cfg, k - 1);
    }
  }

  lemma {:induction false} EnlargedBounds(cfg: Config, k: nat)
    requires cfg.Verified()
    ensures Enlarged(cfg, k) <= cfg.maxWindow && Enlarged(cfg, k + 1) == Min(2 * Enlarged(cfg, k), cfg.maxWindow)
  {
    if k > 0 { EnlargedBounds(cfg, k - 1); }
    NextWindowBounds(Enlarged(cfg, k), cfg.maxWindow);
  }

  /** The sender has all the credit it can have after k enlargements. */
  predicate Crested(cy: Config, t: System, k: nat) {
    && AtRest(t) && t.b.rcv.grown == k
    && t.b.rcv.window == t.b.rcv.buf.cap == Enlarged(cy, k) && t.a.snd.window == Crest(cy, k)
  }

  /** Enlarging as soon as half the window is free keeps back the least. */
  lemma {:induction false} Climb(ca: Config, cb: Config, s0: System, s: System, k: nat) returns (t: System)
    requires Reaches(ca, cb, s0, s) && ca.Verified() && cb.Verified() && Crested(cb, s, 0)
    requires k > 0 ==> Enlarged(cb, k - 1) < cb.maxWindow
    ensures Reaches(ca, cb, s0, t) && Crested(cb, t, k)
  {
    hide Reaches;
    if k == 0 { return s; }
    EnlargedBounds(cb, k - 1);
    if k > 1 { EnlargedBounds(cb, k - 2); }
    t := Climb(ca, cb, s0, s, k - 1);
    CrestHigh(cb, k - 1);
    t := Round(ca, cb, s0, t, Enlarged(cb, k - 1) / 2);
  }

  /** Leaves so much of the window free that a write of n bytes brings an update when it is read. */
  lemma {:induction false} Prepare(ca: Config, cb: Config, s0: System, s: System, n: Word) returns (t: System)
    requires Reaches(ca, cb, s0, s) && AtRest(s) && ca.Verified() && n > 0
    requires s.a.snd.window <= s.b.rcv.buf.cap == s.b.rcv.window
    requires n <= s.a.snd.window && s.b.rcv.window / 2 <= s.a.snd.window
    ensures Reaches(ca, cb, s0, t) && AtRest(t) && t.b.rcv.window == s.b.rcv.window
    ensures s.a.snd.window - t.a.snd.window == s.b.rcv.buf.cap - t.b.rcv.buf.cap >= 0
    ensures n <= t.a.snd.window && t.b.rcv.window - (t.b.rcv.buf.cap - n) >= t.b.rcv.window / 2
  {
    hide Reaches;
    var half := s.b.rcv.window / 2;
    if n >= half { return s; }
    t := Trickle(ca, cb, s0, s, half - n);
  }

  /** The update for a write arrives before the write is subtracted. */
  lemma {:induction false} Overtake(ca: Config, cb: Config, s0: System, s: System, n: Word) returns (t: System)
    requires Reaches(ca, cb, s0, s) && AtRest(s)
    requires 0 < n <= s.a.snd.window <= s.b.rcv.buf.cap <= s.b.rcv.window && n <= Largest(ca)
    requires s.b.rcv.window - (s.b.rcv.buf.cap - n) >= s.b.rcv.window / 2
    ensures Reaches(ca, cb, s0, t) && t.a.snd.pc == WSent(n)
    ensures t.a.snd.window == Add32(s.a.snd.window, s.b.rcv.window - (s.b.rcv.buf.cap - n))
  {
    hide Reaches;
    t := SendOut(ca, cb, s0, s, n);
    t := BufferIn(ca, cb, s0, t, n);
    t := ReadOut(ca, cb, s0, t, n);
    t := Grant(ca, cb, s0, t);
    t := CreditIn(ca, cb, s0, t, t.ba[0].delta);
  }

  /** From a stream just opened, any enlargement that allows it makes the counter wrap. */
  lemma {:induction false} WrapFrom(ca: Config, cb: Config, s0: System, s: System, k: nat) returns (t: System)
    requires Reaches(ca, cb, s0, s) && ca.Verified() && cb.Verified() && Crested(cb, s, 0) && Overflows(ca, cb, k)
    ensures Reaches(ca, cb, s0, t) && t.a.snd.pc.WSent? && t.a.snd.window < t.a.snd.pc.n
  {
    hide Reaches;
    if k > 0 && Enlarged(cb, k - 1) == cb.maxWindow { // the last enlargement was none
      EnlargedBounds(cb, k - 1);
      t := WrapFrom(ca, cb, s0, s, k - 1);
    } else {
      if k > 0 { EnlargedBounds(cb, k - 1); }
      t := Climb(ca, cb, s0, s, k);
      var n := Min(Largest(ca), Crest(cb, k));
      t := Prepare(ca, cb, s0, t, n);
      t := Overtake(ca, cb, s0, t, n);
    }
  }

  // --- Exactly when ------------------------------------------------------------------------------

  /** The 32-bit counter against the unbounded one: equal modulo 2^32, and apart only in the gap
      between sendMsg and the subtraction, so that no write ever loads a window it does not have. */
  predicate Faithful(w: Sender) {
    && 0 <= Allowance(w) < U32
    && w.window == Wrap32(Allowance(w) + Debt(w.pc))
    && (Wrapped(w) <==> w.pc.WSent? && w.window < w.pc.n)
  }

  lemma {:induction false} WindowFaithful(ca: Config, cb: Config, moves: seq<Move>)
    requires ca.Verified() && cb.Verified()
    ensures var s := Run(ca, cb, moves); Faithful(s.a.snd) && Faithful(s.b.snd)
  {
    RunKeepsInv(ca, cb, moves);
    var s := Run(ca, cb, moves);
    hide Faithful, Run, Allowance;
    TallyFaithful(s.a.snd);
    TallyFaithful(s.b.snd);
  }

  lemma {:induction false} TallyFaithful(w: Sender)
    requires Allowance(w) == Sub32(w.window, Debt(w.pc))
    ensures Faithful(w)
  {
    hide Allowance;
    var sum := Allowance(w) + Debt(w.pc);
    if w.window >= Debt(w.pc) { assert sum == w.window; } else { assert sum == w.window + U32; }
  }

  lemma {:induction false} CanWrap(ca: Config, cb: Config, opener: bool, k: nat) returns (moves: seq<Move>)
    requires ca.Verified() && cb.Verified() && (if opener then Overflows(ca, cb, k) else Overflows(cb, ca, k))
    ensures var s := Run(ca, cb, moves); Wrapped(if opener then s.a.snd else s.b.snd)
  {
    var s := Start(ca, cb);
    var t := Opened(ca, cb);
    if opener {
      t := WrapFrom(ca, cb, s, t, k);
    } else {
      Here(cb, ca, Swap(t));
      var u := WrapFrom(cb, ca, Swap(t), Swap(t), k);
      SwapReaches(ca, cb, s, t, u);
      t := Swap(u);
    }
    moves :| AllLossless(moves) && Exec(ca, cb, s, moves) == t;
    WindowFaithful(ca, cb, moves);
  }

  /** Some run wraps the counter of a side exactly if some enlargement of its peer's window allows it. */
  lemma {:induction false} WrapsExactlyIf(ca: Config, cb: Config)
    requires ca.Verified() && cb.Verified()
    ensures (exists moves :: Wrapped(Run(ca, cb, moves).a.snd)) <==> exists k: nat :: Overflows(ca, cb, k)
    ensures (exists moves :: Wrapped(Run(ca, cb, moves).b.snd)) <==> exists k: nat :: Overflows(cb, ca, k)
  {
    forall moves | Wrapped(Run(ca, cb, moves).a.snd)
      ensures exists k: nat :: Overflows(ca, cb, k)
    {
      var s := Run(ca, cb, moves);
      RunKeepsInv(ca, cb, moves);
      RunCapped(ca, cb, moves);
      var k := WrapNeedsRoom(ca, cb, s.a, s.b, s.ab, s.ba);
    }
    forall moves | Wrapped(Run(ca, cb, moves).b.snd)
      ensures exists k: nat :: Overflows(cb, ca, k)
    {
      var s := Run(ca, cb, moves);
      RunKeepsInv(ca, cb, moves);
      RunCapped(ca, cb, moves);
      var k := WrapNeedsRoom(cb, ca, s.b, s.a, s.ba, s.ab);
    }
    hide Overflows, Wrapped, Run;
    if k: nat :| Overflows(ca, cb, k) { var moves := CanWrap(ca, cb, true, k); }
    if k: nat :| Overflows(cb, ca, k) { var moves := CanWrap(ca, cb, false, k); }
  }

  /** Enough for a caller: a window and a message that do not reach 2^32 together. */
  lemma {:induction false} NoOverflow(cx: Config, cy: Config, k: nat)
    requires cx.Verified() && cy.Verified() && cy.maxWindow + Largest(cx) < U32
    ensures !Overflows(cx, cy, k)
  {
    EnlargedBounds(cy, k);
  }
}
