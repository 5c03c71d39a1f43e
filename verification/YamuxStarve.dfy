/** The runs that starve a sender when the windows are not aligned. */
module YamuxStarve {
  import opened Words
  import opened YamuxSystem
  import opened YamuxSafety
  import opened YamuxStall
  import opened YamuxPaths

  /** A stream at rest from which k enlargements have kept all they can. */
  predicate Sunk(cx: Config, cy: Config, t: System, k: nat) {
    && AtRest(t) && t.b.rcv.grown == k
    && t.b.rcv.window == t.b.rcv.buf.cap == Enlarged(cy, k)
    && t.a.snd.window == Enlarged(cy, k) - Lossy(cx, cy, k)
  }

  lemma {:induction false} LossyBounds(cx: Config, cy: Config, k: nat)
    requires cx.Verified() && cy.Verified()
    ensures INITIAL_STREAM_WINDOW <= Enlarged(cy, k) <= cy.maxWindow
    ensures 0 <= Lossy(cx, cy, k)
    ensures Lossy(cx, cy, k) <= (if k == 0 then 0 else Enlarged(cy, k - 1)) <= Enlarged(cy, k)
    ensures Enlarged(cy, k) < cy.maxWindow ==> 2 * Lossy(cx, cy, k) <= Enlarged(cy, k)
  {
    if k > 0 {
      LossyBounds(cx, cy, k - 1);
      NextWindowBounds(Enlarged(cy, k - 1), cy.maxWindow);
    }
  }

  lemma {:induction false} NextLossy(cx: Config, cy: Config, k: nat)
    requires cx.Verified() && cy.Verified()
    ensures var w := Enlarged(cy, k);
            && Enlarged(cy, k + 1) == Min(2 * w, cy.maxWindow)
            && Lossy(cx, cy, k + 1) == Min(w, Lossy(cx, cy, k) + Slack(w, Largest(cx)))
  {
    LossyBounds(cx, cy, k);
    NextWindowBounds(Enlarged(cy, k), cy.maxWindow);
  }

  /** Before each enlargement the reader lets less than half the window go missing, and then reads the
      longest message there can be. */
  lemma {:induction false} Sink(ca: Config, cb: Config, s0: System, s: System, k: nat) returns (t: System)
    requires Reaches(ca, cb, s0, s) && ca.Verified() && cb.Verified() && Sunk(ca, cb, s, 0)
    requires k > 0 ==> Enlarged(cb, k - 1) < cb.maxWindow
    ensures Reaches(ca, cb, s0, t) && Sunk(ca, cb, t, k)
  {
    hide Reaches, Enlarged, Lossy;
    if k == 0 { return s; }
    LossyBounds(ca, cb, k - 1);
    NextLossy(ca, cb, k - 1);
    NextWindowBounds(Enlarged(cb, k - 1), cb.maxWindow);
    if k > 1 { LossyBounds(ca, cb, k - 2); NextLossy(ca, cb, k - 2); }
    t := Sink(ca, cb, s0, s, k - 1);
    t := Round(ca, cb, s0, t, Lossy(ca, cb, k) - Lossy(ca, cb, k - 1));
  }

  /** What is left is sent and read, and too little of the window is missing for an update. */
  lemma {:induction false} StarveFrom(ca: Config, cb: Config, s0: System, s: System, k: nat) returns (t: System)
    requires Reaches(ca, cb, s0, s) && ca.Verified() && cb.Verified() && Sunk(ca, cb, s, 0)
    requires Starvable(ca, cb, k)
    ensures Reaches(ca, cb, s0, t) && Starved(t.a, t.b, t.ab, t.ba)
  {
    hide Reaches;
    t := Sink(ca, cb, s0, s, k);
    LossyBounds(ca, cb, k);
    t := Trickle(ca, cb, s0, t, t.a.snd.window);
  }

  /** Whichever side sends: if its receiver is starvable, a lossless run starves it. */
  lemma {:induction false} CanStarve(ca: Config, cb: Config, opener: bool, k: nat) returns (moves: seq<Move>)
    requires ca.Verified() && cb.Verified()
    requires if opener then Starvable(ca, cb, k) else Starvable(cb, ca, k)
    ensures AllLossless(moves)
    ensures var s := Run(ca, cb, moves);
            if opener then Starved(s.a, s.b, s.ab, s.ba) else Starved(s.b, s.a, s.ba, s.ab)
  {
    var s := Start(ca, cb);
    var t := Opened(ca, cb);
    if opener {
      t := StarveFrom(ca, cb, s, t, k);
    } else {
      Here(cb, ca, Swap(t));
      var u := StarveFrom(cb, ca, Swap(t), Swap(t), k);
      SwapReaches(ca, cb, s, t, u);
      t := Swap(u);
    }
    moves :| AllLossless(moves) && Exec(ca, cb, s, moves) == t;
  }

  /** For any two configurations: some run in which all updates get through starves a sender exactly
      if its receiver is starvable. */
  lemma {:induction false} StarvesExactlyIf(ca: Config, cb: Config)
    requires ca.Verified() && cb.Verified()
    ensures (exists moves :: AllLossless(moves) && var s := Run(ca, cb, moves); Starved(s.a, s.b, s.ab, s.ba))
            <==> exists k: nat :: Starvable(ca, cb, k)
    ensures (exists moves :: AllLossless(moves) && var s := Run(ca, cb, moves); Starved(s.b, s.a, s.ba, s.ab))
            <==> exists k: nat :: Starvable(cb, ca, k)
  {
    hide Starved, Starvable, Run;
    forall moves | AllLossless(moves)
      ensures var s := Run(ca, cb, moves);
              && (Starved(s.a, s.b, s.ab, s.ba) ==> exists k: nat :: Starvable(ca, cb, k))
              && (Starved(s.b, s.a, s.ba, s.ab) ==> exists k: nat :: Starvable(cb, ca, k))
    {
      StarvesOnlyIf(ca, cb, moves);
    }
    if k: nat :| Starvable(ca, cb, k) { var moves := CanStarve(ca, cb, true, k); }
    if k: nat :| Starvable(cb, ca, k) { var moves := CanStarve(ca, cb, false, k); }
  }

  // --- Every peer --------------------------------------------------------------------------------

  /** Doubling that misses the maximum by more than one is starvable by a peer with long messages. */
  lemma {:induction false} MisalignedStarves(cx: Config, cy: Config, k: nat) returns (n: nat)
    requires cx.Verified() && cy.Verified() && 2 * Largest(cx) > cy.maxWindow
    requires !Aligned(Enlarged(cy, k), cy.maxWindow)
    ensures Starvable(cx, cy, n)
    decreases cy.maxWindow - Enlarged(cy, k)
  {
    hide Enlarged, Lossy;
    var w := Enlarged(cy, k);
    LossyBounds(cx, cy, k);
    NextLossy(cx, cy, k);
    if 2 * w <= cy.maxWindow {
      n := MisalignedStarves(cx, cy, k + 1);
    } else {
      n := k + 1;
      assert Slack(w, Largest(cx)) >= w;
    }
  }

  /** The receiver's windows are aligned exactly if no peer can be starved by it. */
  lemma {:induction false} AlignedIfSafeForAll(cy: Config)
    requires cy.Verified()
    ensures Aligned(cy.initialWindow, cy.maxWindow) <==>
            forall cx: Config, k: nat | cx.Verified() :: !Starvable(cx, cy, k)
  {
    hide Starvable;
    if Aligned(cy.initialWindow, cy.maxWindow) {
      forall cx: Config, k: nat | cx.Verified() ensures !Starvable(cx, cy, k) {
        AlignedIsSafe(cx, cy, k);
      }
    } else {
      var cx := Config(INITIAL_STREAM_WINDOW, INITIAL_STREAM_WINDOW, U32 - 1);
      var k := MisalignedStarves(cx, cy, 0);
    }
  }

  // --- A starved sender stays starved ------------------------------------------------------------

  predicate Stuck(x: Endpoint, y: Endpoint, xy: seq<Frame>, yx: seq<Frame>) {
    && x.snd.window == 0 && (x.snd.pc.WIdle? || x.snd.pc.WChecked?) && HeldDelta(x.rx) == 0
    && (y.rcv.pc.RIdle? || y.rcv.pc.RChecked? || y.rcv.pc.RFailed?) && y.rcv.buf.data == [] && Held(y.rx) == []
    && (forall f <- xy :: Body(f) == [])
    && (forall f <- yx :: Delta(f) == 0)
  }

  lemma {:induction false} SenderStuck(c: Config, x: Endpoint, y: Endpoint, xy: seq<Frame>, yx: seq<Frame>, act: Action)
    requires Stuck(x, y, xy, yx)
    ensures var m := Act(c, x, yx, act);
            Stuck(m.e, y, xy + m.sent, Rest(yx, m.taken)) && m.e.snd.accepted == x.snd.accepted
  {
    var m := Act(c, x, yx, act);
    assert forall f <- m.sent :: Body(f) == [];
  }

  lemma {:induction false} ReceiverStuck(c: Config, x: Endpoint, y: Endpoint, xy: seq<Frame>, yx: seq<Frame>, act: Action)
    requires Stuck(x, y, xy, yx)
    ensures var m := Act(c, y, xy, act); Stuck(x, m.e, Rest(xy, m.taken), yx + m.sent)
  {
    var m := Act(c, y, xy, act);
    assert forall f <- m.sent :: Delta(f) == 0;
  }

  /** Whatever happens next, a starved sender never gets another byte accepted. */
  lemma {:induction false} StarvedForGood(ca: Config, cb: Config, s: System, moves: seq<Move>, opener: bool)
    requires if opener then Starved(s.a, s.b, s.ab, s.ba) else Starved(s.b, s.a, s.ba, s.ab)
    ensures var t := Exec(ca, cb, s, moves);
            if opener then Stuck(t.a, t.b, t.ab, t.ba) && t.a.snd.accepted == s.a.snd.accepted
            else Stuck(t.b, t.a, t.ba, t.ab) && t.b.snd.accepted == s.b.snd.accepted
  {
    if moves != [] {
      var before, m := moves[..|moves| - 1], moves[|moves| - 1];
      StarvedForGood(ca, cb, s, before, opener);
      var t := Exec(ca, cb, s, before);
      hide Stuck, Act, Starved;
      match (opener, m.byOpener)
      case (true, true) => SenderStuck(ca, t.a, t.b, t.ab, t.ba, m.act);
      case (true, false) => ReceiverStuck(cb, t.a, t.b, t.ab, t.ba, m.act);
      case (false, true) => ReceiverStuck(ca, t.b, t.a, t.ba, t.ab, m.act);
      case (false, false) => SenderStuck(cb, t.b, t.a, t.ba, t.ab, m.act);
    }
  }
}
