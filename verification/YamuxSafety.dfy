/** What every step of the two-endpoint stream keeps: credit, bytes, life cycle, announcement. */
module YamuxSafety {
  import opened Words
  import opened YamuxLife
  import opened YamuxSystem

  // --- Totals over a link ------------------------------------------------------------------------

  function Bytes(link: seq<Frame>): seq<Byte> {
    if link == [] then [] else Body(link[0]) + Bytes(link[1..])
  }

  function Deltas(link: seq<Frame>): nat {
    if link == [] then 0 else Delta(link[0]) + Deltas(link[1..])
  }

  lemma {:induction false} LinkAppend(link: seq<Frame>, more: seq<Frame>)
    ensures Bytes(link + more) == Bytes(link) + Bytes(more)
    ensures Deltas(link + more) == Deltas(link) + Deltas(more)
  {
    if link == [] {
      assert link + more == more;
    } else {
      assert (link + more)[1..] == link[1..] + more;
      LinkAppend(link[1..], more);
    }
  }

  // --- The ledger of one endpoint ----------------------------------------------------------------

  function Debt(w: Writer): Word {
    if w.WSent? then w.n else 0
  }

  function Held(rx: Rx): seq<Byte> {
    if rx.RxBusy? then Body(rx.frame) else []
  }

  function HeldDelta(rx: Rx): Word {
    if rx.RxBusy? then Delta(rx.frame) else 0
  }

  function Promised(r: Reader): Word {
    match r
    case RTune(_, delta) => delta
    case RSend(_, delta) => delta
    case _ => 0
  }

  /** Credit this endpoint has as a sender; bytes on the wire but not yet subtracted are spent. */
  function Credit(w: Sender, rx: Rx): nat {
    Sub32(w.window, Debt(w.pc)) + HeldDelta(rx)
  }

  /** Room this endpoint has as a receiver that no frame taken or promised has used up. */
  function Room(r: Receiver, rx: Rx): int {
    r.buf.cap - Promised(r.pc) - |Held(rx)|
  }

  function Received(r: Receiver, rx: Rx): seq<Byte> {
    r.delivered + r.buf.data + Held(rx)
  }

  predicate SenderOk(ctl: Control, w: Sender) {
    && (w.pc.WLoaded? ==> w.pc.window <= w.window)
    && (w.pc.WFlagged? ==> w.pc.window <= w.window)
    && (!ctl.inUse ==> w.pc.WIdle?)
  }

  predicate ReceiverOk(cfg: Config, r: Receiver) {
    && r.buf.Fits()
    && r.buf.cap + |r.buf.data| <= r.window <= cfg.maxWindow
  }

  predicate RxOk(r: Receiver, rx: Rx) {
    rx.RxBusy? ==>
      && |Body(rx.frame)| < U32
      && (rx.stage.AppendStage? ==> rx.frame.Data? && |rx.frame.body| <= r.buf.cap)
  }

  predicate Local(cfg: Config, e: Endpoint) {
    && cfg.Verified()
    && SenderOk(e.ctl, e.snd)
    && ReceiverOk(cfg, e.rcv)
    && RxOk(e.rcv, e.rx)
  }

  /** What a step must not meet: credit that wraps, or a taken frame that does not fit. */
  predicate Solvent(e: Endpoint) {
    Credit(e.snd, e.rx) < U32 && 0 <= Room(e.rcv, e.rx)
  }

  const NOTHING := Update(NO_FLAGS, 0)

  /** The frame a step adds to this endpoint, if the stream still exists. */
  function Kept(x: Effect, inbox: seq<Frame>): Frame {
    if x.taken && inbox != [] && x.e.rx.RxBusy? then inbox[0] else NOTHING
  }

  /** Double entry for one step: no credit appears, no room is taken back, no byte is lost or made up. */
  ghost predicate Balanced(e: Endpoint, x: Effect, got: Frame) {
    && Credit(x.e.snd, x.e.rx) + |Bytes(x.sent)| == Credit(e.snd, e.rx) + Delta(got)
    && Room(x.e.rcv, x.e.rx) - Deltas(x.sent) >= Room(e.rcv, e.rx) - |Body(got)|
    && Received(x.e.rcv, x.e.rx) == Received(e.rcv, e.rx) + Body(got)
    && x.e.snd.accepted == e.snd.accepted + Bytes(x.sent)
    && x.e.snd.credited + HeldDelta(x.e.rx) == e.snd.credited + HeldDelta(e.rx) + Delta(got)
    && (forall f <- x.sent :: |Body(f)| < U32)
  }

  lemma {:induction false} Single(f: Frame)
    ensures Bytes([f]) == Body(f) && Deltas([f]) == Delta(f)
  {
    assert Bytes([f]) == Body(f) + Bytes([]);
  }

  lemma {:induction false} NextWindowBounds(w: Word, max: Word)
    requires w <= max
    ensures w <= NextWindow(w, max) == Min(2 * w, max) <= max
  {}

  /** One action of one endpoint does its bookkeeping right. */
  ghost predicate Sane(cfg: Config, e: Endpoint, inbox: seq<Frame>, act: Action) {
    var x := Act(cfg, e, inbox, act);
    && Local(cfg, x.e)
    && Balanced(e, x, Kept(x, inbox))
    && (x.e.rx.RxFailed? ==> e.rx.RxFailed? || x.taken)
  }

  lemma {:induction false} WriteSane(cfg: Config, e: Endpoint, inbox: seq<Frame>, act: Action)
    requires Local(cfg, e) && act.WriteSend?
    ensures Sane(cfg, e, inbox, act)
  {
    var x := Act(cfg, e, inbox, act);
    if |x.sent| == 1 { Single(x.sent[0]); }
  }

  lemma {:induction false} UpdateSane(cfg: Config, e: Endpoint, inbox: seq<Frame>, act: Action)
    requires Local(cfg, e) && act.UpdateSend?
    ensures Sane(cfg, e, inbox, act)
  {
    var x := Act(cfg, e, inbox, act);
    if |x.sent| == 1 { Single(x.sent[0]); }
  }

  lemma {:induction false} TaskSane(cfg: Config, e: Endpoint, inbox: seq<Frame>, act: Action)
    requires Local(cfg, e) && act.TaskStep?
    ensures Sane(cfg, e, inbox, act)
  {
    var x := Act(cfg, e, inbox, act);
    if |x.sent| == 1 { Single(x.sent[0]); }
  }

  /** Reading, growing and tuning only give room away and leave the byte stream alone. */
  ghost predicate ReceiverStep(cfg: Config, r: Receiver, q: Receiver) {
    && ReceiverOk(cfg, q)
    && r.buf.cap <= q.buf.cap
    && r.buf.cap - Promised(r.pc) <= q.buf.cap - Promised(q.pc)
    && r.delivered + r.buf.data == q.delivered + q.buf.data
  }

  lemma {:induction false} ReceiverSteps(cfg: Config, ctl: Control, r: Receiver, n: nat, tune: bool)
    requires ReceiverOk(cfg, r)
    ensures ReceiverStep(cfg, r, CheckStep(ctl, r))
    ensures ReceiverStep(cfg, r, ReadStep(r, n))
    ensures ReceiverStep(cfg, r, GrowStep(r))
    ensures ReceiverStep(cfg, r, TuneStep(cfg, r, tune))
  {
    NextWindowBounds(r.window, cfg.maxWindow);
  }

  /** An action of the reader that goes no further than its own side. */
  ghost predicate ReaderOnly(cfg: Config, e: Endpoint, x: Effect) {
    && x == Stay(e.(ctl := e.ctl.(inUse := x.e.ctl.inUse), rcv := x.e.rcv))
    && (e.ctl.inUse ==> x.e.ctl.inUse) && ReceiverStep(cfg, e.rcv, x.e.rcv)
  }

  lemma {:induction false} ReaderSane(cfg: Config, e: Endpoint, inbox: seq<Frame>, act: Action)
    requires Local(cfg, e) && ReaderOnly(cfg, e, Act(cfg, e, inbox, act))
    ensures Sane(cfg, e, inbox, act)
  {
    hide Act;
  }

  lemma {:induction false} BufferSane(cfg: Config, e: Endpoint, inbox: seq<Frame>, act: Action)
    requires Local(cfg, e)
    requires act.CheckReadable? || act.ReadBytes? || act.UpdateGrow? || act.UpdateTune?
    ensures Sane(cfg, e, inbox, act)
  {
    ReceiverSteps(cfg, e.ctl, e.rcv, if act.ReadBytes? then act.n else 0, act.UpdateTune? && act.tune);
    hide CheckStep, ReadStep, GrowStep, TuneStep, ReceiverStep, Local, Sane;
    ReaderSane(cfg, e, inbox, act);
  }

  lemma {:induction false} TakeSane(cfg: Config, e: Endpoint, inbox: seq<Frame>, act: Action)
    requires Local(cfg, e) && act.TakeFrame?
    requires inbox != [] ==> |Body(inbox[0])| < U32
    ensures Sane(cfg, e, inbox, act)
  {
    if e.rx.RxIdle? && !e.ctl.down && inbox != [] {
      TookLocal(cfg, e, inbox[0], act.accept);
      TookBalanced(e, inbox, act.accept);
      hide Take, Local, Balanced;
    } else {
      QuietSane(cfg, e, inbox, act);
    }
  }

  lemma {:induction false} TookLocal(cfg: Config, e: Endpoint, f: Frame, accept: bool)
    requires Local(cfg, e) && |Body(f)| < U32
    ensures Local(cfg, Take(e, f, accept).e) && Take(e, f, accept).taken
  {}

  lemma {:induction false} TookBalanced(e: Endpoint, inbox: seq<Frame>, accept: bool)
    requires e.rx.RxIdle? && inbox != []
    ensures var x := Take(e, inbox[0], accept); Balanced(e, x, Kept(x, inbox))
  {
    var x := Take(e, inbox[0], accept);
    if |x.sent| == 1 { Single(x.sent[0]); }
  }

  /** Storing a frame or crediting an update moves amounts between the columns of the ledger. */
  lemma {:induction false} BodyBalanced(cfg: Config, e: Endpoint)
    requires Local(cfg, e) && Solvent(e) && e.rx.RxBusy?
    ensures Local(cfg, BodyStep(e)) && !BodyStep(e).rx.RxFailed?
    ensures Balanced(e, Stay(BodyStep(e)), NOTHING)
  {}

  lemma {:induction false} ReceiveSane(cfg: Config, e: Endpoint, inbox: seq<Frame>, act: Action)
    requires Local(cfg, e) && Solvent(e) && act.RxStep?
    ensures Sane(cfg, e, inbox, act)
  {
    if e.rx.RxBusy? && (e.rx.stage.BodyStage? || e.rx.stage.AppendStage?) {
      BodyBalanced(cfg, e);
    }
  }

  /** Actions on the send window that touch no link. */
  lemma {:induction false} WindowSane(cfg: Config, e: Endpoint, inbox: seq<Frame>, act: Action)
    requires Local(cfg, e)
    requires act.CheckWritable? || act.LoadWindow? || act.WriteSubtract? || act.WriteFlags?
    ensures Sane(cfg, e, inbox, act)
  {}

  /** A step that leaves both ledgers alone. */
  predicate Quiet(e: Endpoint, x: Effect) {
    && x == Stay(e.(ctl := x.e.ctl, rcv := e.rcv.(pc := x.e.rcv.pc))) && x.e.ctl.inUse == e.ctl.inUse
    && Promised(x.e.rcv.pc) == Promised(e.rcv.pc)
  }

  lemma {:induction false} QuietSane(cfg: Config, e: Endpoint, inbox: seq<Frame>, act: Action)
    requires Local(cfg, e) && Quiet(e, Act(cfg, e, inbox, act))
    ensures Sane(cfg, e, inbox, act)
  {
    hide Act;
  }

  /** Actions on the life cycle only. */
  lemma {:induction false} ControlSane(cfg: Config, e: Endpoint, inbox: seq<Frame>, act: Action)
    requires Local(cfg, e)
    requires act.UpdateFlags? || act.Shutdown? || act.CloseWriteCall? || act.CloseReadCall? || act.ResetCall?
    ensures Sane(cfg, e, inbox, act)
  {
    hide Local, Sane, Abort, CloseWrite, CloseRead, SendFlags;
    QuietSane(cfg, e, inbox, act);
  }

  lemma {:induction false} ActSane(cfg: Config, e: Endpoint, inbox: seq<Frame>, act: Action)
    requires Local(cfg, e) && Solvent(e)
    requires inbox != [] ==> |Body(inbox[0])| < U32
    ensures Sane(cfg, e, inbox, act)
  {
    match act
    case WriteSend(_, _) => WriteSane(cfg, e, inbox, act);
    case UpdateSend(_) => UpdateSane(cfg, e, inbox, act);
    case TaskStep(_, _) => TaskSane(cfg, e, inbox, act);
    case TakeFrame(_) => TakeSane(cfg, e, inbox, act);
    case RxStep => ReceiveSane(cfg, e, inbox, act);
    case CheckReadable => BufferSane(cfg, e, inbox, act);
    case ReadBytes(_) => BufferSane(cfg, e, inbox, act);
    case UpdateGrow => BufferSane(cfg, e, inbox, act);
    case UpdateTune(_) => BufferSane(cfg, e, inbox, act);
    case CheckWritable => WindowSane(cfg, e, inbox, act);
    case LoadWindow => WindowSane(cfg, e, inbox, act);
    case WriteSubtract => WindowSane(cfg, e, inbox, act);
    case WriteFlags => WindowSane(cfg, e, inbox, act);
    case _ => ControlSane(cfg, e, inbox, act);
  }
}
