/**
 One yamux stream as two endpoints joined by two FIFO links. Every critical section and atomic
 operation of stream.go and session.go is one action; each endpoint has one writer, one reader, one
 receive loop and any number of closing calls, interleaved at will.
 */
module YamuxSystem {
  import opened Words
  import opened YamuxBuffer
  import opened YamuxLife

  const INITIAL_STREAM_WINDOW: Word := 256 * 1024
  const HEADER_SIZE: Word := 12

  datatype Config = Config(initialWindow: Word, maxWindow: Word, maxMessage: Word) {
    /** The window and message checks of VerifyConfig (mux.go). */
    predicate Verified() {
      INITIAL_STREAM_WINDOW <= initialWindow <= maxWindow && 1024 <= maxMessage
    }
  }

  datatype Frame =
    | Data(flags: Flags, body: seq<Byte>)
    | Update(flags: Flags, delta: Word)

  function Body(f: Frame): seq<Byte> {
    if f.Data? then f.body else []
  }

  function Delta(f: Frame): Word {
    if f.Update? then f.delta else 0
  }

  /** Membership in the session's stream map; the accepting side starts Absent. */
  datatype Registration = Absent | Live | Removed

  datatype Writer =
    | WIdle
    | WChecked
    | WLoaded(window: Word)
    | WFlagged(window: Word, flags: Flags)
    | WSent(n: Word)

  datatype Reader =
    | RIdle
    | RChecked
    | RFlags
    | RGrow(flags: Flags)
    | RTune(flags: Flags, delta: Word)
    | RSend(flags: Flags, delta: Word)
    | RFailed

  datatype Stage = AckStage | FinStage | RstStage | CleanStage | BodyStage | AppendStage

  /** The receive loop. RxFailed: the session died on a protocol error of the peer. */
  datatype Rx = RxIdle | RxBusy(stage: Stage, frame: Frame, cleanup: bool) | RxFailed

  /** What a closing call still has to do after its critical section. */
  datatype Task = FinFlags(cleanup: bool) | FinSend(flags: Flags, cleanup: bool) | RstSend | Cleanup

  /** Registration, life cycle and pending closing calls; inUse once Open or Accept returned it. */
  datatype Control = Control(reg: Registration, down: bool, life: Life, inUse: bool, tasks: seq<Task>)

  /** accepted records the bytes that Write took, credited the sum of the deltas received. */
  datatype Sender = Sender(window: Word, pc: Writer, accepted: seq<Byte>, credited: nat)

  /** segs are the unread lengths of the frames buffered; delivered records the bytes that Read
      returned, grown how often the window was enlarged. */
  datatype Receiver = Receiver(window: Word, grown: nat, buf: Buf, segs: seq<nat>, pc: Reader, delivered: seq<Byte>)

  datatype Endpoint = Endpoint(ctl: Control, snd: Sender, rcv: Receiver, rx: Rx)

  function NewEndpoint(cfg: Config, reg: Registration, state: State): Endpoint {
    Endpoint(Control(reg, false, Life(state, Open, Open), false, []),
             Sender(INITIAL_STREAM_WINDOW, WIdle, [], 0),
             Receiver(cfg.initialWindow, 0, Buf(INITIAL_STREAM_WINDOW, []), [], RFlags, []),
             RxIdle)
  }

  /** One action; the Booleans resolve time-outs, memory, round-trip time and admission. */
  datatype Action =
    | CheckWritable | LoadWindow | WriteFlags | WriteSend(b: seq<Byte>, ok: bool) | WriteSubtract
    | CheckReadable | ReadBytes(n: nat) | UpdateFlags | UpdateGrow | UpdateTune(tune: bool) | UpdateSend(ok: bool)
    | TakeFrame(accept: bool) | RxStep
    | CloseWriteCall | CloseReadCall | ResetCall | TaskStep(i: nat, ok: bool)
    | Shutdown

  /** Endpoint after an action, the frames it put on its link, and whether it took the next frame. */
  datatype Effect = Effect(e: Endpoint, sent: seq<Frame>, taken: bool)

  function Stay(e: Endpoint): Effect {
    Effect(e, [], false)
  }

  /** recvWindow after one step of auto-tuning. */
  function NextWindow(w: Word, max: Word): Word {
    if w > (U32 - 1) / 2 then Min(U32 - 1, max) else Min(w * 2, max)
  }

  /** Bytes that one call of write puts on the wire: min(window, MaxMessageSize-12, uint32(len(b))). */
  function Chunk(cfg: Config, window: Word, b: seq<Byte>): Word {
    Min(window, Min(Sub32(cfg.maxMessage, HEADER_SIZE), Wrap32(|b|)))
  }

  /** The sections of write other than sendFlags and sendMsg. */
  function WindowStep(ctl: Control, w: Sender, act: Action): Sender {
    match (act, w.pc)
    case (CheckWritable, WIdle) => if ctl.inUse && ctl.life.wr.Open? then w.(pc := WChecked) else w
    case (LoadWindow, WChecked) => w.(pc := if w.window > 0 then WLoaded(w.window) else WIdle)
    case (WriteSubtract, WSent(n)) => w.(window := Sub32(w.window, n), pc := WIdle)
    case _ => w
  }

  function WriteFlagsStep(e: Endpoint): Endpoint {
    if !e.snd.pc.WLoaded? then e
    else
      var (life, flags) := SendFlags(e.ctl.life);
      e.(ctl := e.ctl.(life := life), snd := e.snd.(pc := WFlagged(e.snd.pc.window, flags)))
  }

  function WriteStep(cfg: Config, e: Endpoint, b: seq<Byte>, ok: bool): Effect {
    if !e.snd.pc.WFlagged? then Stay(e)
    else if !ok || e.ctl.down then Stay(e.(snd := e.snd.(pc := WIdle)))
    else
      var n := Chunk(cfg, e.snd.pc.window, b);
      Effect(e.(snd := e.snd.(pc := WSent(n), accepted := e.snd.accepted + b[..n])),
             [Data(e.snd.pc.flags, b[..n])], false)
  }

  /** The state check of Read. */
  function CheckStep(ctl: Control, r: Receiver): Receiver {
    if r.pc.RIdle? && ctl.inUse && !ctl.life.rd.Reset? then r.(pc := RChecked) else r
  }

  /** The rest of Read up to sendWindowUpdate: an empty buffer ends the call or sends it back to the
      state check; else bytes of one segment are taken. No one else takes bytes out in between. */
  function ReadStep(r: Receiver, n: nat): Receiver {
    if r.pc.RChecked? && r.buf.data == [] then r.(pc := RIdle)
    else if r.pc.RChecked? && r.segs != [] && n <= r.segs[0] && n <= |r.buf.data| then
      r.(buf := r.buf.(data := r.buf.data[n..]), delivered := r.delivered + r.buf.data[..n], pc := RFlags,
         segs := if n == r.segs[0] then r.segs[1..] else r.segs[0 := r.segs[0] - n])
    else r
  }

  function UpdateFlagsStep(e: Endpoint): Endpoint {
    if !e.rcv.pc.RFlags? || e.ctl.reg.Absent? then e
    else
      var (life, flags) := SendFlags(e.ctl.life);
      e.(ctl := e.ctl.(life := life), rcv := e.rcv.(pc := RGrow(flags)))
  }

  /** The first GrowTo of sendWindowUpdate. */
  function GrowStep(r: Receiver): Receiver {
    if !r.pc.RGrow? then r
    else
      var g := Grow(r.buf, r.window, r.pc.flags != NO_FLAGS);
      r.(buf := g.buf, pc := if g.needed then RTune(r.pc.flags, g.delta) else RIdle)
  }

  /** Auto-tuning: a second GrowTo whose delta replaces the first. */
  function TuneStep(cfg: Config, r: Receiver, tune: bool): Receiver {
    if !r.pc.RTune? then r
    else
      var RTune(flags, delta) := r.pc;
      var w := NextWindow(r.window, cfg.maxWindow);
      if tune && flags == NO_FLAGS && w > r.window then
        var g := Grow(r.buf, w, true);
        r.(window := w, grown := r.grown + 1, buf := g.buf, pc := RSend(flags, g.delta))
      else r.(pc := RSend(flags, delta))
  }

  function UpdateStep(e: Endpoint, ok: bool): Effect {
    match e.rcv.pc
    case RSend(flags, delta) =>
      if ok && !e.ctl.down then
        Effect(e.(rcv := e.rcv.(pc := RIdle), ctl := e.ctl.(inUse := true)), [Update(flags, delta)], false)
      else Stay(e.(rcv := e.rcv.(pc := if e.ctl.inUse then RIdle else RFailed)))
    case _ => Stay(e)
  }

  /** handleStreamMessage up to finding the stream, incomingStream included. */
  function Take(e: Endpoint, f: Frame, accept: bool): Effect {
    if f.flags.syn && !e.ctl.reg.Absent? then Effect(e.(rx := RxFailed), [], true) // duplicate stream
    else if f.flags.syn && !accept then
      Effect(e.(ctl := e.ctl.(reg := Removed), rcv := e.rcv.(pc := RFailed)),
             [Update(NO_FLAGS.(rst := true), 0)], true)
    else if f.flags.syn || e.ctl.reg.Live? then
      Effect(e.(ctl := e.ctl.(reg := Live), rx := RxBusy(AckStage, f, false)), [], true)
    else Effect(e, [], true) // no such stream: the frame is dropped
  }

  /** processFlags, one critical section at a time. */
  function FlagsStep(c: Control, rx: Rx): (Control, Rx)
    requires rx.RxBusy?
  {
    var RxBusy(stage, f, cleanup) := rx;
    match stage
    case AckStage => (c.(life := if f.flags.ack then OnAck(c.life) else c.life), RxBusy(FinStage, f, false))
    case FinStage =>
      var (life, clean) := if f.flags.fin then OnFin(c.life) else (c.life, false);
      (c.(life := life), RxBusy(RstStage, f, clean))
    case RstStage =>
      (c.(life := if f.flags.rst then Abort(c.life) else c.life), RxBusy(CleanStage, f, cleanup || f.flags.rst))
    case CleanStage => (c.(reg := if cleanup then Removed else c.reg), RxBusy(BodyStage, f, false))
    case _ => (c, rx)
  }

  /** incrSendWindow and readData after their flags. */
  function BodyStep(e: Endpoint): Endpoint
    requires e.rx.RxBusy?
  {
    var f := e.rx.frame;
    if e.rx.stage.AppendStage? then
      e.(rcv := e.rcv.(buf := Buf(Sub32(e.rcv.buf.cap, Wrap32(|Body(f)|)), e.rcv.buf.data + Body(f)),
                       segs := e.rcv.segs + [|Body(f)|]),
         rx := RxIdle)
    else if f.Update? then
      e.(snd := e.snd.(window := Add32(e.snd.window, f.delta), credited := e.snd.credited + f.delta), rx := RxIdle)
    else if f.body == [] then e.(rx := RxIdle)
    else if e.rcv.buf.cap < |f.body| then e.(rx := RxFailed) // receive window exceeded
    else e.(rx := e.rx.(stage := AppendStage))
  }

  function ReceiveStep(e: Endpoint): Endpoint
    requires e.rx.RxBusy?
  {
    if e.rx.stage.BodyStage? || e.rx.stage.AppendStage? then BodyStep(e)
    else
      var (c, rx) := FlagsStep(e.ctl, e.rx);
      e.(ctl := c, rx := rx)
  }

  function CloseStep(c: Control, act: Action): Control {
    if !c.inUse then c
    else if act.CloseWriteCall? && c.life.wr.Open? then
      var (life, cleanup) := CloseWrite(c.life);
      c.(life := life, tasks := c.tasks + [FinFlags(cleanup)])
    else if act.CloseReadCall? && c.life.rd.Open? then
      var (life, cleanup) := CloseRead(c.life);
      c.(life := life, tasks := if cleanup then c.tasks + [Cleanup] else c.tasks)
    else if act.ResetCall? && !c.life.state.Finished? then
      c.(life := Abort(c.life), tasks := c.tasks + [if c.life.state.Init? then Cleanup else RstSend])
    else c
  }

  /** What a closing call does next, and the flags it sends, if any. */
  function RunTask(c: Control, i: nat): (Control, Option<Flags>)
    requires i < |c.tasks|
  {
    var rest := c.tasks[..i] + c.tasks[i + 1..];
    match c.tasks[i]
    case FinFlags(cleanup) =>
      var (life, flags) := SendFlags(c.life);
      (c.(life := life, tasks := c.tasks[i := FinSend(flags.(fin := true), cleanup)]), None)
    case FinSend(flags, cleanup) => (c.(tasks := if cleanup then c.tasks[i := Cleanup] else rest), Some(flags))
    case RstSend => (c.(tasks := c.tasks[i := Cleanup]), Some(NO_FLAGS.(rst := true)))
    case Cleanup => (c.(reg := Removed, tasks := rest), None)
  }

  function TaskStepOf(e: Endpoint, i: nat, ok: bool): Effect
    requires i < |e.ctl.tasks|
  {
    var (c, flags) := RunTask(e.ctl, i);
    Effect(e.(ctl := c), if ok && !e.ctl.down && flags.Some? then [Update(flags.value, 0)] else [], false)
  }

  /** Session.Close: no more frames are handled or sent, live streams are aborted and forgotten. */
  function ShutdownStep(c: Control): Control {
    if c.reg.Live? then c.(down := true, life := Abort(c.life), reg := Removed) else c.(down := true)
  }

  function Act(cfg: Config, e: Endpoint, inbox: seq<Frame>, act: Action): Effect {
    match act
    case TakeFrame(accept) =>
      if e.rx.RxIdle? && !e.ctl.down && inbox != [] then Take(e, inbox[0], accept) else Stay(e)
    case RxStep => if e.rx.RxBusy? then Stay(ReceiveStep(e)) else Stay(e)
    case TaskStep(i, ok) => if i < |e.ctl.tasks| then TaskStepOf(e, i, ok) else Stay(e)
    case Shutdown => if e.rx.RxIdle? then Stay(e.(ctl := ShutdownStep(e.ctl))) else Stay(e)
    case WriteFlags => Stay(WriteFlagsStep(e))
    case WriteSend(b, ok) => WriteStep(cfg, e, b, ok)
    case CheckReadable => Stay(e.(rcv := CheckStep(e.ctl, e.rcv)))
    case ReadBytes(n) => Stay(e.(rcv := ReadStep(e.rcv, n)))
    case UpdateFlags => Stay(UpdateFlagsStep(e))
    case UpdateGrow =>
      var r := GrowStep(e.rcv);
      Stay(e.(rcv := r, ctl := e.ctl.(inUse := e.ctl.inUse || r.pc.RIdle?)))
    case UpdateTune(tune) => Stay(e.(rcv := TuneStep(cfg, e.rcv, tune)))
    case UpdateSend(ok) => UpdateStep(e, ok)
    case CheckWritable => Stay(e.(snd := WindowStep(e.ctl, e.snd, act)))
    case LoadWindow => Stay(e.(snd := WindowStep(e.ctl, e.snd, act)))
    case WriteSubtract => Stay(e.(snd := WindowStep(e.ctl, e.snd, act)))
    case _ => Stay(e.(ctl := CloseStep(e.ctl, act)))
  }

  // --- Two endpoints -----------------------------------------------------------------------------

  datatype System = System(a: Endpoint, b: Endpoint, ab: seq<Frame>, ba: seq<Frame>)

  datatype Move = Move(byOpener: bool, act: Action)

  /** The opener has registered its stream and is about to announce it; the acceptor knows nothing. */
  function Start(ca: Config, cb: Config): System {
    System(NewEndpoint(ca, Live, Init), NewEndpoint(cb, Absent, SynReceived), [], [])
  }

  function Rest(link: seq<Frame>, taken: bool): seq<Frame> {
    if taken && link != [] then link[1..] else link
  }

  function Step(ca: Config, cb: Config, s: System, m: Move): System {
    if m.byOpener then
      var x := Act(ca, s.a, s.ba, m.act);
      System(x.e, s.b, s.ab + x.sent, Rest(s.ba, x.taken))
    else
      var x := Act(cb, s.b, s.ab, m.act);
      System(s.a, x.e, Rest(s.ab, x.taken), s.ba + x.sent)
  }

  function Exec(ca: Config, cb: Config, s: System, moves: seq<Move>): System {
    if moves == [] then s
    else Step(ca, cb, Exec(ca, cb, s, moves[..|moves| - 1]), moves[|moves| - 1])
  }

  /** Every list of moves is a run; a move that is not enabled changes nothing. */
  function Run(ca: Config, cb: Config, moves: seq<Move>): System {
    Exec(ca, cb, Start(ca, cb), moves)
  }
}
