/**
 The Stream object itself (p2plib/yamux/stream.go): each call run to its end without interference,
 proved to do what the actions of YamuxSystem do one by one.
 */
module YamuxStream {
  import opened Words
  import opened YamuxBuffer
  import opened YamuxLife
  import opened YamuxSystem
  import opened YamuxSafety

  datatype Error = NoError | StreamClosed | StreamReset | Timeout | SendFailed | WindowExceeded

  /** write moves on exactly if the length of the rest is not a multiple of 2^32. */
  lemma WriteMoves(cfg: Config, window: Word, b: seq<Byte>)
    requires cfg.Verified() && window > 0
    ensures Chunk(cfg, window, b) > 0 <==> |b| % U32 != 0
    ensures Chunk(cfg, window, b) <= window && Chunk(cfg, window, b) <= |b|
  {}

  /** What write leaves of 2^32 bytes or more is still that much: such a Write never comes to its end. */
  lemma {:induction false} LongWriteStays(cfg: Config, window: Word, b: seq<Byte>)
    requires |b| >= U32
    ensures |b| - Chunk(cfg, window, b) >= U32
  {
    assert |b| == U32 * (|b| / U32) + |b| % U32;
  }

  /** The bytes that k writes put on the wire when nothing but the message size limits them. */
  function Sent(cfg: Config, length: nat, k: nat): (n: nat)
    requires cfg.Verified()
    ensures n <= length && (k == 0 ==> n == 0)
  {
    Min(length, k * (cfg.maxMessage - HEADER_SIZE))
  }

  lemma {:induction false} NextSent(cfg: Config, window: Word, b: seq<Byte>, k: nat)
    requires cfg.Verified() && |b| < U32 && Sent(cfg, |b|, k) < |b| <= window + Sent(cfg, |b|, k)
    ensures Sent(cfg, |b|, k + 1) == Sent(cfg, |b|, k) + Chunk(cfg, window, b[Sent(cfg, |b|, k)..])
  {
    var m := cfg.maxMessage - HEADER_SIZE;
    assert (k + 1) * m == k * m + m;
  }

  lemma {:induction false} SentMonotone(cfg: Config, length: nat, j: nat, k: nat)
    requires cfg.Verified() && j <= k
    ensures Sent(cfg, length, j) <= Sent(cfg, length, k)
  {
    MulMonotone(j, k, cfg.maxMessage - HEADER_SIZE);
  }

  lemma {:induction false} MulMonotone(j: nat, k: nat, m: nat)
    requires j <= k
    ensures j * m <= k * m
    decreases k
  {
    if j < k {
      MulMonotone(j, k - 1, m);
      assert k * m == (k - 1) * m + m;
    }
  }

  /** Sending the next n bytes of b extends what is on the wire by just these. */
  lemma {:induction false} WireGrows(start: seq<Frame>, wire: seq<Frame>, f: Frame, b: seq<Byte>, total: nat, n: nat)
    requires total + n <= |b| && Body(f) == b[total..][..n]
    requires start <= wire && Bytes(wire) == Bytes(start) + b[..total]
    ensures start <= wire + [f] && Bytes(wire + [f]) == Bytes(start) + b[..total + n]
  {
    Single(f);
    LinkAppend(wire, [f]);
    assert b[..total + n] == b[..total] + b[total..][..n];
  }

  class Stream {
    const cfg: Config
    const recvBuf: SegmentedBuffer
    var state: State
    var readState: Half
    var writeState: Half
    var sendWindow: Word
    var recvWindow: Word
    var wire: seq<Frame> // frames handed to the session
    var removed: bool // closeStream has been called

    ghost function Halves(): Life
      reads this
    {
      Life(state, readState, writeState)
    }

    ghost predicate Valid()
      reads this, recvBuf
    {
      cfg.Verified() && recvBuf.Valid() && Sound(Halves()) && recvWindow <= cfg.maxWindow
    }

    /** The receiver half as an endpoint of YamuxSystem whose reader is at pc. */
    ghost function Rcv(pc: Reader): Receiver
      requires recvBuf.Valid()
      reads this, recvBuf
    {
      Receiver(recvWindow, 0, recvBuf.View(), [], pc, [])
    }

    constructor (cfg: Config, state: State)
      requires cfg.Verified() && !state.Finished?
      ensures Valid() && Halves() == Life(state, Open, Open) && wire == [] && !removed
      ensures sendWindow == INITIAL_STREAM_WINDOW && fresh(recvBuf)
      ensures Rcv(RFlags) == NewEndpoint(cfg, Live, state).rcv
    {
      this.cfg := cfg;
      recvBuf := new SegmentedBuffer(INITIAL_STREAM_WINDOW);
      this.state, readState, writeState := state, Open, Open;
      sendWindow, recvWindow := INITIAL_STREAM_WINDOW, cfg.initialWindow;
      wire, removed := [], false;
    }

    method GetSendFlags() returns (flags: Flags)
      requires Valid()
      modifies `state
      ensures Valid() && (Halves(), flags) == SendFlags(old(Halves()))
    {
      flags := NO_FLAGS;
      match state
      case Init =>
        flags := flags.(syn := true);
        state := SynSent;
      case SynReceived =>
        flags := flags.(ack := true);
        state := Established;
      case _ =>
    }

    /** The window doubles and the buffer grows a second time, whose delta replaces the first. */
    method Tune(flags: Flags, delta: Word, memory: bool) returns (d: Word)
      requires Valid() && flags == NO_FLAGS
      modifies `recvWindow, recvBuf
      ensures Valid()
      ensures var tuned := TuneStep(cfg, old(Rcv(RTune(flags, delta))), memory);
              Rcv(tuned.pc) == tuned.(grown := 0) && tuned.pc == RSend(flags, d)
    {
      d := delta;
      var window;
      if recvWindow > (U32 - 1) / 2 {
        window := Min(U32 - 1, cfg.maxWindow);
      } else {
        window := Min(recvWindow * 2, cfg.maxWindow);
      }
      if window > recvWindow && memory {
        recvWindow := window;
        var _, second := recvBuf.GrowTo(recvWindow, true);
        d := second;
      }
    }

    /** fast: the round trip was short; memory: the manager grants the growth; ok: the send succeeds. */
    method SendWindowUpdate(fast: bool, memory: bool, ok: bool) returns (err: Error)
      requires Valid()
      modifies `state, `recvWindow, `wire, recvBuf
      ensures Valid()
      ensures var (life, flags) := SendFlags(old(Halves()));
              var grown := GrowStep(old(Rcv(RFlags)).(pc := RGrow(flags)));
              var tuned := TuneStep(cfg, grown, fast && memory);
              && Halves() == life
              && Rcv(tuned.pc) == tuned.(grown := 0)
              && (grown.pc.RTune? && ok ==> wire == old(wire) + [Update(flags, tuned.pc.delta)] && err.NoError?)
              && (!(grown.pc.RTune? && ok) ==> wire == old(wire) && (err.NoError? <==> !grown.pc.RTune?))
    {
      hide SendFlags, Grow, NextWindow;
      var flags := GetSendFlags();
      var needed, delta := recvBuf.GrowTo(recvWindow, flags != NO_FLAGS);
      if !needed {
        return NoError;
      }
      if flags == NO_FLAGS && fast {
        delta := Tune(flags, delta, memory);
      }
      if !ok {
        return SendFailed;
      }
      wire := wire + [Update(flags, delta)];
      err := NoError;
    }

    /** One short write; ok: the send succeeds before the deadline. */
    method WriteOnce(b: seq<Byte>, ok: bool) returns (n: nat, err: Error)
      requires Valid() && b != []
      modifies `state, `sendWindow, `wire
      ensures Valid() && n <= |b| && n <= old(sendWindow) && sendWindow == old(sendWindow) - n
      ensures err.NoError? <==> writeState.Open? && old(sendWindow) > 0 && ok
      ensures err.StreamClosed? <==> writeState.Closed?
      ensures err.StreamReset? <==> writeState.Reset?
      ensures if err.NoError? then
                var (life, flags) := SendFlags(old(Halves()));
                n == Chunk(cfg, old(sendWindow), b) && Halves() == life && wire == old(wire) + [Data(flags, b[..n])]
              else n == 0 && wire == old(wire)
    {
      if writeState.Closed? { return 0, StreamClosed; }
      if writeState.Reset? { return 0, StreamReset; }
      var window := sendWindow;
      if window == 0 { return 0, Timeout; }
      var flags := GetSendFlags();
      var max := Chunk(cfg, window, b);
      if !ok { return 0, SendFailed; }
      wire := wire + [Data(flags, b[..max])];
      sendWindow := Sub32(sendWindow, max);
      return max, NoError;
    }

    /** Sends succeed for the first `sends` frames. The call comes to its end without an error exactly
        if the bytes number less than 2^32, the window covers them and so do the frames. */
    method Write(b: seq<Byte>, sends: nat) returns (total: nat, err: Error)
      requires Valid()
      modifies `state, `sendWindow, `wire
      ensures Valid() && total <= |b| && sendWindow == old(sendWindow) - total
      ensures old(wire) <= wire && Bytes(wire) == Bytes(old(wire)) + b[..total]
      ensures err.NoError? <==> total == |b|
      ensures err.NoError? <==>
                b == [] || (writeState.Open? && |b| < U32 && |b| <= old(sendWindow) && Sent(cfg, |b|, sends) == |b|)
      ensures !writeState.Open? && b != [] ==> total == 0 && wire == old(wire)
    {
      hide Sent, Chunk, Bytes, SendFlags;
      total := 0;
      var sent := 0;
      assert b[..0] == [];
      while total < |b|
        invariant Valid() && total <= |b| && sendWindow == old(sendWindow) - total
        invariant sent <= sends
        invariant old(wire) <= wire && Bytes(wire) == Bytes(old(wire)) + b[..total]
        invariant sent > 0 ==> writeState.Open?
        invariant sent == 0 ==> total == 0 && wire == old(wire)
        invariant |b| >= U32 ==> |b| - total >= U32
        invariant |b| < U32 && |b| <= old(sendWindow) ==> total == Sent(cfg, |b|, sent)
        decreases sends - sent
      {
        ghost var before := wire;
        var n, e := WriteOnce(b[total..], sent < sends);
        if e != NoError {
          return total, e;
        }
        if |b| >= U32 { LongWriteStays(cfg, sendWindow + n, b[total..]); }
        else if |b| <= old(sendWindow) { NextSent(cfg, sendWindow + n, b, sent); }
        WireGrows(old(wire), before, wire[|wire| - 1], b, total, n);
        sent := sent + 1;
        total := total + n;
      }
      SentMonotone(cfg, |b|, sent, sends);
      err := NoError;
    }

    method Reset(ok: bool)
      requires Valid()
      modifies `state, `readState, `writeState, `wire, `removed
      ensures Valid()
      ensures if old(state).Finished? then Halves() == old(Halves()) && wire == old(wire) && removed == old(removed)
              else Halves() == Abort(old(Halves())) && removed
      ensures wire == old(wire) || wire == old(wire) + [Update(NO_FLAGS.(rst := true), 0)]
      ensures old(state).Init? ==> wire == old(wire)
    {
      var sendReset := false;
      match state {
        case Finished => return;
        case Init =>
        case _ => sendReset := true;
      }
      if writeState.Open? { writeState := Half.Reset; }
      if readState.Open? { readState := Half.Reset; }
      state := Finished;
      if sendReset && ok { wire := wire + [Update(NO_FLAGS.(rst := true), 0)]; }
      removed := true;
    }

    method CloseWriteHalf(ok: bool) returns (err: Error)
      requires Valid()
      modifies `state, `writeState, `wire, `removed
      ensures Valid()
      ensures if old(writeState).Open? then
                var (life, cleanup) := CloseWrite(old(Halves()));
                var (after, flags) := SendFlags(life);
                && Halves() == after && removed == (old(removed) || cleanup)
                && wire == (if ok then old(wire) + [Update(flags.(fin := true), 0)] else old(wire))
              else Halves() == old(Halves()) && wire == old(wire) && removed == old(removed)
      ensures old(writeState).Reset? <==> err.StreamReset?
    {
      if writeState.Closed? { return NoError; }
      if writeState.Reset? { return StreamReset; }
      writeState := Closed;
      var cleanup := !readState.Open?;
      if cleanup { state := Finished; }
      var flags := GetSendFlags();
      if ok { wire := wire + [Update(flags.(fin := true), 0)]; }
      if cleanup { removed := true; }
      err := if ok then NoError else SendFailed;
    }

    method CloseReadHalf()
      requires Valid()
      modifies `state, `readState, `removed
      ensures Valid()
      ensures if old(readState).Open? then
                var (life, cleanup) := CloseRead(old(Halves()));
                Halves() == life && removed == (old(removed) || cleanup)
              else Halves() == old(Halves()) && removed == old(removed)
    {
      if !readState.Open? { return; }
      readState := Half.Reset;
      if !writeState.Open? {
        state := Finished;
        removed := true;
      }
    }

    method ProcessFlags(flags: Flags)
      requires Valid()
      modifies `state, `readState, `writeState, `removed
      ensures Valid()
      ensures Halves() == AfterFlags(old(Halves()), flags)
      ensures removed <==> old(removed) || flags.rst || (flags.fin && OnFin(old(Halves())).1)
      ensures Halves().state.Finished? ==> removed || old(Halves()).state.Finished?
    {
      var close := false;
      if flags.ack && state.SynSent? {
        state := Established;
      }
      if flags.fin && readState.Open? {
        readState := Closed;
        if !writeState.Open? {
          close := true;
          state := Finished;
        }
      }
      if flags.rst {
        if readState.Open? { readState := Half.Reset; }
        if writeState.Open? { writeState := Half.Reset; }
        state := Finished;
        close := true;
      }
      if close { removed := true; }
    }
  }

  /** A frame's flags take effect in the order ACK, FIN, RST. */
  function AfterFlags(l: Life, flags: Flags): (m: Life)
    ensures Sound(l) ==> Sound(m) && Evolves(l, m)
  {
    var acked := if flags.ack then OnAck(l) else l;
    var closed := if flags.fin then OnFin(acked).0 else acked;
    if flags.rst then Abort(closed) else closed
  }
}
