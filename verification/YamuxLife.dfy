/** The stream and half-stream states (p2plib/yamux/stream.go), one function per critical section. */
module YamuxLife {
  datatype State = Init | SynSent | SynReceived | Established | Finished
  datatype Half = Open | Closed | Reset

  datatype Flags = Flags(syn: bool, ack: bool, fin: bool, rst: bool)
  const NO_FLAGS := Flags(false, false, false, false)

  datatype Life = Life(state: State, rd: Half, wr: Half)

  /** A stream is finished exactly when neither direction is open. */
  predicate Sound(l: Life) {
    l.state.Finished? <==> !l.rd.Open? && !l.wr.Open?
  }

  /** A half that left Open never changes again, and Finished is final. */
  predicate Evolves(l: Life, m: Life) {
    && (!l.rd.Open? ==> m.rd == l.rd)
    && (!l.wr.Open? ==> m.wr == l.wr)
    && (l.state.Finished? ==> m.state.Finished?)
    && (m.state.Init? ==> l.state.Init?)
  }

  function SendFlags(l: Life): (r: (Life, Flags))
    ensures Sound(l) ==> Sound(r.0) && Evolves(l, r.0)
    ensures r.1.syn <==> l.state.Init?
    ensures r.1.ack <==> l.state.SynReceived?
    ensures !r.1.fin && !r.1.rst && !r.0.state.Init? && !r.0.state.SynReceived?
    ensures r.0.rd == l.rd && r.0.wr == l.wr
  {
    match l.state
    case Init => (l.(state := SynSent), NO_FLAGS.(syn := true))
    case SynReceived => (l.(state := Established), NO_FLAGS.(ack := true))
    case _ => (l, NO_FLAGS)
  }

  function ResetHalf(h: Half): Half {
    if h.Open? then Reset else h
  }

  /** Both halves reset if still open: Reset, forceClose and a received RST. */
  function Abort(l: Life): (m: Life)
    ensures Sound(m) && Evolves(l, m) && m.state.Finished?
  {
    Life(Finished, ResetHalf(l.rd), ResetHalf(l.wr))
  }

  /** CloseWrite on a stream open for writing; the flag asks for clean-up. */
  function CloseWrite(l: Life): (r: (Life, bool))
    requires l.wr.Open?
    ensures Sound(l) ==> Sound(r.0) && Evolves(l, r.0)
    ensures Sound(l) ==> (r.1 <==> r.0.state.Finished?)
  {
    var cleanup := !l.rd.Open?;
    (Life(if cleanup then Finished else l.state, l.rd, Closed), cleanup)
  }

  /** CloseRead on a stream open for reading. */
  function CloseRead(l: Life): (r: (Life, bool))
    requires l.rd.Open?
    ensures Sound(l) ==> Sound(r.0) && Evolves(l, r.0)
    ensures Sound(l) ==> (r.1 <==> r.0.state.Finished?)
  {
    var cleanup := !l.wr.Open?;
    (Life(if cleanup then Finished else l.state, Reset, l.wr), cleanup)
  }

  function OnAck(l: Life): (m: Life)
    ensures Sound(l) ==> Sound(m) && Evolves(l, m)
    ensures m.state.Finished? <==> l.state.Finished?
  {
    if l.state.SynSent? then l.(state := Established) else l
  }

  function OnFin(l: Life): (r: (Life, bool))
    ensures Sound(l) ==> Sound(r.0) && Evolves(l, r.0)
    ensures Sound(l) ==> (r.1 <==> r.0.state.Finished? && !l.state.Finished?)
  {
    if !l.rd.Open? then (l, false)
    else
      var cleanup := !l.wr.Open?;
      (Life(if cleanup then Finished else l.state, Closed, l.wr), cleanup)
  }
}
