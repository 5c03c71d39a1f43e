/** Which names can be negotiated lazily (multiformats/multistream/lazyClient.go). */
module LazyLimits {
  import opened Words
  import opened Tokens
  import N = Negotiation
  import NegotiationLimits
  import opened LazyConn

  // --- What the read half passes is legal --------------------------------------------------------

  lemma {:induction false} StepPasses(c: Conn, s: Step)
    requires Enabled(c, s) && c.i.next <= |c.protos| && Legal(c.protos[..c.i.next])
    ensures var d := Next(c, s); d.protos == c.protos && d.i.next <= |d.protos| && Legal(d.protos[..d.i.next])
  {
    hide N.Stream, Parse, N.Na, Sendable;
    var d := Next(c, s);
    if d.i.next != c.i.next {
      assert d.i.next == c.i.next + 1 && Parse(c.i.inbox).Whole?;
      ParsedBytes(c.i.inbox);
    }
  }

  lemma {:induction false} RunPasses(cs: seq<Conn>, protos: seq<Name>, n: nat)
    requires Run(cs, protos) && n < |cs|
    ensures cs[n].protos == protos && cs[n].i.next <= |protos| && Legal(protos[..cs[n].i.next])
  {
    if n > 0 {
      hide Enabled, Next, Legal;
      RunPasses(cs, protos, n - 1);
      assert Follows(cs[n - 1], cs[n - 1 + 1]);
      var s :| Enabled(cs[n - 1], s) && cs[n] == Next(cs[n - 1], s);
      StepPasses(cs[n - 1], s);
    }
  }

  // --- The run in which the peer sends the handshake ---------------------------------------------

  lemma {:induction false} Extend(cs: seq<Conn>, protos: seq<Name>, s: Step) returns (ds: seq<Conn>)
    requires Run(cs, protos) && Enabled(cs[|cs| - 1], s)
    ensures Run(ds, protos) && ds[|ds| - 1] == Next(cs[|cs| - 1], s)
  {
    hide Enabled, Next;
    ds := cs + [Next(cs[|cs| - 1], s)];
    forall j | 0 <= j < |ds| - 1 ensures Follows(ds[j], ds[j + 1]) {
      if j == |cs| - 1 { assert Enabled(ds[j], s) && ds[j + 1] == Next(ds[j], s); } else { assert Follows(cs[j], cs[j + 1]); }
    }
  }

  /** A reader in its handshake, at name j of those that the peer has sent all of. */
  predicate Reading(c: Conn, protos: seq<Name>, j: nat) {
    && j <= |protos| && c.protos == protos && !c.closed && |c.procs| > 0 && c.procs[0].pc.ReadOwner?
    && c.i == In(Busy(0), j, None, N.Stream(protos[j..]), N.Stream(protos), [])
  }

  lemma {:induction false} Started(protos: seq<Name>) returns (cs: seq<Conn>)
    ensures Run(cs, protos) && Reading(cs[|cs| - 1], protos, 0)
  {
    hide N.Stream;
    cs := [New(protos)];
    cs := Extend(cs, protos, Begin(Read(0)));
    cs := Extend(cs, protos, Thread(0, 0));
    cs := Extend(cs, protos, Arrive(N.Stream(protos)));
    assert protos[0..] == protos && [] + N.Stream(protos) == N.Stream(protos);
  }

  /** The verdict on one name that the peer did send. */
  lemma {:induction false} NameRead(name: Name, rest: seq<Byte>)
    ensures var p := Parse(Token(name) + rest);
            && !p.More?
            && (p == Whole(name, rest) && name != N.Na() <==> Sendable(name) && name != N.Na())
            && (p.Whole? ==> p.name == name)
  {
    hide Parse, Token, Sendable, N.Na;
    if Sendable(name) { ParseToken(name, rest); } else { NegotiationLimits.TooLongParses(name, rest); }
  }

  lemma {:induction false} ReadOne(c: Conn, protos: seq<Name>, j: nat)
    requires Reading(c, protos, j) && j < |protos|
    ensures Enabled(c, Thread(0, 0))
    ensures var d := Next(c, Thread(0, 0));
            if Sendable(protos[j]) && protos[j] != N.Na() then Reading(d, protos, j + 1)
            else d.i.failure.Some? && d.i.arrived == N.Stream(protos)
  {
    var rest := N.Stream(protos[j + 1..]);
    assert protos[j..][1..] == protos[j + 1..];
    N.StreamHead(protos[j..]);
    NameRead(protos[j], rest);
    hide N.Stream, Parse, Token, N.Na, Sendable;
  }

  /** From there on the handshake succeeds exactly if the rest of the names are legal. */
  lemma {:induction false} ReadAll(cs: seq<Conn>, protos: seq<Name>, j: nat) returns (ds: seq<Conn>)
    requires Run(cs, protos) && Reading(cs[|cs| - 1], protos, j)
    ensures Run(ds, protos)
    ensures var c := ds[|ds| - 1];
            && c.i.arrived == N.Stream(protos)
            && if Legal(protos[j..]) then c.i.once.Over? && c.i.failure.None? else c.i.failure.Some?
    decreases |protos| - j
  {
    hide N.Stream, Parse, Follows, N.Na, Sendable;
    var c := cs[|cs| - 1];
    if j == |protos| {
      ds := Extend(cs, protos, Thread(0, 0));
    } else {
      ReadOne(c, protos, j);
      ds := Extend(cs, protos, Thread(0, 0));
      LegalCons(protos, j);
      if Sendable(protos[j]) && protos[j] != N.Na() { ds := ReadAll(ds, protos, j + 1); }
    }
  }

  lemma LegalCons(protos: seq<Name>, j: nat)
    requires j < |protos|
    ensures Legal(protos[j..]) <==> Sendable(protos[j]) && protos[j] != N.Na() && Legal(protos[j + 1..])
  {
    hide Sendable, N.Na;
    var ps, qs := protos[j..], protos[j + 1..];
    assert forall k :: 0 <= k < |qs| ==> qs[k] == ps[k + 1];
    assert forall k :: 0 < k < |ps| ==> ps[k] == qs[k - 1];
  }

  /** After some run: the read half is done, or has failed although the peer sent the names. */
  ghost predicate Done(cs: seq<Conn>, protos: seq<Name>) {
    Run(cs, protos) && var i := cs[|cs| - 1].i; i.once.Over? && i.failure.None?
  }

  ghost predicate FailedAnyway(cs: seq<Conn>, protos: seq<Name>) {
    Run(cs, protos) && var i := cs[|cs| - 1].i; N.Stream(protos) <= i.arrived && i.failure.Some?
  }

  lemma {:induction false} DoneIsLegal(cs: seq<Conn>, protos: seq<Name>)
    requires Done(cs, protos)
    ensures Legal(protos)
  {
    hide N.Stream;
    RunPasses(cs, protos, |cs| - 1);
    RunKeeps(cs, protos, |cs| - 1);
    assert protos[..|protos|] == protos;
  }

  lemma {:induction false} LegalNeverFails(cs: seq<Conn>, protos: seq<Name>)
    requires Legal(protos)
    ensures !FailedAnyway(cs, protos)
  {
    if FailedAnyway(cs, protos) { ReadsFollowHandshake(cs, protos, cs[|cs| - 1]); }
  }

  /** The read half can be done at all, and cannot fail once the peer sends the names, exactly if none is na or
      longer than a token: a peer that echoes na is taken to refuse, and a long name is not read. */
  lemma {:induction false} LazyExactlyIf(protos: seq<Name>)
    ensures Legal(protos) <==> exists cs :: Done(cs, protos)
    ensures Legal(protos) <==> forall cs :: !FailedAnyway(cs, protos)
  {
    hide N.Stream, Legal;
    var cs := Started(protos);
    var ds := ReadAll(cs, protos, 0);
    assert protos[0..] == protos;
    assert if Legal(protos) then Done(ds, protos) else FailedAnyway(ds, protos);
    hide Done, FailedAnyway;
    forall cs | Done(cs, protos) ensures Legal(protos) { DoneIsLegal(cs, protos); }
    if Legal(protos) {
      forall cs ensures !FailedAnyway(cs, protos) { LegalNeverFails(cs, protos); }
    }
  }
}
