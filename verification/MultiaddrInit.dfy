/** The registry that package init leaves, and its law (multiformats/multiaddr: protocols.go, transcoders.go). */
module MultiaddrInit {
  import opened Words
  import opened Keys
  import opened Components
  import opened MultiaddrText

  const IPFS: Str := ['i' as int, 'p' as int, 'f' as int, 's' as int]

  // --- What registration keeps -------------------------------------------------------------------

  /** A protocol as the package defines them: coded by its own varint, with a transcoder that keeps its promises. */
  ghost predicate Sound(p: Protocol) {
    Coded(p) && LawfulProtocol(p)
  }

  lemma {:induction false} AddedLawful(t: Tables, p: Protocol)
    requires Lawful(t) && Sound(p) && p.name !in t.byName && p.code !in t.byCode && (p.path ==> p.size < 0)
    ensures Lawful(Added(t, p))
  {
    AddedConsistent(t, p);
    hide LawfulProtocol, Coded, Consistent;
  }

  /** A further name changes neither what is valid nor what it means. */
  lemma {:induction false} AliasedLawful(t: Tables, name: Str, p: Protocol)
    requires Lawful(t) && p.code in t.byCode && t.byCode[p.code] == p
    requires name in t.byName ==> t.byName[name] == p
    ensures Lawful(Aliased(t, name, p))
  {
    AliasedConsistent(t, name, p);
    hide LawfulProtocol, Coded, Consistent;
  }

  // --- Package init ------------------------------------------------------------------------------

  predicate Apart(ps: seq<Protocol>) {
    forall i, j :: 0 <= i < j < |ps| ==> ps[i].name != ps[j].name && ps[i].code != ps[j].code
  }

  predicate PathsPrefixed(ps: seq<Protocol>) {
    forall i :: 0 <= i < |ps| ==> ps[i].path ==> ps[i].size < 0
  }

  /** The tables hold what the list holds, each protocol under its own name only. */
  ghost predicate Holds(t: Tables, ps: seq<Protocol>) {
    && (forall n <- t.byName :: t.byName[n] in ps && t.byName[n].name == n)
    && (forall c <- t.byCode :: t.byCode[c] in ps)
    && forall p <- ps :: p.name in t.byName && p.code in t.byCode && t.byCode[p.code] == p
  }

  lemma {:induction false} HoldsMore(t: Tables, ps: seq<Protocol>, p: Protocol)
    requires Holds(t, ps) && p.name !in t.byName && p.code !in t.byCode
    ensures Holds(Added(t, p), ps + [p])
  {
    assert forall q :: q in ps + [p] <==> q in ps || q == p;
  }

  lemma {:induction false} ApartNext(t: Tables, ps: seq<Protocol>, i: nat)
    requires i < |ps| && Holds(t, ps[..i]) && Consistent(t) && Apart(ps[..i])
    ensures ps[i].name !in t.byName && ps[i].code !in t.byCode <==> Apart(ps[..i + 1])
  {
    var front, p := ps[..i], ps[i];
    assert ps[..i + 1] == front + [p];
    if p.name !in t.byName && p.code !in t.byCode {
      forall k | 0 <= k < i ensures front[k].name != p.name && front[k].code != p.code { assert front[k] in front; }
    }
    if Apart(front + [p]) {
      forall q <- front ensures q.name != p.name && q.code != p.code {
        var k :| 0 <= k < i && front[k] == q;
        assert (front + [p])[k] == q && (front + [p])[i] == p;
      }
      assert forall n <- t.byName :: t.byName[n] in front;
      assert forall c <- t.byCode :: t.byCode[c] in front;
    }
  }

  lemma NothingHeld()
    ensures Lawful(Tables(map[], map[])) && Loaded(Tables(map[], map[]), [])
  {
  }

  lemma {:induction false} NotApart(ps: seq<Protocol>, i: nat)
    requires i < |ps| && (!Apart(ps[..i + 1]) || (ps[i].path && ps[i].size >= 0))
    ensures !Apart(ps) || !PathsPrefixed(ps)
  {
    if !Apart(ps[..i + 1]) {
      var j, k :| 0 <= j < k < i + 1 && (ps[..i + 1][j].name == ps[..i + 1][k].name || ps[..i + 1][j].code == ps[..i + 1][k].code);
      assert ps[..i + 1][j] == ps[j] && ps[..i + 1][k] == ps[k];
    }
  }

  lemma {:induction false} Registered(t: Tables, ps: seq<Protocol>)
    requires Lawful(t) && Holds(t, ps) && forall p <- ps :: Sound(p)
    ensures forall p <- ps :: WithName(t, p.name) == Some(p) && WithCode(t, p.code) == Some(p)
  {
    forall p <- ps ensures WithName(t, p.name) == Some(p) && WithCode(t, p.code) == Some(p) {
      assert Sound(p);
    }
  }

  /** What the loop of init keeps. */
  ghost predicate Loaded(t: Tables, ps: seq<Protocol>) {
    Lawful(t) && Holds(t, ps) && Apart(ps) && PathsPrefixed(ps)
  }

  /** The conditions of AddProtocol. */
  predicate Admissible(t: Tables, p: Protocol) {
    p.name !in t.byName && p.code !in t.byCode && (p.size != 0 ==> p.transcoder.Some?) && (p.path ==> p.size < 0)
  }

  lemma {:induction false} LoadedNext(t: Tables, ps: seq<Protocol>, i: nat)
    requires i < |ps| && Loaded(t, ps[..i]) && Sound(ps[i])
    ensures Admissible(t, ps[i]) ==> Loaded(Added(t, ps[i]), ps[..i + 1])
    ensures !Admissible(t, ps[i]) ==> !Apart(ps) || !PathsPrefixed(ps)
  {
    var p := ps[i];
    assert p.size != 0 ==> p.transcoder.Some?;
    ApartNext(t, ps, i);
    assert ps[..i + 1] == ps[..i] + [p];
    hide Lawful, Apart, Holds, Sound;
    if Admissible(t, p) {
      AddedLawful(t, p);
      HoldsMore(t, ps[..i], p);
    } else {
      NotApart(ps, i);
    }
  }

  /** Registers the protocols in order, or panics, and then calls the aliased one ipfs as well. */
  method Init(ps: seq<Protocol>, aliased: Protocol) returns (r: Registry, panic: bool)
    requires (forall p <- ps :: Sound(p) && p.name != IPFS) && aliased in ps
    ensures panic <==> !Apart(ps) || !PathsPrefixed(ps)
    ensures fresh(r) && r.Valid()
    ensures !panic ==>
              && Lawful(r.tables) && r.protocols == ps
              && WithName(r.tables, IPFS) == Some(aliased)
              && forall p <- ps :: WithName(r.tables, p.name) == Some(p) && WithCode(r.tables, p.code) == Some(p)
  {
    hide Lawful, Consistent, Apart, Holds, Sound, PathsPrefixed, Added;
    r := new Registry();
    NothingHeld();
    var i := 0;
    assert ps[..0] == [];
    while i < |ps|
      invariant i <= |ps| && fresh(r) && r.Valid() && r.protocols == ps[..i] && Loaded(r.tables, ps[..i])
    {
      assert ps[i] in ps && ps[..i + 1] == ps[..i] + [ps[i]];
      LoadedNext(r.tables, ps, i);
      var ok := r.AddProtocol(ps[i]);
      if !ok { return r, true; }
      i := i + 1;
    }
    assert ps[..i] == ps;
    LoadedAliased(r.tables, ps, aliased);
    r.Alias(IPFS, aliased);
    panic := false;
  }

  lemma {:induction false} LoadedAliased(t: Tables, ps: seq<Protocol>, aliased: Protocol)
    requires Loaded(t, ps) && aliased in ps && forall p <- ps :: Sound(p) && p.name != IPFS
    ensures IPFS !in t.byName && Lawful(Aliased(t, IPFS, aliased))
    ensures WithName(Aliased(t, IPFS, aliased), IPFS) == Some(aliased)
    ensures forall p <- ps :: WithName(Aliased(t, IPFS, aliased), p.name) == Some(p)
                           && WithCode(Aliased(t, IPFS, aliased), p.code) == Some(p)
  {
    Registered(t, ps);
    assert Sound(aliased);
    hide Lawful, Apart, LawfulProtocol;
    AliasedLawful(t, IPFS, aliased);
  }

  lemma {:induction false} UnixAliasLawful()
    ensures Lawful(Aliased(UnixTables(), IPFS, Unix()))
    ensures Aliased(UnixTables(), IPFS, Unix()).byName[IPFS].name != IPFS
  {
    UnixTablesLawful();
    AliasedLawful(UnixTables(), IPFS, Unix());
  }

  // --- Two names, one address --------------------------------------------------------------------

  /** The same arguments behind names that stand for the same protocols. */
  ghost predicate Synonyms(t: Tables, sp: seq<Str>, sq: seq<Str>) {
    && |sp| == |sq|
    && (sp != [] ==> WithName(t, sp[0]) == WithName(t, sq[0]))
    && (sp != [] && WithName(t, sp[0]).Some? ==>
          var p := WithName(t, sp[0]).value;
          if p.size == 0 then Synonyms(t, sp[1..], sq[1..])
          else if p.path || |sp| < 2 then sp[1..] == sq[1..]
          else sp[1] == sq[1] && Synonyms(t, sp[2..], sq[2..]))
  }

  /** They say the same address, so ipfs parses, and prints, as p2p. */
  lemma {:induction false} SynonymsParseAlike(t: Tables, sp: seq<Str>, sq: seq<Str>)
    requires Synonyms(t, sp, sq)
    ensures Parsed(t, sp) == Parsed(t, sq)
  {
    if sp != [] && WithName(t, sp[0]).Some? {
      var p := WithName(t, sp[0]).value;
      if p.size == 0 {
        SynonymsParseAlike(t, sp[1..], sq[1..]);
      } else if !p.path && |sp| >= 2 {
        SynonymsParseAlike(t, sp[2..], sq[2..]);
      }
    }
  }

  lemma {:induction false} SynonymsSameBytes(t: Tables, r: Str, s: Str)
    requires var (sp, sq) := (Keys.Split(TrimSlashes(r)), Keys.Split(TrimSlashes(s)));
             sp[0] == sq[0] && Synonyms(t, sp[1..], sq[1..])
    ensures TextToBytes(t, r) == TextToBytes(t, s)
  {
    SynonymsParseAlike(t, Keys.Split(TrimSlashes(r))[1..], Keys.Split(TrimSlashes(s))[1..]);
  }
}
