/** Stream registration and accounting of a yamux session (p2plib/yamux/session.go). */
module YamuxSession {
  import opened Words

  const MAX_WORD: Word := 0xFFFF_FFFF

  datatype OpenError = NoError | RemoteGoAway | Busy | NoMemory | Exhausted | SendFailed
  datatype IncomingResult = Registered | WrongParity | Rejected | Duplicate | OutOfMemory | TooMany | BacklogFull

  /** Does the peer of a session number its streams like id? */
  predicate IsRemote(client: bool, id: Word) {
    client == (id % 2 == 0)
  }

  ghost function Remote(client: bool, ids: set<Word>): set<Word> {
    set id | id in ids && IsRemote(client, id)
  }

  lemma RemoteAdd(client: bool, ids: set<Word>, id: Word)
    requires id !in ids
    ensures |Remote(client, ids + {id})| == |Remote(client, ids)| + (if IsRemote(client, id) then 1 else 0)
  {
    if IsRemote(client, id) {
      assert Remote(client, ids + {id}) == Remote(client, ids) + {id};
    } else {
      assert Remote(client, ids + {id}) == Remote(client, ids);
    }
  }

  lemma RemoteRemove(client: bool, ids: set<Word>, id: Word)
    requires id in ids
    ensures |Remote(client, ids - {id})| == |Remote(client, ids)| - (if IsRemote(client, id) then 1 else 0)
  {
    assert ids == (ids - {id}) + {id};
    RemoteAdd(client, ids - {id}, id);
  }

  /** The guarded decrement of deleteStream; MAX_WORD keeps every new stream out. */
  function Decremented(n: Word): Word {
    if n == 0 then MAX_WORD else n - 1
  }

  class Session {
    const client: bool
    const maxIncoming: Word
    const backlog: nat
    var nextStreamID: Word
    var numIncoming: Word
    var streams: set<Word> // keys of the stream map
    var inflight: set<Word> // opened here, not yet established
    var syns: nat // tokens in synCh
    var acceptCh: seq<Word>
    var localGoAway: bool
    var remoteGoAway: bool

    /** The count is exact and bounded; local ids keep their parity and lie below the next one. */
    ghost predicate Valid()
      reads this
    {
      && numIncoming == |Remote(client, streams)| <= maxIncoming
      && !IsRemote(client, nextStreamID)
      && (forall id <- streams + inflight :: !IsRemote(client, id) ==> id < nextStreamID)
      && (forall id <- inflight :: !IsRemote(client, id))
      && |acceptCh| <= backlog && syns <= backlog
    }

    constructor (client: bool, maxIncoming: Word, backlog: nat)
      ensures Valid() && streams == {} && nextStreamID == (if client then 1 else 2)
      ensures this.client == client && this.maxIncoming == maxIncoming && this.backlog == backlog
    {
      this.client, this.maxIncoming, this.backlog := client, maxIncoming, backlog;
      nextStreamID := if client then 1 else 2;
      numIncoming, streams, inflight, syns, acceptCh := 0, {}, {}, 0, [];
      localGoAway, remoteGoAway := false, false;
    }

    /** memory: the manager grants the initial window; sent: the first window update is sent. */
    method OpenStream(memory: bool, sent: bool) returns (id: Word, err: OpenError)
      requires Valid()
      modifies `nextStreamID, `streams, `inflight, `syns
      ensures Valid()
      ensures if err.NoError? || err.SendFailed? then
                && id == old(nextStreamID) && nextStreamID == id + 2
                && id !in old(streams) && streams == old(streams) + {id} && inflight == old(inflight) + {id}
                && !IsRemote(client, id)
              else nextStreamID == old(nextStreamID) && streams == old(streams) && inflight == old(inflight)
      ensures err.Exhausted? ==> old(nextStreamID) >= MAX_WORD - 1
      ensures err.NoError? ==> syns == old(syns) + 1
    {
      id := 0;
      if remoteGoAway { return 0, RemoteGoAway; }
      if syns == backlog { return 0, Busy; } // blocks until the context ends
      syns := syns + 1;
      if !memory { return 0, NoMemory; } // the token is not given back
      id := nextStreamID;
      if id >= MAX_WORD - 1 { return id, Exhausted; }
      nextStreamID := Add32(id, 2);
      RemoteAdd(client, streams, id);
      streams := streams + {id};
      inflight := inflight + {id};
      if !sent {
        if syns > 0 { syns := syns - 1; }
        return id, SendFailed; // the stream stays registered
      }
      err := NoError;
    }

    method IncomingStream(id: Word, memory: bool) returns (r: IncomingResult)
      requires Valid()
      modifies `numIncoming, `streams, `acceptCh, `localGoAway
      ensures Valid()
      ensures r == if !IsRemote(client, id) then WrongParity
                   else if old(localGoAway) then Rejected
                   else if !memory then OutOfMemory
                   else if id in old(streams) then Duplicate
                   else if |Remote(client, old(streams))| == maxIncoming then TooMany
                   else if |old(acceptCh)| == backlog then BacklogFull
                   else Registered
      ensures if r.Registered? then
                streams == old(streams) + {id} && acceptCh == old(acceptCh) + [id] && numIncoming == old(numIncoming) + 1
              else streams == old(streams) && acceptCh == old(acceptCh) && numIncoming == old(numIncoming)
      ensures localGoAway <==> old(localGoAway) || r.Duplicate?
    {
      if client != (id % 2 == 0) { return WrongParity; }
      if localGoAway { return Rejected; }
      if !memory { return OutOfMemory; }
      if id in streams {
        localGoAway := true;
        return Duplicate;
      }
      if numIncoming >= maxIncoming { return TooMany; }
      RemoteAdd(client, streams, id);
      numIncoming := Add32(numIncoming, 1);
      streams := streams + {id};
      if |acceptCh| < backlog {
        acceptCh := acceptCh + [id];
        return Registered;
      }
      DeleteStream(id);
      assert streams == old(streams);
      r := BacklogFull;
    }

    method DeleteStream(id: Word)
      requires Valid()
      modifies `numIncoming, `streams
      ensures Valid() && streams == old(streams) - {id}
      ensures numIncoming == old(numIncoming) - (if id in old(streams) && IsRemote(client, id) then 1 else 0)
    {
      if id !in streams { return; }
      RemoteRemove(client, streams, id);
      if client == (id % 2 == 0) {
        numIncoming := Decremented(numIncoming);
      }
      streams := streams - {id};
    }

    method CloseStream(id: Word)
      requires Valid()
      modifies `numIncoming, `streams, `inflight, `syns
      ensures Valid() && streams == old(streams) - {id} && inflight == old(inflight) - {id}
      ensures syns == if id in old(inflight) && old(syns) > 0 then old(syns) - 1 else old(syns)
    {
      if id in inflight {
        if syns > 0 { syns := syns - 1; }
        inflight := inflight - {id};
      }
      DeleteStream(id);
    }

    method EstablishStream(id: Word)
      requires Valid()
      modifies `inflight, `syns
      ensures Valid() && inflight == old(inflight) - {id} && syns == if old(syns) > 0 then old(syns) - 1 else 0
    {
      if id in inflight { inflight := inflight - {id}; }
      if syns > 0 { syns := syns - 1; }
    }

    /** sent(k): the window update of the k-th stream tried gets through. Streams whose update does not
        are passed over and stay registered; without a stream the call waits, here found is false. */
    method AcceptStream(sent: nat -> bool) returns (found: bool, id: Word, ghost tried: nat)
      requires Valid()
      modifies `acceptCh
      ensures Valid()
      ensures tried <= |old(acceptCh)| && acceptCh == old(acceptCh)[tried..]
      ensures found ==> tried > 0 && id == old(acceptCh)[tried - 1] && sent(tried - 1)
      ensures forall k | 0 <= k < tried && !(found && k == tried - 1) :: !sent(k)
      ensures !found ==> acceptCh == []
    {
      var k := 0;
      found, id := false, 0;
      while !found && acceptCh != []
        invariant k <= |old(acceptCh)| && acceptCh == old(acceptCh)[k..] && |acceptCh| <= backlog
        invariant found ==> k > 0 && id == old(acceptCh)[k - 1] && sent(k - 1)
        invariant forall j | 0 <= j < k && !(found && j == k - 1) :: !sent(j)
        decreases !found, |acceptCh|
      {
        id, acceptCh := acceptCh[0], acceptCh[1..];
        found := sent(k);
        k := k + 1;
      }
      tried := k;
    }
  }
}
