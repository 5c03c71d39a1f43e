# Verified models of parts of dep2p/libp2p

This project models, in Dafny, the parts of the repository that carry its hardest state and
arithmetic, and proves what they are for. `dafny verify dfyconfig.toml` checks everything.

**Stream multiplexing (yamux).** `YamuxSystem` is one stream as two endpoints joined by two FIFO
links. Each critical section or atomic operation of `stream.go` and `session.go` is one action, and a
run is any interleaving of the actions of a writer, a reader, a receive loop and closing calls on both
sides. Over all runs: the credit at the sender, the bytes under way and the credit under way always
fit the receiver's free space, so the overflow check never fires, and whenever a write loads the 32-bit
send window it is exactly what was granted less what was sent (`YamuxRuns.FlowControlSafety`); bytes come
out as they went in (`StreamIntegrity`); a stream is finished exactly if both halves have left the
open state, and at most three steps of its own then take it out of the session (`FinishedIsRemoved`,
`FinishedLeaves`, `HalvesSettle`). Auto-tuning grows the buffer twice and announces only the second
delta, so it loses credit. For any two configurations it is determined exactly whether that can leave
a drained stream without any credit, for good (`YamuxStarve.StarvesExactlyIf`), and whether the send
window can pass 2^32 while a write is not yet subtracted (`YamuxCounter.WrapsExactlyIf`).
The objects themselves are classes: `YamuxBuffer.SegmentedBuffer`, `YamuxStream.Stream` and
`YamuxSession.Session`.

**Protocol negotiation (multistream-select).** `Negotiation` runs a pipelining `SelectOneOf` client
against a `Negotiate` server over byte channels, with any splitting of the bytes and with application
traffic as soon as a side has settled. The sides always agree on the client's first supported
proposal, no application byte is swallowed, nobody gets stuck, and the negotiation ends. A proposal
named `na` without a handler, or one that is longer than a token, breaks this;
`NegotiationLimits.AgreementIff` shows that nothing else does. `LazyConn` is the lazily negotiating
connection under any interleaving of concurrent calls and the goroutines they start, and `LazyLimits`
says which names it can negotiate.

**Datastores.** `Mounts`, `MountStore`, `MountQuery`, `QueryMerge` and `FlatQuery` show that a tree of
mounted stores, whatever they hold, is one flat map for `Get`, `Put`, `Has` and `Delete`, and for
`Query`, with its routing, early stop, per-store queries, heap merge, filters, offset and limit, if no
store lists a masked key. `MountRuns` shows that stores filled through the mount alone never do, so
that a query after any changes is the naive query on a plain map with these changes; `MountBatches` is
the batch over all mounts. `KeyTransform`, `QuerySplit` and `PairSplit` show that the key-transform
wrapper may split a query as it does with a prefix, and for which other transforms it may.
`Autobatch` is the write buffer over a batching store.

**Formats.** Varints, base36, base32, multiaddrs and content identifiers: what each decoder accepts,
exactly, and that it undoes the encoder. Base36's buffer bound comes down to 256^179 < 36^277.

## What the models showed about the code

- `sendWindowUpdate` (p2plib/yamux/stream.go:212-242): some run leaves a live, drained stream with no
  credit and none to come exactly if the losses that the receiver's windows and the sender's message
  size allow add up to more than half the last window. A receiver whose doubling ends on the maximum,
  or one short of it, is safe with every peer, and no other is.
- `Write` (p2plib/yamux/stream.go:128-139): a call with 2^32 bytes or more never returns without an
  error; what is left of them never falls below 2^32, and once it is a multiple of 2^32 nothing is sent.
- `sendWindow` can pass 2^32 when an update arrives between queueing a frame and subtracting its
  length, exactly if some window, less what tuning has kept back, and the largest message drawn from
  it reach 2^32 together. No write loads it then, and the subtraction makes it right again.
- `mount.go` (datastore/mount/mount.go:57-59) promises that masked keys do not show in query results.
  They do: a query with a prefix and no filter, offset or limit gives the visible entries exactly if no
  store it asks lists a masked key. Puts and deletes through the mount mask nothing.
- `mountBatch` (datastore/mount/mount.go:424-443) takes an operation on the root key, which `Put` refuses,
  exactly if the batch already holds one for the root mount. Once committed, queries list the key and
  `Get` does not find it.
- A key-transform wrapper never lists its own root key, though `Get` finds it: a query without offset and
  limit is right exactly if it does not select that key. Key-prefix filters that
  are not clean are pushed down wrongly, and so are comparisons with keys that are not clean, except
  for strings below all keys that stand for the root.
- A transform pair that can be inverted answers all queries exactly if it keeps order, prefixes and
  descent of keys (datastore/keytransform/keytransform.go:106-200); the code pushes these down for all.
- A client proposing `na` takes the refusal for an acceptance; one that negotiates `na` lazily takes the
  acceptance for a refusal.
- The streaming base32 encoder writes eight characters on `Close` even without padding. It is right
  exactly with padding, or if the data fill whole groups.
- `Cid.Hash` and `CidFromBytes` read codecs below 2^63 only, while `Cid.Type` and `NewCidV1` take all
  of 64 bits.
- A multiaddr value of 2^31 bytes or more can be parsed from a string but does not validate, as with
  `/unix/` and a name of 2^31 - 1 letters.

## Model

| member | source | states |
|---|---|---|
| YamuxBuffer.Grow | p2plib/yamux/util.go:95-111 | growing never shrinks the space, ends at the maximum or leaves the buffer alone, and reports a delta unless less than half was freed |
| YamuxBuffer.SegmentedBuffer.constructor | p2plib/yamux/util.go:82-84 | an empty queue with the given free space |
| YamuxBuffer.SegmentedBuffer.GrowTo | p2plib/yamux/util.go:95-111 | on the object, as `Grow` on its free space and contents |
| YamuxBuffer.SegmentedBuffer.Read | p2plib/yamux/util.go:113-133 | the buffer is a FIFO queue: what is copied out is the front of the first segment, as much of it as dst takes, the rest stays, nothing else of dst changes, and end-of-file means empty |
| YamuxBuffer.SegmentedBuffer.Advance | p2plib/yamux/util.go:121-131 | the contents lose their first bytes and the segment read from is shortened, or dropped when it is done |
| YamuxBuffer.SegmentedBuffer.CheckOverflow | p2plib/yamux/util.go:135-142 | passes exactly if the length fits the free space |
| YamuxBuffer.SegmentedBuffer.Compact | p2plib/yamux/util.go:157-175 | shifting live segments to the front changes no content |
| YamuxBuffer.SegmentedBuffer.Push | p2plib/yamux/util.go:150-179 | the bytes go to the end of the queue as a segment of their own and the free space shrinks by their number, without underflow |
| YamuxBuffer.SegmentedBuffer.Commit | p2plib/yamux/util.go:150-179 | the same for the whole second critical section, the empty frame included |
| YamuxBuffer.SegmentedBuffer.Append | p2plib/yamux/util.go:144-179 | refused exactly on overflow, else the queue grows by the input |
| YamuxLife.SendFlags | p2plib/yamux/stream.go:195-208 | SYN exactly once from the initial state and ACK exactly once from the received state; no half changes |
| YamuxLife.Abort | p2plib/yamux/stream.go:259-291 | finishes the stream, resetting only what is still open |
| YamuxLife.CloseWrite | p2plib/yamux/stream.go:294-323 | keeps finished-iff-both-halves-done, and asks for clean-up exactly if it finishes the stream |
| YamuxLife.CloseRead | p2plib/yamux/stream.go:326-351 | the same for the read half |
| YamuxLife.OnAck | p2plib/yamux/stream.go:394-401 | never finishes or reopens anything |
| YamuxLife.OnFin | p2plib/yamux/stream.go:402-418 | finishes exactly if the write half is done, once |
| YamuxSafety.ActSane | p2plib/yamux/stream.go:88-242 | no single action of an endpoint creates credit: what it gains at the sender, in flight and as promised deltas is covered by space it frees |
| YamuxRuns.ActTidy | p2plib/yamux/stream.go:245-432 | every action keeps the life-cycle invariant, lets halves leave the open state once, and leaves removal or a pending clean-up behind a finished stream |
| YamuxRuns.StepKeepsInv | p2plib/yamux/stream.go:88-466 | one step of either side keeps the invariant of the whole system |
| YamuxRuns.RunKeepsInv | p2plib/yamux/stream.go:88-466 | every reachable state satisfies it |
| YamuxRuns.FlowControlSafety | p2plib/yamux/stream.go:142-242 | in every reachable state credit, data and deltas under way fit the receiver's free space, free space and contents fit the window, the window fits the maximum, no overflow or duplicate-stream error has occurred, and the send window is what was granted less what was sent, at once or after the pending subtraction |
| YamuxRuns.StreamIntegrity | p2plib/yamux/util.go:95-179 | bytes delivered are a prefix of bytes accepted; while a stream is registered the rest is exactly in its buffer, its receive loop and the link, in order |
| YamuxRuns.FinishedIsRemoved | p2plib/yamux/stream.go:195-432 | finished exactly if neither half is open; then removed, or a clean-up is pending |
| YamuxRuns.FinishedLeaves | p2plib/yamux/stream.go:259-432 | after any run, at most three steps of its own closing calls or receive loop remove a finished stream, without the peer and even if the frames they send are lost |
| YamuxRuns.RunSegmented | p2plib/yamux/util.go:113-179 | after every run the segments of a buffer add up to its bytes and none is empty, so reading segment by segment reaches all bytes |
| YamuxRuns.HalvesSettle | p2plib/yamux/stream.go:259-432 | between any two points of a run, a half that has left the open state keeps its state and finished stays finished |
| YamuxStall.ActExact | p2plib/yamux/stream.go:88-242 | with updates that get through, credit disappears only by auto-tuning; each tuning step loses at most the old window, and less than half of it plus one message |
| YamuxStall.RunLosesLittle | p2plib/yamux/stream.go:212-242 | over every such run the loss stays within what the windows passed through and the sender's message size allow |
| YamuxStall.AlignedSteps | p2plib/yamux/stream.go:221-236 | if doubling ends well, each earlier window is at most half of the next one, rounded up |
| YamuxStall.PowerOfTwoAligned | p2plib/yamux/mux.go:69-84 | a maximum that is the initial window times a power of two, as by default, is aligned |
| YamuxStall.StarvesOnlyIf | p2plib/yamux/stream.go:88-242 | a lossless run that drains a live stream of all credit needs windows and messages with which the possible losses exceed half the window |
| YamuxStall.AlignedIsSafe | p2plib/yamux/stream.go:221-236 | aligned windows never allow that, whatever the peer |
| YamuxStarve.CanStarve | p2plib/yamux/stream.go:88-242 | with such windows and messages there is a lossless run that starves the sender, whichever side it is |
| YamuxStarve.StarvesExactlyIf | p2plib/yamux/stream.go:88-242 | for any two configurations and either direction, some lossless run starves the sender if and only if the possible losses exceed half the window |
| YamuxStarve.AlignedIfSafeForAll | p2plib/yamux/stream.go:212-242 | a receiver is safe with every peer if and only if its windows are aligned |
| YamuxStarve.StarvedForGood | p2plib/yamux/stream.go:88-242 | whatever happens after that, on either side, the starved sender gets no further byte accepted |
| YamuxCounter.WindowFaithful | p2plib/yamux/stream.go:142-191 | in every reachable state the 32-bit window is the unbounded counter modulo 2^32, and differs from it only while a sent frame is not yet subtracted and longer than the window shows |
| YamuxCounter.RunCapped | p2plib/yamux/stream.go:142-242 | over every run the credit stays within the window less half of each window that was enlarged, and a frame is no longer than such a credit |
| YamuxCounter.CanWrap | p2plib/yamux/stream.go:142-242 | the run in which an update overtakes the subtraction and the counter passes 2^32, for either side |
| YamuxCounter.WrapsExactlyIf | p2plib/yamux/stream.go:142-242 | for any two configurations and either side, some run makes the counter wrap if and only if the highest credit after some number of enlargements and the largest frame drawn from it reach 2^32 |
| YamuxCounter.NoOverflow | p2plib/yamux/mux.go:69-84 | a maximal window and message that together stay below 2^32, as by default, exclude it |
| YamuxStream.WriteMoves | p2plib/yamux/stream.go:142-191 | a call of write with credit takes at least one byte exactly if the length is not a multiple of 2^32 |
| YamuxStream.LongWriteStays | p2plib/yamux/stream.go:142-191 | of 2^32 bytes or more, a call of write leaves 2^32 or more |
| YamuxStream.Stream.constructor | p2plib/yamux/stream.go:56-75 | a sound stream with both halves open, as the system model starts it |
| YamuxStream.Stream.GetSendFlags | p2plib/yamux/stream.go:195-208 | on the object, as `SendFlags` |
| YamuxStream.Stream.Tune | p2plib/yamux/stream.go:221-236 | on the object, the auto-tuning action of the system model |
| YamuxStream.Stream.SendWindowUpdate | p2plib/yamux/stream.go:212-242 | run to its end it is the three receiver actions of the system model in sequence, with the frame sent exactly if an update was due |
| YamuxStream.Stream.WriteOnce | p2plib/yamux/stream.go:142-191 | which error when; on success the next frame carries the first bytes and the window falls by their number, else nothing is sent |
| YamuxStream.Stream.Write | p2plib/yamux/stream.go:128-139 | the bodies put on the wire are the first total bytes of the input in order, the window falls by as much, and no error means that all went out, which is so exactly if there are less than 2^32 bytes and the window and the frames that can be sent cover them |
| YamuxStream.Stream.Reset | p2plib/yamux/stream.go:259-291 | finishes and removes the stream, at most one RST, none if the peer never heard of it |
| YamuxStream.Stream.CloseWriteHalf | p2plib/yamux/stream.go:294-323 | FIN once, on the open half only, with removal exactly if that finishes the stream |
| YamuxStream.Stream.CloseReadHalf | p2plib/yamux/stream.go:326-351 | sends nothing; removal exactly if that finishes the stream |
| YamuxStream.Stream.ProcessFlags | p2plib/yamux/stream.go:385-432 | the flags act in the order ACK, FIN, RST, and a stream they finish is removed |
| YamuxStream.AfterFlags | p2plib/yamux/stream.go:385-432 | any combination of flags keeps the life-cycle sound and lets halves leave the open state once |
| YamuxSession.Session.constructor | p2plib/yamux/session.go:128-166 | no streams, ids of the own parity |
| YamuxSession.Session.OpenStream | p2plib/yamux/session.go:202-256 | the id is fresh, of the own parity, and the next one is two higher without wrapping; errors register nothing |
| YamuxSession.Session.IncomingStream | p2plib/yamux/session.go:796-854 | exactly which result when, and that only registration adds the stream to the map, the queue and the count, which stays exact and within its limit |
| YamuxSession.Session.DeleteStream | p2plib/yamux/session.go:873-889 | the count falls by one exactly for a registered remote stream and never underflows |
| YamuxSession.Session.CloseStream | p2plib/yamux/session.go:859-871 | the stream leaves both maps and frees its place among unacknowledged ones |
| YamuxSession.Session.EstablishStream | p2plib/yamux/session.go:893-906 | the stream leaves the unacknowledged ones and gives one place among them back; the stream map is untouched |
| YamuxSession.Session.AcceptStream | p2plib/yamux/session.go:270-285 | the first stream in the queue whose window update gets through; those before it are passed over and stay registered |
| Tokens.ReadNextToken | multiformats/multistream/multistream.go:280-313 | the verdict of `Parse` on all that is to come, and on success the reader stands just behind the token |
| Tokens.ParseIsToken | multiformats/multistream/multistream.go:101-117 | lpReadBuf accepts exactly what delimWrite writes for a name of at most 1023 bytes, and returns that name and the rest |
| Tokens.ParseArrived | multiformats/multistream/multistream.go:280-313 | on any prefix of a stream that starts with a token the reader waits until the token is whole and then leaves exactly the rest |
| Negotiation.StepKeeps | multiformats/multistream/multistream.go:194-242 | every step of client, server, channels and applications keeps: what is in a channel is the tokens written and not yet read, then application bytes |
| Negotiation.Agreement | multiformats/multistream/client.go:81-124 | in every state of every interleaving: no side fails; a selected protocol is the client's first supported proposal and is being served by its first matching handler; not-supported means none is |
| Negotiation.NoByteConsumed | multiformats/multistream/multistream.go:194-242 | applications hear a prefix of what was said, and once the client has selected, all that was said has been heard or is still in the channel |
| Negotiation.NotStuck | multiformats/multistream/client.go:46-144 | until the client has its outcome, some step of the negotiation is possible |
| Negotiation.StepsSettle | multiformats/multistream/client.go:46-144 | every such step lowers a bounded measure, so the negotiation ends |
| Negotiation.FirstSupported | multiformats/multistream/client.go:112-124 | the least index whose name some handler matches, or none |
| NegotiationLimits.AgreementIff | multiformats/multistream/client.go:146-163 | the sides agree in all runs if and only if every proposal that can come to be made fits a token and is not an unsupported `na` |
| NegotiationLimits.NaMisleads | multiformats/multistream/client.go:146-163 | the run in which the client selects a proposed `na` that the server has refused |
| NegotiationLimits.TooLongFails | multiformats/multistream/multistream.go:280-313 | the run in which a name that is too long ends the server |
| Muxer.MultistreamMuxer.constructor | multiformats/multistream/multistream.go:58-60 | an empty handler table |
| Muxer.MultistreamMuxer.RemoveHandler | multiformats/multistream/multistream.go:146-160 | the handlers of other names, in their order; names stay distinct |
| Muxer.MultistreamMuxer.AddHandlerWithFunc | multiformats/multistream/multistream.go:133-143 | a handler of that name is replaced and the new one goes last; names stay distinct |
| Muxer.MultistreamMuxer.FindHandler | multiformats/multistream/multistream.go:179-190 | the first handler that matches, or none if no handler does |
| Muxer.MultistreamMuxer.Negotiate | multiformats/multistream/multistream.go:194-242 | it takes the header, the refused names and the supported one and no byte more, and answers the header, one `na` for each and the name |
| Muxer.SelectOneOf | multiformats/multistream/client.go:81-124 | a choice means the server sent its header, one `na` per earlier proposal and the name, with nothing else read; exactly the proposals up to it were sent |
| LazyConn.StepKeeps | multiformats/multistream/lazyClient.go:56-174 | every step of every thread keeps the once-only handshakes, the order of data and the place of the reader |
| LazyConn.HandshakeThenData | multiformats/multistream/lazyClient.go:96-135 | the wire is a prefix of the handshake, once, and then the data of the writes, each once and whole; a write that has returned is among them; whatever call returns first, the handshake is sent or about to be |
| LazyConn.OrderOnlyGrows | multiformats/multistream/lazyClient.go:125-135 | data that is out stays first, so a later write comes after one that has returned |
| LazyConn.ReadsFollowHandshake | multiformats/multistream/lazyClient.go:56-89 | reads deliver exactly what follows the peer's handshake tokens; the read half fails only if the peer sends other tokens, and reports unsupported only on `na` |
| LazyConn.WritesDoNotWait | multiformats/multistream/lazyClient.go:125-135 | whoever runs the write handshake can always go on, without the peer |
| LazyLimits.RunPasses | multiformats/multistream/lazyClient.go:71-89 | in every run the names that the read half has passed fit a token and are not `na` |
| LazyLimits.LazyExactlyIf | multiformats/multistream/lazyClient.go:71-89 | the read half can be done in some run, and fails in no run in which the peer sends the names, if and only if every name fits a token and none is `na` |
| Keys.NewKeyIsKey | datastore/key.go:37-76 | every string becomes a clean key |
| Keys.NewKeyOfKey | datastore/key.go:37-76 | cleaning a clean key changes nothing |
| Keys.ChildIsKey | datastore/key.go:202-211 | the child of clean keys is a clean key, so RawKey does not panic |
| Queries.SortOrdered | datastore/query/order.go:90-94 | sorting by key and value orders gives an ordered permutation |
| Queries.OrderedUnique | datastore/query/order.go:72-94 | there is only one, so the sorting algorithm does not matter |
| Queries.FilterAllSort | datastore/query/query_impl.go:119-150 | filters commute with sorting |
| KeyTransform.PrepareQuery | datastore/keytransform/keytransform.go:106-200 | the loops over orders and filters compute the split that the other results are about |
| QuerySplit.QuerySplits | datastore/keytransform/keytransform.go:78-200 | with a prefix transform and clean filter keys, child query, key inversion and the naive remainder give what the naive pipeline gives on the un-prefixed view |
| QuerySplit.WorkSplits | datastore/keytransform/keytransform.go:78-200 | with any renaming that keeps tests and order, what the child does, the renaming and the naive remainder are the naive pipeline on the renamed entries |
| QuerySplit.InvertNeverPanics | datastore/keytransform/transforms.go:36-47 | every key the child returns can be inverted |
| QuerySplit.RootKeyIsNotListed | datastore/keytransform/keytransform.go:78-102 | every clean query that does not select the wrapper's own root key is answered as on all that the wrapper holds, and without offset and limit no other query is |
| QuerySplit.PrefixFilterPushdown | datastore/keytransform/keytransform.go:178-187 | pushing a key-prefix filter down is right for all keys if and only if the prefix is clean or empty |
| QuerySplit.CompareFilterPushdown | datastore/keytransform/keytransform.go:165-177 | pushing comparisons with a key down is right for all operators and keys if and only if it is clean, or stands for the root and lies below it |
| QuerySplit.PairLosesEntries | datastore/keytransform/transforms.go:5-17 | a transform pair and a query on which pushing down a key comparison loses an entry |
| PairSplit.ComparisonPushdown | datastore/keytransform/keytransform.go:165-177 | for a transform pair, pushing key comparisons down is right for all operators and keys if and only if the pair keeps the order of keys |
| PairSplit.FaithfulAnswers | datastore/keytransform/keytransform.go:78-200 | a pair that can be inverted and keeps order, prefixes and descent answers every clean query, however it is split, like the naive pipeline on the entries under their own keys |
| PairSplit.AnswersExactlyIf | datastore/keytransform/keytransform.go:78-200 | no other invertible pair does |
| Mounts.NewDescends | datastore/mount/mount.go:36-42 | the mounts, permuted, most specific first |
| Mounts.LookupIsLongest | datastore/mount/mount.go:79-88 | lookup picks the longest strict ancestor among the mounts, or none if there is none |
| Mounts.RestPutsBack | datastore/mount/mount.go:79-88 | the key inside the mounted store is clean and, put behind the mount point, gives the key back |
| MountStore.FlatAfterPut | datastore/mount/mount.go:241-247 | writing through the mount is writing to the visible map, whatever masked keys the stores hold |
| MountStore.FlatAfterDelete | datastore/mount/mount.go:302-308 | deleting through the mount is deleting from the visible map |
| MountStore.HomedAfter | datastore/mount/mount.go:79-88 | a store changed at the key that was looked up holds no masked key if none did before |
| MountStore.MountedDatastore.constructor | datastore/mount/mount.go:36-42 | any stores at distinct prefixes, most specific first; empty ones are the empty map, with no key masked |
| MountStore.MountedDatastore.Route | datastore/mount/mount.go:79-88 | the store and the key inside it, or none if no mount is an ancestor |
| MountStore.MountedDatastore.Put | datastore/mount/mount.go:241-247 | the contents gain the pair, or nothing changes and the error says that there is no mount; no key becomes masked |
| MountStore.MountedDatastore.Get | datastore/mount/mount.go:270-276 | the value in the contents, or not found exactly if there is none |
| MountStore.MountedDatastore.Has | datastore/mount/mount.go:280-286 | true exactly for keys in the contents |
| MountStore.MountedDatastore.Delete | datastore/mount/mount.go:302-308 | the contents lose the key; no key becomes masked |
| MountQuery.LookupAll | datastore/mount/mount.go:215-235 | the loop with its early stop computes the list of hits |
| MountQuery.Coverage | datastore/mount/mount.go:215-235 | a stored key that is not masked is under the query's prefix if and only if its store is among the hits and its inner key is under the rest, despite the early stop |
| QueryMerge.QuerySet.AddResults | datastore/mount/mount.go:163-171 | the results join the pool, and the heap order holds again |
| QueryMerge.QuerySet.Next | datastore/mount/mount.go:173-187 | takes one entry from the pool, a least one if each list was ordered |
| QueryMerge.Drain | datastore/mount/mount.go:119-187 | a permutation of all results, in order if each list was |
| FlatQuery.MergeChildren | datastore/mount/mount.go:315-350 | the merged stream holds what all child queries found, each once, and if no masked key is listed it is ordered for key and value orders |
| FlatQuery.GatherFlat | datastore/mount/mount.go:315-350 | without masked keys the child queries together find exactly the visible entries under the prefix |
| FlatQuery.MaskingExact | datastore/mount/mount.go:57-59 | the child queries together give the visible entries under the prefix, each once, if and only if no store that is asked lists a masked key |
| FlatQuery.MaskedKeyIsListed | datastore/mount/mount.go:57-59 | two mounts that show nothing and whose query is not empty |
| FlatQuery.RunQuery | datastore/mount/mount.go:315-368 | without masked keys: for key and value orders the result is the naive query on every enumeration of the visible map, and for any orders that of the query without them on some enumeration; a query with a prefix only gives the visible entries if and only if no masked key is listed |
| MountRuns.RoutedIfCovered | datastore/mount/mount.go:79-88 | a key is routed if and only if some given prefix is a strict ancestor of it |
| MountRuns.QueryAfter | datastore/mount/mount.go:241-368 | on stores mounted empty, after any puts and deletes through the mount, a query with key or value orders gives what the naive query gives on every enumeration of a plain map with the same changes, and with any orders what the query without them gives on some enumeration |
| MountBatches.RecordedNext | datastore/mount/mount.go:424-461 | after each operation on a batch, what is held for every key is the last operation on it |
| MountBatches.RecordedStays | datastore/mount/mount.go:424-443 | changes to the stores meanwhile leave that so |
| MountBatches.CommitReplays | datastore/mount/mount.go:463-478 | committing the batches of all mounts is doing the operations, in the order issued, on the visible map |
| MountBatches.CommitHomes | datastore/mount/mount.go:463-478 | a commit leaves no key masked if none was, if and only if the root key was not put into the root mount's batch |
| MountBatches.MountBatch.constructor | datastore/mount/mount.go:417-422 | an empty batch |
| MountBatches.MountBatch.Add | datastore/mount/mount.go:424-461 | taken exactly if the key has a mount or the root mount already has a batch, and the latter only for the root key |
| MountBatches.MountBatch.Commit | datastore/mount/mount.go:463-478 | in any order of the map walk the visible map changes as by the operations as issued |
| Autobatch.ReplayCollapses | datastore/batch.go:29-37 | the last operation per key is as good as all of them in order |
| Autobatch.BasicBatch.Add | datastore/batch.go:29-37 | the operation is logged as the latest |
| Autobatch.BasicBatch.Commit | datastore/batch.go:39-53 | in any order of the map walk the target ends up as if the operations had been done as issued |
| Autobatch.MapDatastore.Apply | datastore/basic_ds.go:30-67 | put and delete on a plain map |
| Autobatch.Datastore.constructor | datastore/autobatch/autobatch.go:33-39 | the view is the child |
| Autobatch.Datastore.Write | datastore/autobatch/autobatch.go:42-70 | the view changes as a plain map under put and delete, and the buffer stays within its limit |
| Autobatch.Datastore.Get | datastore/autobatch/autobatch.go:51-61 | the value in the view |
| Autobatch.Datastore.Has | datastore/autobatch/autobatch.go:126-133 | whether the key is in the view |
| Autobatch.Datastore.Sync | datastore/autobatch/autobatch.go:74-99 | the view is unchanged, the child has what was at or under the prefix, and none of that is left in the buffer |
| Autobatch.Datastore.Flush | datastore/autobatch/autobatch.go:102-123 | the view is unchanged and is now the child's |
| Radix.ConvertBack | multiformats/base36/base36.go:40-143 | converting digits to another base, leading zeros kept, and back is the identity |
| Base36.BufferSuffices | multiformats/base36/base36.go:48-57 | 277/179 characters a byte, plus one, hold every number of n bytes |
| Base36.MulAdd | multiformats/base36/base36.go:63-71 | the carry loop multiplies by 256 and adds, and stays above the leading zeros if the result fits |
| Base36.Encode | multiformats/base36/base36.go:40-85 | the leading zeros and then the minimal base-36 digits of the number, in the given alphabet |
| Base36.BuildRevAlphabet | multiformats/base36/base36.go:20-30 | both cases of every letter map to its digit and all else to the invalid mark |
| Base36.MulAddWords | multiformats/base36/base36.go:109-115 | multiplies the words by 36 and adds, with no carry out |
| Base36.ToWords | multiformats/base36/base36.go:89-116 | the words hold the number the text spells, or the text has a character that is not in the alphabet |
| Base36.Unpack | multiformats/base36/base36.go:118-132 | the words as bytes, from the first bytes of the first word on, within the buffer |
| Base36.DecodeString | multiformats/base36/base36.go:89-143 | the leading zeros and then the minimal bytes of the number, or an error exactly on empty or invalid input |
| Base36.DecodeEncode | multiformats/base36/base36.go:34-143 | decoding undoes encoding for every non-empty input in both alphabets |
| Base36.EncodeDecode | multiformats/base36/base36.go:34-143 | encoding undoes decoding for every valid lower-case text |
| Base36.DecodeIgnoresCase | multiformats/base36/base36.go:89-143 | texts that differ in case decode alike |
| Varint.AcceptsCanonical | multiformats/varint/varint.go:49-71 | FromUvarint accepts exactly the encodings of numbers below 2^63 in front of its input |
| Varint.FromUvarint | multiformats/varint/varint.go:49-71 | the loop gives that verdict, and on rejection which error |
| Varint.Reader.ReadUvarint | multiformats/varint/varint.go:74-104 | the same verdict byte by byte, with the reader left behind the last byte looked at |
| Varint.Uvarint | cid/varint.go:18-37 | the wider decoder's loop |
| Varint.WideAcceptsCanonical | cid/varint.go:18-37 | it accepts exactly the encodings of numbers below 2^64 |
| Varint.DecodersAgree | cid/varint.go:18-37 | the two agree exactly on numbers below 2^63 |
| Varint.SizeIsLength | multiformats/varint/varint.go:30-45 | the bit-length formula is the length of the encoding, so ToUvarint's buffer suffices |
| Cid.ReadHashExact | multiformats/multihash/multihash.go:282-311 | a multihash is read exactly where its encoding stands, whatever follows |
| Cid.ParseUndoesNew | cid/cid.go:637-673 | CidFromBytes gives back what NewCidV1 made, with anything appended, if and only if the codec is below 2^63 and the hash decodable |
| Cid.FromReader | cid/cid.go:723-817 | the result of CidFromBytes on all that is to come, except that digests over 32 MiB are refused; the count is exact even on failure |
| Cid.PartsOfNew | cid/cid.go:318-398 | of a new identifier Type gives the codec, and Hash the multihash if and only if the codec is below 2^63 |
| Components.Registry.constructor | multiformats/multiaddr/protocol.go:47-51 | empty, consistent tables |
| Components.Registry.AddProtocol | multiformats/multiaddr/protocol.go:53-73 | accepted exactly under the four conditions; the new tables, which stay consistent with each other and the list, aliases included |
| Components.Registry.Alias | multiformats/multiaddr/protocols.go:341-343 | a further name for a registered protocol, with the tables still consistent |
| MultiaddrInit.Init | multiformats/multiaddr/protocols.go:295-344 | panics exactly on a name or code taken twice or a path without length prefix; else the tables, the name ipfs for the aliased protocol included, keep the law that the results on text and bytes need, and give every protocol under its name and code |
| MultiaddrInit.AliasedLawful | multiformats/multiaddr/protocols.go:341-343 | a further name keeps that law |
| MultiaddrInit.UnixAliasLawful | multiformats/multiaddr/protocols.go:341-343 | a table with a name that is not the protocol's own keeps it |
| MultiaddrInit.SynonymsSameBytes | multiformats/multiaddr/protocols.go:341-343 | strings that differ only in names for the same protocols parse to the same bytes |
| Components.ReadExact | multiformats/multiaddr/codec.go:111-148 | readComponent accepts exactly the bytes of a component of a registered protocol with an argument of the right size |
| Multiaddr.PartsExact | multiformats/multiaddr/util.go:183-204 | the walk partitions the bytes: it yields the one list of fitting components with these bytes, or none exists |
| Multiaddr.PartsOfConcat | multiformats/multiaddr/multiaddr.go:144-156 | the components of an encapsulation are those of both parts |
| Multiaddr.Split | multiformats/multiaddr/util.go:6-16 | that list |
| Multiaddr.SplitFirst | multiformats/multiaddr/util.go:73-94 | its first component and the bytes of the others, nil if none |
| Multiaddr.SplitLast | multiformats/multiaddr/util.go:97-133 | its last component and the bytes of the others, nil if none |
| Multiaddr.SplitFunc | multiformats/multiaddr/util.go:138-177 | the bytes before and from the first component that the callback takes, nil for an empty side |
| Multiaddr.Join | multiformats/multiaddr/util.go:19-52 | the concatenation, with its special cases for none, one and only empty addresses |
| Multiaddr.JoinSplits | multiformats/multiaddr/util.go:6-52 | an address splits into a list of components if and only if they fit their protocols and joining them gives the address |
| Multiaddr.Encapsulate | multiformats/multiaddr/multiaddr.go:144-156 | the bytes of both, one behind the other |
| Multiaddr.Decapsulate | multiformats/multiaddr/multiaddr.go:159-199 | what stands before the last place where the other address matches component by component, nil if that is the start, all if there is none |
| Multiaddr.DecapsulateEncapsulated | multiformats/multiaddr/multiaddr.go:144-199 | unwrapping what was wrapped gives the same bytes back |
| MultiaddrText.ValidateBytes | multiformats/multiaddr/codec.go:66-109 | passes exactly non-empty bytes that split into components whose arguments validate and of which only the last is a path |
| MultiaddrText.BytesToString | multiformats/multiaddr/codec.go:150-166 | the printed components, or none on broken bytes or an argument that does not print |
| MultiaddrText.StringToBytes | multiformats/multiaddr/codec.go:11-64 | the bytes of the components that the parts between slashes name, or none |
| MultiaddrText.ParsedIsValid | multiformats/multiaddr/codec.go:11-109 | what stringToBytes produces passes validateBytes if and only if no argument outgrows its length prefix |
| MultiaddrText.ParsedIsValidIf | multiformats/multiaddr/codec.go:11-109 | with transcoders that keep lengths, such as unix and dns, if and only if no argument in the string that takes a length prefix has 2^31 bytes or more |
| MultiaddrText.UnixPathTooLong | multiformats/multiaddr/codec.go:11-109 | the address /unix/ followed by n letters parses for every n, and validates if and only if n is below 2^31 - 1 |
| MultiaddrText.PrintedParsesBack | multiformats/multiaddr/codec.go:11-166 | valid bytes print, and the string parses to the same bytes |
| MultiaddrText.UnixLawful | multiformats/multiaddr/transcoders.go:395-418 | the unix transcoder keeps the promises the codec relies on, although it parses without checking |
| MultiaddrText.DnsLawful | multiformats/multiaddr/transcoders.go:420-442 | so does the dns transcoder |
| MultiaddrCoders.UintLawful | multiformats/multiaddr/transcoders.go:143-156 | so do those of ports, masks and memory addresses: decimal text and big-endian bytes undo each other |
| MultiaddrCoders.ZoneLawful | multiformats/multiaddr/transcoders.go:92-118 | so does that of zones |
| Base32.SameNumber | multiformats/base32/base32.go:118-131 | eight characters and five bytes spell the same number, high digits first |
| Base32Alphabets.NewEncoding | multiformats/base32/base32.go:42-53 | the table gives each byte its last place in the alphabet, or none |
| Base32Alphabets.NewEncodingCI | multiformats/base32/base32.go:57-69 | the same with upper and lower case taken as one |
| Base32Alphabets.PlainLawful | multiformats/base32/base32.go:42-53 | such an encoding keeps the law the round trip needs if and only if no character repeats and none is a newline or the padding |
| Base32Alphabets.FoldedLawful | multiformats/base32/base32.go:57-69 | the same, with repetition regardless of case |
| Base32Alphabets.CaseIgnored | multiformats/base32/base32.go:57-85 | both cases of a letter decode alike |
| Base32Alphabets.StandardsLawful | multiformats/base32/base32.go:37-101 | the standard and the extended hex alphabet keep it, with and without padding |
| Base32.Encode | multiformats/base32/base32.go:113-171 | the text from the start of the buffer, which keeps all else it held |
| Base32.EncodeToString | multiformats/base32/base32.go:174-178 | the text, in a buffer of exactly the computed length |
| Base32.DecodeEncode | multiformats/base32/base32.go:113-410 | decoding undoes encoding, with and without padding |
| Base32Laws.RoundTripExactlyIf | multiformats/base32/base32.go:42-410 | for any alphabet of 32 characters, decoding undoes encoding for all inputs if and only if the encoding is lawful |
| Base32.StripInPlace | multiformats/base32/base32.go:389-397 | the array starts with its old content without newlines |
| Base32.NextChunk | multiformats/base32/base32.go:284-331 | one group of characters with its padding rules, as the reference reads it |
| Base32.Decode | multiformats/base32/base32.go:282-370 | reading from and writing to the same array gives what decoding a copy would, or fails exactly when that does |
| Base32.DecodeString | multiformats/base32/base32.go:403-410 | the decoded bytes, or none on corrupt input |
| Base32.Encoder.constructor | multiformats/base32/base32.go:255-257 | nothing written yet |
| Base32.Encoder.Write | multiformats/base32/base32.go:189-236 | however the data is cut up, the whole groups so far are out and the rest is held back |
| Base32.Encoder.Close | multiformats/base32/base32.go:240-248 | the output is the encoding of all data if and only if there is padding or no group was left open |

## Left out

- YamuxSession.Session.AcceptStream: waiting on an empty queue, and shutdown; whether an update gets through is a free choice.
- PairSplit.FaithfulAnswers: the child holds nothing but what was put in through the wrapper, and the keys in filters are clean.
- Base36.DecodeString: which character an error names.
- Base32.DecodeString: where an error lies; the streaming decoder is not part of this model.
- Cid.FromReader: which error is returned; reading errors other than the end of the data.
- Components.Registry.AddProtocol: which of the errors is returned.
- Yamux: pings, keepalives, deadlines, go-away of the peer, round-trip times and the memory manager appear as free choices or not at all; several concurrent writers or readers of one stream; a connection that breaks inside a frame; the accounting of `Session.Close`; the header codec.
- Negotiation: handlers that change while a negotiation runs; closed or failing connections; 64-bit overflow of a name's length.
- LazyConn: I/O errors, and calls that go on after the connection is closed.
- Mounts: stored keys are clean; the mounted stores are values, so one store mounted twice is not covered; stores without batches and failing commits; `Sync`, `GetSize` and disk usage of the mount.
- Queries: a child store answers a query as the naive pipeline does on some enumeration of its entries; result iterators are sequences without errors; expirations; `container/heap` is represented by its contract, a least head first; `sort.Slice` by insertion, which for key and value orders gives the same result; with orders by a caller's function, the order of the result; unknown comparison operators, on which the code panics.
- Autobatch: failing commits; `Query`, which flushes first.
- Multiaddr: transcoders are functions that keep stated promises; of the concrete ones those of unix, dns, ports, masks, memory addresses and zones are shown to. Which protocols the package registers is a parameter. JSON forms, filters, resolution and the net package.
- Cid: multibase strings, sets, and builders.
- Strings are byte sequences throughout; where the code ranges over runes, a byte outside ASCII is rejected either way.
- The remaining packages (host, transports, crypto, records, peer store, discovery, configuration) are not modelled.
