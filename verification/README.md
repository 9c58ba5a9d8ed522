# fastp2p overlay core in Dafny

A model of the sequential bookkeeping of the fastp2p overlay node, with
proofs of what it promises. The model covers:

- the textual peer locator `/family/host/transport/port/id` and its
  positional parser (`PeerInfo.parse`);
- the peer book with exponential-backoff bans;
- the RPC engine: a wrapping sequence counter, a pending-request table
  swept for timeouts, response correlation, and request dispatch with
  coded errors;
- gossip: message stamping, shuffle-and-slice fan-out, and per-topic
  delivery;
- the connection lifecycle as a flag state machine;
- discovery, the glue that feeds the peer book from seeds, `findPeers`
  replies, public-address announcements and connection outcomes.

Operations are pure functions over immutable records, except
`Gossip.Shuffle` and `Gossip.GetRandomPeers`, which are methods that run
the swap loop over an array. Clocks become a `now`
parameter. `Math.random()` becomes a parameter too: the jitter draw in
`[0, 1)`, the shuffle's swap indices, or the chosen peer. Callbacks and
handlers are opaque identities, and calling one is an effect in the
returned list. A handler's behaviour is an explicit function parameter.

JavaScript values that travel in messages are modelled by `Base.Value`,
with `Truthy` giving JavaScript truthiness. A message is a
`map<string, Value>`, and reading a missing field gives `Undefined`. A
JavaScript `Map` is modelled by `JsMap`: a finite map plus its insertion
order. The peer book and the pending-request table are both iterated in
that order.

Files, one module each:

| file | module | models |
|---|---|---|
| base.dfy | `Base` | options, JavaScript values, messages |
| js_map.dfy | `JsMap` | insertion-ordered `Map` |
| seq_counter.dfy | `SeqCounter` | the wrapping counter shared by RPC and gossip |
| peer_addr.dfy | `PeerAddr` | peer-addr.js |
| peer_book.dfy | `PeerBook` | peer-book.js (in-memory part) |
| rpc.dfy | `Rpc` | rpc.js |
| gossip.dfy | `Gossip` | gossip.js |
| connection.dfy | `Connection` | connection.js |
| discovery.dfy | `Discovery` | discovery.js |

Behaviour of the code worth noting:

- Gossip has no duplicate-suppression cache (gossip.js:70-77). Every
  arrival is delivered to the subscribers.
- Gossip fan-out does not exclude the message's source or the peer it came
  from (gossip.js:35-40, 79-90).
- A socket `error` is re-emitted as `'error'`, not routed to `'close'`
  (connection.js:54-56).
- `remoteId` is overwritten by every identify message, not set only once
  (connection.js:114-116).
- peer-addr.js:1-25 has a parser and no formatter. `PeerAddr.Format`
  exists only to state the parser's round trip.

## Model

| member | source | states |
|---|---|---|
| `PeerAddr.Split` | peer-addr.js:13 | `split('/')` yields one more segment than there are slashes; no segment contains a slash; joining the segments with `/` gives the input back |
| `PeerAddr.SplitUnique` | peer-addr.js:13 | a list of slash-free segments is the split of `s` exactly when it joins to `s` |
| `PeerAddr.Parse` | peer-addr.js:11-22 | a non-string fails with the invalid-address error; a string parses iff it has at least 5 segments, otherwise `parts[4]` is missing and parsing fails; `addr` is the input verbatim; family, host, transport, port are segments 1–4; the id is segment 5, or absent with exactly 5 segments |
| `PeerAddr.ParseFormat` | peer-addr.js:13-21 | round trip: `/f/h/t/p[/i]` built from slash-free fields, empty ones included, parses back to exactly those fields, with the whole text as `addr` |
| `PeerAddr.ParseIgnoresPrefixAndTail` | peer-addr.js:13-21 | text before the first `/` and segments after the sixth do not affect the parsed fields |
| `SeqCounter.Next` | rpc.js:118-125 | the next number is in `[1, max]`: one more below `max`, 1 at `max` |
| `SeqCounter.AdvanceClosedForm` | rpc.js:118-125 | up to `max` calls from a counter `c` reach `c + n`, or `c + n − max` after wrapping |
| `SeqCounter.WindowDistinct` | rpc.js:118-125 | any `max` consecutive calls hand out pairwise different numbers |
| `SeqCounter.FullCycle` | rpc.js:118-125 | after exactly `max` calls a used counter is back at its start |
| `PeerBook.NewStatus` | peer-book.js:8-12 | a new status keeps the address, with ban count 0 and unban time 0 |
| `PeerBook.Reset` | peer-book.js:14-17 | `reset` zeroes ban count and unban time and keeps the address |
| `PeerBook.MakeConfig` | peer-book.js:22-23 | a missing (zero) `maxBanAttempts` or `banTTL` falls back to 8 and 30000; any other value, negative ones included, is kept |
| `PeerBook.Jittered` | peer-book.js:83-88 | for a positive `ttl` the jittered duration `d` satisfies `0.9·ttl − 1 < d < 1.1·ttl` for every random draw in `[0, 1)`; a non-negative `ttl` never gives a negative duration |
| `PeerBook.Add` | peer-book.js:50-58 | a new id gets a fresh entry appended to the iteration order; a known id keeps its entry, address included |
| `PeerBook.Get` | peer-book.js:61-63 | the entry of the id, if there is one |
| `PeerBook.Remove` | peer-book.js:65-70 | only the given id goes; every other entry is unchanged |
| `PeerBook.Ban` | peer-book.js:72-92 | an unknown id changes nothing; a known one has its count raised by exactly one and is removed once the count exceeds `maxBanAttempts`; otherwise the address is kept and the unban time becomes `now` plus the jittered base duration; no other entry changes and no entry is created |
| `PeerBook.BanDuration` | peer-book.js:83-91 | a ban that keeps the peer sets its unban time within the jitter bounds of `banTTL·2^(banCount−1)` from now |
| `PeerBook.Unban` | peer-book.js:94-98 | an unknown id changes nothing; a known one is reset, address kept, order unchanged |
| `PeerBook.UnbannedFrom` | peer-book.js:111-115 | the listed entries are exactly those with `now > unbanTime`, each once |
| `PeerBook.ForEachUnbanned` | peer-book.js:110-116 | the callback runs exactly for the entries with `now > unbanTime`, each id once |
| `PeerBook.GetUnbannedPeers` | peer-book.js:100-108 | the statuses, in the same order, of exactly the entries unbanned at `now` |
| `PeerBook.GetAllPeers` | peer-book.js:118-120 | the status of every id, one per id, in insertion order, and nothing else |
| `PeerBook.RepeatedBans` | peer-book.js:72-92 | `n` consecutive bans with no unban raise the count by `n`, and the last ban sets the unban time from the base duration for the new count; once the count passes `maxBanAttempts` the peer is gone |
| `PeerBook.BanAbsent` | peer-book.js:72-74 | banning an unknown id, however often, changes nothing |
| `PeerBook.BaseTtlDoubles` | peer-book.js:83 | the un-jittered duration doubles from one consecutive ban to the next |
| `PeerBook.UnbanRestartsBackoff` | peer-book.js:72-98 | after an unban the next ban starts over at count 1 and base `banTTL` |
| `Rpc.BuildError` | rpc.js:4-23 | each error object is truthy and carries its kind's code, message and the given data |
| `Rpc.CodesIdentifyKinds` | rpc.js:4-23 | two error kinds share a code only if they are the same kind |
| `Rpc.Init` | rpc.js:26-35 | the engine starts with counter 0, no pending request and no handler |
| `Rpc.RequestMsg` | rpc.js:95-103 | a request carries the RPC protocol tag, the method, the params and the drawn sequence number |
| `Rpc.ResponseMsg` | rpc.js:105-116 | a response has the tag and the seq and never a method; a truthy error wins over the result; a falsy result is left out |
| `Rpc.GetSeq` | rpc.js:118-125 | the new counter is the returned number, in `[1, 4294967295]`; it wraps to 1 at the maximum |
| `Rpc.SeqWindow` | rpc.js:118-125 | no sequence number repeats within `MAX_SEQ` consecutive requests |
| `Rpc.CallbackOf` | rpc.js:60-65 | the callback kept is the fourth argument if it is a function, else the fifth if that is one, else none |
| `Rpc.TimeoutOf` | rpc.js:67 | the timeout is `opts.timeout` when truthy, else 4000 |
| `Rpc.Request` | rpc.js:56-71 | exactly one request message is sent, under the next sequence number; with a callback, a pending entry `(now, callback, timeout)` is recorded under that number; without one, the table is untouched |
| `Rpc.Serve` | rpc.js:73-75 | the method's handler is the new one; every other registration is unchanged |
| `Rpc.Partition` | rpc.js:83-88 | the table's keys split into exactly the live and exactly the expired ones (`now > timestamp + timeout`) |
| `Rpc.TimeoutCalls` | rpc.js:86-87 | one `'request timeout'` call per expired key, in table order |
| `Rpc.CheckReqTimeout` | rpc.js:81-93 | exactly the expired entries leave the table, each callback is called with `'request timeout'`, one call per removed entry; every live entry stays unchanged |
| `Rpc.PartitionSizes` | rpc.js:81-93 | every key lands in exactly one of the two lists |
| `Rpc.ProcessRequest` | rpc.js:139-161 | every reply goes to the requester under the request's seq; with no handler the single reply has code −32601; each completion with a truthy error replies with −32000 carrying that error as data, otherwise with the result; a throwing handler adds a −32603 reply |
| `Rpc.LateDone` | rpc.js:143-157 | a completion the handler makes after `processRequest` has returned sends exactly the reply a synchronous completion would: one message to the requester under the request's seq, −32000 with the error as data for a truthy error, the result otherwise |
| `Rpc.ProcessResponse` | rpc.js:163-179 | a response whose seq is falsy or not pending changes nothing; otherwise the entry is deleted and its callback called once with the response's error and result |
| `Rpc.ReceiveMessage` | rpc.js:127-137 | other protocol tags are ignored; a truthy `method` makes the message a request, anything else a response |
| `Rpc.ServerAnswers` | rpc.js:139-157 | a request for a served method is answered, first, with the handler's first completion, sent to the requester under the request's seq |
| `Rpc.ClientTakesReply` | rpc.js:163-179 | a reply under a pending seq calls that entry's callback with the server error or the truthy result, and removes exactly that entry |
| `Rpc.RequestReplyRoundTrip` | rpc.js:56-179 | a request answered by the remote handler's first completion comes back under its seq, calls the requester's callback with the server error or the result, and clears the pending entry |
| `Rpc.LateResponseDropped` | rpc.js:163-172 | once the sweep has expired a request, its late response is dropped without any call |
| `Rpc.SweepConserves` | rpc.js:81-93 | over a sweep, a callback's calls plus its remaining entries equal its entries before |
| `Rpc.RequestConserves` | rpc.js:56-71 | a request calls nothing and adds at most the one entry it registers |
| `Rpc.ReceiveConserves` | rpc.js:163-179 | over a response, a callback's calls plus its remaining entries equal its entries before |
| `Rpc.RunConserves` | rpc.js:56-179 | over any sequence of requests, registrations, sweeps, inbound messages and late handler completions, a callback's calls plus its pending entries never exceed its entries at the start plus its registrations |
| `Rpc.CallbackFiresAtMostOnce` | rpc.js:81-179 | a callback given to one request and not pending before is called at most once, since the timeout path and the response path both delete the entry |
| `Gossip.Init` | gossip.js:4-10 | the counter is seeded with the clock and no topic has a subscriber |
| `Gossip.GetSeq` | gossip.js:61-68 | one up below `Number.MAX_SAFE_INTEGER`, 1 from there; in range for a non-negative counter |
| `Gossip.SeqWindow` | gossip.js:61-68 | no gossip seq repeats within `MAX_SAFE_INTEGER` consecutive messages |
| `Gossip.BuildMessage` | gossip.js:50-59 | the message has exactly the fields protocol `/gossip/0.1.0`, source (the own id), the given topic and data, and the fresh seq |
| `Gossip.Swap` | gossip.js:83-85 | positions `i` and `j` trade places; every other position is unchanged |
| `Gossip.SwapPermutes` | gossip.js:83-85 | one swap keeps the multiset of peers |
| `Gossip.SwapsPermute` | gossip.js:80-88 | the whole swap loop keeps the multiset of peers |
| `Gossip.Shuffle` | gossip.js:80-88 | the in-place loop over an array computes the functional shuffle, a permutation of the peers |
| `Gossip.PermutationKeepsNoDup` | gossip.js:80-88 | a permutation of a list without repeats has no repeats |
| `Gossip.RandomPeers` | gossip.js:79-90 | `min(max, peers)` peers are selected, all connected, with no repeats when the peer list has none |
| `Gossip.GetRandomPeers` | gossip.js:79-90 | running the swap loop then slicing gives the same selection |
| `Gossip.SelectAllIsPermutation` | gossip.js:79-90 | with `max` at least the number of peers, each peer is selected exactly once |
| `Gossip.SelectAllCovers` | gossip.js:79-90 | with `max` at least the number of peers, every peer is among the selected |
| `Gossip.SendAllReaches` | gossip.js:30-32 | sending to a list of targets sends the message to each of them |
| `Gossip.Publish` | gossip.js:27-33 | one new message is built and sent, the same message each time, to `min(15, peers)` connected peers, distinct when the peers are; with at most 15 peers every one of them gets it |
| `Gossip.Forward` | gossip.js:35-40 | the given message, unchanged, goes to `min(15, peers)` connected peers, distinct when the peers are; with at most 15 peers every one of them gets it; the selection does not look at the message, so neither its source nor the peer it came from is excluded |
| `Gossip.Subscribe` | gossip.js:42-44 | the handler is appended after earlier ones of the topic; other topics are unchanged |
| `Gossip.ReceiveMessage` | gossip.js:70-77 | other protocol tags deliver nothing; a gossip message goes to every listener of its topic in subscription order, with the sending peer; an `"error"` topic with no listener throws |
| `Gossip.SubscribeThenReceive` | gossip.js:42-77 | a new subscriber receives the next message on its topic, after the earlier subscribers |
| `Gossip.PublishReachesSubscribers` | gossip.js:27-77 | a published message delivered to a selected peer reaches all of that peer's subscribers of the topic, with the publisher as source and the data unchanged |
| `Connection.Init` | connection.js:12-26 | a new connection is not started, destroyed, closed or identified, has a `null` remote id and no heartbeat |
| `Connection.StartHeartbeat` | connection.js:99-106 | only a timer that was never set is started |
| `Connection.StopHeartbeat` | connection.js:108-110 | a running timer becomes cleared; a timer never set, or already cleared, is left as it is |
| `Connection.DoStart` | connection.js:28-77 | the first start arms the identify timeout and writes the identify message with the own id; a later start does nothing |
| `Connection.DoSend` | connection.js:79-81 | after start the message is written; before it the call throws |
| `Connection.DoDestroy` | connection.js:87-94 | the first destroy stops the heartbeat and destroys the socket, without setting `closed` or emitting `'close'`; later ones do nothing |
| `Connection.Close` | connection.js:124-130 | only the first close emits `'close'` with its reason, and it stops the heartbeat |
| `Connection.ProcessMessage` | connection.js:112-122 | an identify message records the remote id, marks the connection identified, emits `'identified'` (not `'message'`) and starts the heartbeat; any other message, heartbeats included, is emitted unchanged as `'message'` |
| `Connection.OnIdentifyTimeout` | connection.js:72-76 | the timer closes with `'identify timeout'` only if the peer is not yet identified, and fires once |
| `Connection.Step` | connection.js:28-130 | `closed`, `started` and `destroyed` never revert; the heartbeat only moves forward; a step that emits `'close'` was the first to close and leaves no heartbeat running |
| `Connection.StepKeepsInv` | connection.js:28-130 | a heartbeat exists only after identification, and identification, close and the identify timer only after start |
| `Connection.RunKeepsInv` | connection.js:28-130 | the invariant holds over any sequence of events |
| `Connection.CloseAtMostOnce` | connection.js:124-130 | over any sequence of events, `'close'` is emitted at most once, whichever of socket end, socket close and identify timeout comes first |
| `Connection.HeartbeatStartedAtMostOnce` | connection.js:99-110 | over any sequence of events the heartbeat timer is started at most once, and never again after it was cleared |
| `Connection.StartIdempotent` | connection.js:28-33 | a second start does nothing |
| `Connection.DestroyIdempotent` | connection.js:87-89 | a second destroy does nothing |
| `Connection.StartSendsIdentifyFirst` | connection.js:66-70 | from a fresh connection the first output of start is the identify message `{protocol: '/identify/0.0.0', id}` |
| `Connection.IdentifyStartsHeartbeat` | connection.js:99-122 | an identify message marks the connection identified with the sender's id and starts the heartbeat: the next tick writes a heartbeat message, and once the socket closes a tick writes nothing |
| `Connection.LateIdentifyKeepsHeartbeat` | connection.js:72-130 | an identify message arriving after the identify timeout closed the connection still starts a heartbeat that no socket event stops; only destroy does |
| `Discovery.AddToPeerBook` | discovery.js:88-92 | the node's own id is never added; any other id is offered to the book, which keeps an existing entry |
| `Discovery.AddParsed` | discovery.js:77-84 | a parse failure leaves the book as it was; a parsed address is offered under its parsed id |
| `Discovery.LoadSeeds` | discovery.js:31-34 | seed loading succeeds iff every seed parses; existing entries are kept and the own id is never added |
| `Discovery.SeedsAdded` | discovery.js:31-34 | each seed ahead of the first unparseable one is in the book under its parsed id, unless that id is the node's own |
| `Discovery.SeedsOnly` | discovery.js:31-34 | every new entry comes from a seed that parses to that id |
| `Discovery.Initialize` | discovery.js:21-35 | `announcePublic` and `findPeers` are served, then the seeds are loaded |
| `Discovery.UnbannedAddrs` | discovery.js:60 | exactly the addresses of the entries unbanned at `now` |
| `Discovery.FindPeersHandler` | discovery.js:59-62 | the handler answers once, without error, with an array of exactly the addresses of the unbanned entries |
| `Discovery.FindPeers` | discovery.js:64-71 | with no connected peer nothing happens; otherwise one `findPeers` request goes to the chosen peer, with the reply callback pending under its seq at the default timeout |
| `Discovery.AddReplyAddrs` | discovery.js:77-84 | every returned address that parses to another node's id is added; new entries come only from such addresses; existing entries are kept |
| `Discovery.OnFindPeersReply` | discovery.js:71-85 | an error reply, the RPC timeout included, adds nothing, and neither does a non-array result; an array is walked address by address |
| `Discovery.Parseable` | discovery.js:77-84 | exactly the reply entries that parse: each kept entry is in the reply and parses, and each parsing entry is kept |
| `Discovery.ParseableAppend` | discovery.js:77-84 | the kept entries stay in the reply's order: filtering a concatenation concatenates the filtered parts |
| `Discovery.UnparseableSkipped` | discovery.js:77-84 | unparseable entries do not affect the rest: dropping them first gives the same book |
| `Discovery.FindPeersExchange` | discovery.js:59-85 | every address the answering node holds unbanned, if it parses to an id other than the asker's, ends up in the asker's book |
| `Discovery.AnnouncePublicHandler` | discovery.js:94-102 | the announced address is added under its parsed id; missing params, a non-string address or a parse failure change nothing; the handler never replies |
| `Discovery.OnConnected` | discovery.js:104-111 | a known peer's entry is reset to a fresh status with its address and every other entry is unchanged; with a public address set, one `announcePublic` request carrying it goes to the peer with nothing left pending |
| `Discovery.BanPeer` | discovery.js:113-121 | a disconnect or a failed dial bans the peer once: a known peer's count rises by one, keeping its address and, with a non-negative `banTTL`, getting an unban time no earlier than now, or it leaves the book past the attempt limit; an unknown peer and every other entry are untouched |
| `Discovery.ProvidePeers` | discovery.js:55-57 | one connect per unbanned entry, for exactly the addresses of the unbanned entries |
| `Discovery.HandleAllSelfFree` | discovery.js:71-121 | replies, announcements and connection outcomes never put the node's own id into its book |
| `Discovery.SelfNeverAdded` | discovery.js:31-34 | starting from a book without the own id, seed loading followed by any events leaves the own id out |

## Left out

- Persistence of the peer book (nedb `load`, `db.update`, `db.remove`) is not modelled. The book loaded at start-up is an arbitrary initial state.
- Wire framing and the 10 MiB frame limit are delegated to stream libraries, so they are not modelled. So is JSON encoding; messages are abstract records.
- Timers, the clock, randomness, sockets, `debug` logging and EventEmitter plumbing become explicit parameters, events and outputs.
- The periodic timers are not modelled: the 1-second RPC sweep, and the 10-second `providePeers` and `findPeers` of discovery's `start`. Each firing is one call of `Rpc.CheckReqTimeout`, `Discovery.ProvidePeers` or `Discovery.FindPeers`.
- The connection registry, dial admission and duplicate-identify arbitration live in the node module, which is not part of this model.
- `index.js` and `sample.js` are demo applications, including their transaction dedup set, and are not modelled.
- Lifecycle stubs (`stop`, `finalize`) and `initialize`'s event wiring are not modelled.
- Floating point is not modelled. The jitter is computed with exact reals, and `banTTL·2^k` with unbounded integers. Float rounding of large durations is not modelled.
- `PeerBook.Jittered`: its bound `0.9·ttl − 1 < d < 1.1·ttl` is stated for exact arithmetic, not for IEEE doubles.
- The `add` assertion that the database is initialised is not modelled, because it concerns persistence only.
- `Gossip.ReceiveMessage`: a topic that is not a string delivers nothing in the model. JavaScript would turn it into a property key, and listeners under that key would receive it.
- `Rpc.ReceiveMessage`: handlers are looked up by string method names only. A non-string truthy `method` is treated as having no handler.
- `Rpc.CallbackFiresAtMostOnce`: it states the at-most-once half only. That a callback eventually fires needs a sweep to run after the deadline, which is a property of the timer, not of the engine.
- A callback that throws during the timeout sweep is not modelled. It would abort the sweep and leave the expired entries in the table.
- An exception thrown by a response callback is not modelled. The engine catches and logs it; the model has callbacks as opaque identities.
- A JSON parse failure in `processMessage` is not modelled, because messages are abstract records.
- The connection's `observedAddress` and `getRemotePeerId` are not modelled. They are read-only accessors.
- `Rpc.CheckReqTimeout`: each expired callback is called while its entry, and those of the other expired requests, are still in the table; the deletions come after the loop. A callback that reads or changes the table during the sweep is not modelled: in the model the sweep's calls are effects that happen after the table has been cleaned. `Date.now()` is also read again for every entry, so an entry whose deadline passes while earlier callbacks run is expired and removed in the same sweep. The model uses one `now` for the whole sweep.
- `Gossip.ReceiveMessage`: a subscriber that throws stops `emit` from reaching the subscribers after it. The model delivers to every subscriber in order.
- `Gossip.GetRandomPeers`: the shuffle works in place on the array that `node.getPeers()` returns, so the node's own peer array is reordered as a side effect. The model shuffles a copy and leaves the node's list alone.
- `PeerBook.GetUnbannedPeers`: `Date.now()` is read again for every entry, so the clock can advance during one pass. The model uses one `now` for the whole pass.
- `Gossip.Subscribe`: `emitter.on` first emits `'newListener'` with the topic and the handler, so a listener registered under `"newListener"` runs at every later subscription. The model's subscription has no effect besides the registration.
- `PeerBook.ForEachUnbanned`: `Date.now()` is read again for every entry, so the clock can advance during one pass. The model uses one `now` for the whole pass.
- `Connection.ProcessMessage`: `'identified'` is emitted before `startHeartbeat` runs. A listener that destroys the connection synchronously therefore leaves a heartbeat running on a destroyed connection. The model applies the identify message in one step, with no listener running in between, so it does not reach that state.
- `Connection.DoSend`: a send after start always writes. Writing to a destroyed socket is the stream library's concern.
- `Discovery.FindPeers`: the reply callback is an opaque identity. Its behaviour is `Discovery.OnFindPeersReply`, applied to the error and result the RPC engine hands it.
- A `null` peer list in `findPeers` is not modelled, because the peer list is a sequence. The empty list is modelled.
