/** Peer discovery layered on the peer book and the RPC engine: seed
    loading, the `findPeers` and `announcePublic` handlers, the handling of
    a `findPeers` reply, and the ban/unban reactions to connection
    outcomes. The book is keyed by the parsed id, which is `None` for a
    five-segment address (JavaScript's `undefined` key). */
module Discovery {
  import opened Base
  import JsMap
  import PeerAddr
  import PeerBook
  import Rpc

  const FIND_PEERS: string := "findPeers"
  const ANNOUNCE_PUBLIC: string := "announcePublic"

  type Key = Option<string>

  datatype State = State(
    nodeId: string,                 // `this.node.id`
    publicAddr: string,             // `this.node.publicAddr`, "" when unset
    cfg: PeerBook.Config,
    book: PeerBook.Book<Key>)

  predicate Valid(d: State)
  {
    JsMap.Valid(d.book)
  }

  /** The node's own id has no entry in its book. */
  predicate SelfFree(d: State)
  {
    Some(d.nodeId) !in d.book.vals
  }

  /** Everything but the book is left alone and no entry other than the
      named ones changes. */
  predicate SameNode(d: State, d': State)
  {
    d'.nodeId == d.nodeId && d'.publicAddr == d.publicAddr && d'.cfg == d.cfg
  }

  /** Every entry of `d` is still in `d'`, unchanged. */
  predicate KeepsEntries(d: State, d': State)
  {
    forall k | k in d.book.vals :: k in d'.book.vals && d'.book.vals[k] == d.book.vals[k]
  }

  // ----- addToPeerBook ---------------------------------------------------------

  /** `addToPeerBook(id, addr)`: every id but the node's own is offered to
      the book, which keeps an entry it already has. */
  function AddToPeerBook(d: State, id: Key, addr: string): (r: State)
    requires Valid(d)
    ensures Valid(r) && SameNode(d, r) && KeepsEntries(d, r)
    ensures id == Some(d.nodeId) ==> r == d
    ensures id != Some(d.nodeId) ==> id in r.book.vals
    ensures id != Some(d.nodeId) && id !in d.book.vals ==> r.book.vals[id] == PeerBook.NewStatus(addr)
    ensures forall k | k in r.book.vals :: k in d.book.vals || k == id
    ensures SelfFree(d) ==> SelfFree(r)
  {
    if id != Some(d.nodeId) then d.(book := PeerBook.Add(d.book, id, addr)) else d
  }

  /** How the parser sees an arbitrary value. */
  function AsInput(v: Value): (r: PeerAddr.AddrInput)
    ensures r.Text? <==> v.Str?
    ensures v.Str? ==> r.s == v.s
  {
    if v.Str? then PeerAddr.Text(v.s) else PeerAddr.NotText
  }

  /** Parse an address and offer it under its parsed id; a parse failure
      leaves the book as it was. */
  function AddParsed(d: State, input: PeerAddr.AddrInput): (r: State)
    requires Valid(d)
    ensures Valid(r) && SameNode(d, r) && KeepsEntries(d, r)
    ensures !PeerAddr.Parse(input).Parsed? ==> r == d
    ensures PeerAddr.Parse(input).Parsed? ==>
      r == AddToPeerBook(d, PeerAddr.Parse(input).info.id, input.s)
    ensures SelfFree(d) ==> SelfFree(r)
  {
    var p := PeerAddr.Parse(input);
    if p.Parsed? then AddToPeerBook(d, p.info.id, p.info.addr) else d
  }

  /** Whether `input` parses to an id other than the node's own. */
  predicate Admissible(d: State, input: PeerAddr.AddrInput)
  {
    PeerAddr.Parse(input).Parsed? && PeerAddr.Parse(input).info.id != Some(d.nodeId)
  }

  // ----- seeds -------------------------------------------------------------------

  /** The seed loop of `initialize`: each seed is parsed and offered in
      turn; the first seed that does not parse throws, which ends the loop
      (and rejects `initialize`) with the earlier seeds already added. */
  function LoadSeeds(d: State, seeds: seq<PeerAddr.AddrInput>): (r: (State, Option<PeerAddr.ParseError>))
    requires Valid(d)
    ensures Valid(r.0) && SameNode(d, r.0) && KeepsEntries(d, r.0)
    ensures r.1.None? <==> ParsedUpTo(seeds, |seeds|)
    ensures SelfFree(d) ==> SelfFree(r.0)
    decreases |seeds|
  {
    if |seeds| == 0 then (d, None)
    else
      var p := PeerAddr.Parse(seeds[0]);
      if p.Failed? then (d, Some(p.error))
      else
        var rest := LoadSeeds(AddToPeerBook(d, p.info.id, p.info.addr), seeds[1..]);
        assert ParsedUpTo(seeds, |seeds|) <==> ParsedUpTo(seeds[1..], |seeds| - 1);
        rest
  }

  /** Every seed before position `n` parses. */
  predicate ParsedUpTo(seeds: seq<PeerAddr.AddrInput>, n: nat)
    requires n <= |seeds|
  {
    forall j :: 0 <= j < n ==> PeerAddr.Parse(seeds[j]).Parsed?
  }

  /** Each seed ahead of the first unparseable one is in the book under
      its parsed id, unless that id is the node's own. */
  lemma {:induction false} SeedsAdded(d: State, seeds: seq<PeerAddr.AddrInput>, i: nat)
    requires Valid(d)
    requires i < |seeds| && ParsedUpTo(seeds, i + 1) && Admissible(d, seeds[i])
    ensures PeerAddr.Parse(seeds[i]).info.id in LoadSeeds(d, seeds).0.book.vals
    decreases |seeds|
  {
    var p := PeerAddr.Parse(seeds[0]);
    var d1 := AddToPeerBook(d, p.info.id, p.info.addr);
    if i > 0 {
      assert seeds[1..][i - 1] == seeds[i];
      assert ParsedUpTo(seeds[1..], i) by {
        forall j | 0 <= j < i ensures PeerAddr.Parse(seeds[1..][j]).Parsed? {
          assert seeds[1..][j] == seeds[j + 1];
        }
      }
      SeedsAdded(d1, seeds[1..], i - 1);
    }
  }

  /** The seeds are the only source of new entries. */
  lemma {:induction false} SeedsOnly(d: State, seeds: seq<PeerAddr.AddrInput>, k: Key)
    requires Valid(d)
    requires k in LoadSeeds(d, seeds).0.book.vals && k !in d.book.vals
    ensures exists i :: 0 <= i < |seeds| && Admissible(d, seeds[i]) && PeerAddr.Parse(seeds[i]).info.id == k
    decreases |seeds|
  {
    var p := PeerAddr.Parse(seeds[0]);
    var d1 := AddToPeerBook(d, p.info.id, p.info.addr);
    if k in d1.book.vals {
      assert Admissible(d, seeds[0]) && p.info.id == k;
    } else {
      SeedsOnly(d1, seeds[1..], k);
      var i :| 0 <= i < |seeds[1..]| && Admissible(d1, seeds[1..][i]) && PeerAddr.Parse(seeds[1..][i]).info.id == k;
      assert seeds[1..][i] == seeds[i + 1];
    }
  }

  /** `initialize`: the book as loaded, both handlers served, then the
      seeds. */
  function Initialize(d: State, rpc: Rpc.State, seeds: seq<PeerAddr.AddrInput>,
                      announceHandler: Rpc.HandlerId, findHandler: Rpc.HandlerId)
    : (r: (State, Rpc.State, Option<PeerAddr.ParseError>))
    requires Valid(d)
    ensures r.1.handlers == rpc.handlers[ANNOUNCE_PUBLIC := announceHandler][FIND_PEERS := findHandler]
    ensures r.1.counter == rpc.counter && r.1.waiting == rpc.waiting
    ensures (r.0, r.2) == LoadSeeds(d, seeds)
  {
    var rpc1 := Rpc.Serve(Rpc.Serve(rpc, ANNOUNCE_PUBLIC, announceHandler), FIND_PEERS, findHandler);
    var (d1, err) := LoadSeeds(d, seeds);
    (d1, rpc1, err)
  }

  // ----- findPeers ---------------------------------------------------------------

  /** `addr` is the address of some entry unbanned at `now`. */
  predicate Listed(d: State, now: int, addr: string)
  {
    exists k | k in d.book.vals :: PeerBook.IsUnbanned(d.book.vals[k], now) && d.book.vals[k].addr == addr
  }

  /** `getUnbannedPeers().map(peer => peer.addr)`: the addresses of the
      unbanned entries in book order, which are the entries `forEachUnbanned`
      visits. */
  function UnbannedAddrs(d: State, now: int): (r: seq<Value>)
    requires Valid(d)
    ensures forall v | v in r :: v.Str? && Listed(d, now, v.s)
    ensures forall k | k in d.book.vals && PeerBook.IsUnbanned(d.book.vals[k], now) ::
      Str(d.book.vals[k].addr) in r
  {
    Strings(Addresses(PeerBook.ForEachUnbanned(d.book, now)))
  }

  /** Strings as JavaScript values. */
  function Strings(ss: seq<string>): (r: seq<Value>)
    ensures forall v | v in r :: v.Str? && v.s in ss
    ensures forall a | a in ss :: Str(a) in r
  {
    if |ss| == 0 then []
    else [Str(ss[0])] + Strings(ss[1..])
  }

  /** `findPeersHandler`: answers at once, without error, with the
      addresses of the entries unbanned at `now`. */
  function FindPeersHandler(d: State, now: int): (r: Rpc.HandlerRun)
    requires Valid(d)
    ensures !r.threw && |r.replies| == 1 && r.replies[0].0 == Null && r.replies[0].1.Arr?
    ensures forall v | v in r.replies[0].1.items :: v.Str? && Listed(d, now, v.s)
    ensures forall k | k in d.book.vals && PeerBook.IsUnbanned(d.book.vals[k], now) ::
      Str(d.book.vals[k].addr) in r.replies[0].1.items
  {
    Rpc.HandlerRun([(Null, Arr(UnbannedAddrs(d, now)))], false)
  }

  /** `findPeers`: with no connected peer nothing happens; otherwise one
      `findPeers` request goes to the chosen peer (`choice` standing for
      the random index) with `cb` registered for the reply. */
  function FindPeers(rpc: Rpc.State, now: int, peers: seq<Rpc.PeerId>, choice: nat, cb: Rpc.CallbackId)
    : (r: (Rpc.State, seq<Rpc.Effect>))
    requires Rpc.Valid(rpc)
    requires |peers| > 0 ==> choice < |peers|
    ensures Rpc.Valid(r.0)
    ensures |peers| == 0 ==> r == (rpc, [])
    ensures |peers| > 0 ==>
      && |r.1| == 1 && r.1[0].Send? && r.1[0].peer == peers[choice]
      && Field(r.1[0].msg, "method") == Str(FIND_PEERS)
      && Field(r.1[0].msg, "seq") == Num(r.0.counter)
      && r.0.counter in r.0.waiting.vals && r.0.waiting.vals[r.0.counter].callback == cb
      && r.0.waiting.vals[r.0.counter].timeout == Rpc.DEFAULT_TIMEOUT
  {
    if |peers| == 0 then (rpc, [])
    else Rpc.Request(rpc, now, peers[choice], Str(FIND_PEERS), Undefined, Rpc.OptsFn(cb), Rpc.CallbackNone)
  }

  /** The loop over a reply's addresses: each one is parsed and offered;
      one that does not parse is skipped. */
  function AddReplyAddrs(d: State, items: seq<Value>): (r: State)
    requires Valid(d)
    ensures Valid(r) && SameNode(d, r) && KeepsEntries(d, r)
    ensures forall v | v in items && Admissible(d, AsInput(v)) ::
      PeerAddr.Parse(AsInput(v)).info.id in r.book.vals
    ensures forall k | k in r.book.vals && k !in d.book.vals ::
      exists v | v in items :: Admissible(d, AsInput(v)) && PeerAddr.Parse(AsInput(v)).info.id == k
    ensures SelfFree(d) ==> SelfFree(r)
    decreases |items|
  {
    if |items| == 0 then d
    else
      var d1 := AddParsed(d, AsInput(items[0]));
      var r := AddReplyAddrs(d1, items[1..]);
      assert forall v | v in items[1..] :: v in items;
      assert forall k | k in r.book.vals && k !in d.book.vals ::
        exists v | v in items :: Admissible(d, AsInput(v)) && PeerAddr.Parse(AsInput(v)).info.id == k by {
        forall k | k in r.book.vals && k !in d.book.vals
          ensures exists v | v in items :: Admissible(d, AsInput(v)) && PeerAddr.Parse(AsInput(v)).info.id == k
        {
          if k in d1.book.vals {
            assert items[0] in items;
          } else {
            var v :| v in items[1..] && Admissible(d1, AsInput(v)) && PeerAddr.Parse(AsInput(v)).info.id == k;
          }
        }
      }
      r
  }

  /** The callback of `findPeers`: an error (including the RPC timeout)
      adds nothing; an array reply is walked address by address. Any other
      result adds nothing either: a string is walked character by
      character and no single character parses, and a non-iterable value
      throws inside the callback, where the RPC engine swallows it. */
  function OnFindPeersReply(d: State, error: Value, result: Value): (r: State)
    requires Valid(d)
    ensures Valid(r) && SameNode(d, r) && KeepsEntries(d, r)
    ensures Truthy(error) || !result.Arr? ==> r == d
    ensures !Truthy(error) && result.Arr? ==> r == AddReplyAddrs(d, result.items)
    ensures SelfFree(d) ==> SelfFree(r)
  {
    if Truthy(error) then d
    else if result.Arr? then AddReplyAddrs(d, result.items)
    else d
  }

  /** The entries of a reply that parse, in order. */
  function Parseable(items: seq<Value>): (r: seq<Value>)
    ensures forall v | v in r :: v in items && PeerAddr.Parse(AsInput(v)).Parsed?
    ensures forall v | v in items && PeerAddr.Parse(AsInput(v)).Parsed? :: v in r
  {
    if |items| == 0 then []
    else if PeerAddr.Parse(AsInput(items[0])).Parsed? then [items[0]] + Parseable(items[1..])
    else Parseable(items[1..])
  }

  /** The filter keeps the reply's order: filtering a concatenation is
      filtering each part and concatenating the results. */
  lemma {:induction false} ParseableAppend(a: seq<Value>, b: seq<Value>)
    ensures Parseable(a + b) == Parseable(a) + Parseable(b)
  {
    if |a| > 0 {
      assert (a + b)[0] == a[0];
      assert (a + b)[1..] == a[1..] + b;
      ParseableAppend(a[1..], b);
    } else {
      assert a + b == b;
    }
  }

  /** Unparseable entries of a reply are skipped without any effect on the
      others: dropping them beforehand gives the same book. */
  lemma {:induction false} UnparseableSkipped(d: State, items: seq<Value>)
    requires Valid(d)
    ensures AddReplyAddrs(d, items) == AddReplyAddrs(d, Parseable(items))
    decreases |items|
  {
    if |items| > 0 {
      var d1 := AddParsed(d, AsInput(items[0]));
      UnparseableSkipped(d1, items[1..]);
      if PeerAddr.Parse(AsInput(items[0])).Parsed? {
        var ps := [items[0]] + Parseable(items[1..]);
        assert ps[0] == items[0] && ps[1..] == Parseable(items[1..]);
      } else {
        assert d1 == d;
      }
    }
  }

  /** Asking a peer for its peers: every address the peer holds unbanned
      that parses to an id other than the asker's own ends up in the
      asker's book. */
  lemma FindPeersExchange(asker: State, answerer: State, now: int)
    requires Valid(asker) && Valid(answerer)
    ensures var reply := FindPeersHandler(answerer, now).replies[0];
      var d := OnFindPeersReply(asker, reply.0, reply.1);
      forall k | k in answerer.book.vals && PeerBook.IsUnbanned(answerer.book.vals[k], now)
                 && Admissible(asker, PeerAddr.Text(answerer.book.vals[k].addr)) ::
        PeerAddr.Parse(PeerAddr.Text(answerer.book.vals[k].addr)).info.id in d.book.vals
  {

  }

  // ----- announcePublic ----------------------------------------------------------

  /** `announcePublicHandler`: the announced `params.addr` is parsed and
      offered under its parsed id; missing params, a non-string address or
      a parse failure are caught and change nothing. It never replies. */
  function AnnouncePublicHandler(d: State, params: Value): (r: (State, Rpc.HandlerRun))
    requires Valid(d)
    ensures r.1 == Rpc.HandlerRun([], false)
    ensures Valid(r.0) && SameNode(d, r.0) && KeepsEntries(d, r.0)
    ensures !(Prop(params, "addr").Str? && PeerAddr.Parse(PeerAddr.Text(Prop(params, "addr").s)).Parsed?) ==>
      r.0 == d
    ensures Prop(params, "addr").Str? && PeerAddr.Parse(PeerAddr.Text(Prop(params, "addr").s)).Parsed? ==>
      var addr := Prop(params, "addr").s;
      r.0 == AddToPeerBook(d, PeerAddr.Parse(PeerAddr.Text(addr)).info.id, addr)
    ensures SelfFree(d) ==> SelfFree(r.0)
  {
    var d1 := if params.Undefined? || params.Null? then d else AddParsed(d, AsInput(Prop(params, "addr")));
    (d1, Rpc.HandlerRun([], false))
  }

  // ----- connection outcomes -------------------------------------------------------

  function AnnounceParams(publicAddr: string): (v: Value)
    ensures Prop(v, "addr") == Str(publicAddr)
  {
    Obj(map["addr" := Str(publicAddr)])
  }

  /** `onConnected(peer)`: with a public address set, announce it to the
      peer (no callback, so nothing is pending); then unban the peer. */
  function OnConnected(d: State, rpc: Rpc.State, now: int, peer: Rpc.PeerId)
    : (r: (State, Rpc.State, seq<Rpc.Effect>))
    requires Valid(d) && Rpc.Valid(rpc)
    ensures Valid(r.0) && Rpc.Valid(r.1) && SameNode(d, r.0)
    ensures Some(peer) in d.book.vals ==>
      Some(peer) in r.0.book.vals && r.0.book.vals[Some(peer)] == PeerBook.NewStatus(d.book.vals[Some(peer)].addr)
    ensures forall k | k != Some(peer) :: (k in r.0.book.vals <==> k in d.book.vals)
    ensures forall k | k in d.book.vals && k != Some(peer) :: r.0.book.vals[k] == d.book.vals[k]
    ensures Some(peer) !in d.book.vals ==> r.0.book == d.book
    ensures SelfFree(d) ==> SelfFree(r.0)
    ensures d.publicAddr == "" ==> r.1 == rpc && r.2 == []
    ensures d.publicAddr != "" ==>
      && r.1.waiting == rpc.waiting
      && |r.2| == 1 && r.2[0].Send? && r.2[0].peer == peer
      && Field(r.2[0].msg, "method") == Str(ANNOUNCE_PUBLIC)
      && Field(r.2[0].msg, "params") == AnnounceParams(d.publicAddr)
  {
    var (rpc1, out) :=
      if d.publicAddr != "" then
        Rpc.Request(rpc, now, peer, Str(ANNOUNCE_PUBLIC), AnnounceParams(d.publicAddr), Rpc.OptsNone, Rpc.CallbackNone)
      else (rpc, []);
    (d.(book := PeerBook.Unban(d.book, Some(peer))), rpc1, out)
  }

  /** `onDisconnected(peer)` and `onConnectFailed(peer)`, which do the same:
      one ban. A known peer moves one step up the backoff or, past the
      attempt limit, leaves the book; nothing else changes. */
  function BanPeer(d: State, peer: Rpc.PeerId, now: int, random: real): (r: State)
    requires Valid(d) && 0.0 <= random < 1.0
    ensures Valid(r) && SameNode(d, r)
    ensures Some(peer) !in d.book.vals ==> r == d
    ensures Some(peer) in d.book.vals ==>
      var before := d.book.vals[Some(peer)];
      && (Some(peer) in r.book.vals <==> before.banCount + 1 <= d.cfg.maxBanAttempts)
      && (Some(peer) in r.book.vals ==>
            r.book.vals[Some(peer)].banCount == before.banCount + 1
            && r.book.vals[Some(peer)].addr == before.addr
            && (d.cfg.banTTL >= 0 ==> r.book.vals[Some(peer)].unbanTime >= now))
    ensures forall k | k in d.book.vals && k != Some(peer) :: k in r.book.vals && r.book.vals[k] == d.book.vals[k]
    ensures forall k | k in r.book.vals :: k in d.book.vals
    ensures SelfFree(d) ==> SelfFree(r)
  {
    d.(book := PeerBook.Ban(d.cfg, d.book, Some(peer), now, random))
  }

  /** The addresses of a list of `(status, id)` calls, in order. */
  function Addresses(calls: seq<(PeerBook.PeerStatus, Key)>): (r: seq<string>)
    ensures |r| == |calls|
    ensures forall c | c in calls :: c.0.addr in r
    ensures forall a | a in r :: exists c | c in calls :: c.0.addr == a
  {
    if |calls| == 0 then []
    else [calls[0].0.addr] + Addresses(calls[1..])
  }

  /** `providePeers`: one connect request per unbanned entry, for its
      address, in book order. */
  function ProvidePeers(d: State, now: int): (r: seq<string>)
    requires Valid(d)
    ensures |r| == |PeerBook.ForEachUnbanned(d.book, now)|
    ensures forall a | a in r :: Listed(d, now, a)
    ensures forall k | k in d.book.vals && PeerBook.IsUnbanned(d.book.vals[k], now) :: d.book.vals[k].addr in r
  {
    Addresses(PeerBook.ForEachUnbanned(d.book, now))
  }

  // ----- the node never lists itself ------------------------------------------------

  /** What reaches discovery after `initialize`. */
  datatype Event =
    | FoundPeers(error: Value, result: Value)       // the `findPeers` callback
    | Announced(params: Value)                      // an `announcePublic` request
    | Connected(peer: Rpc.PeerId, now: int)
    | Disconnected(peer: Rpc.PeerId, now: int, random: real)
    | ConnectFailed(peer: Rpc.PeerId, now: int, random: real)

  predicate WellFormed(ev: Event)
  {
    (ev.Disconnected? || ev.ConnectFailed?) ==> 0.0 <= ev.random < 1.0
  }

  function Handle(d: State, rpc: Rpc.State, ev: Event): (r: (State, Rpc.State))
    requires Valid(d) && Rpc.Valid(rpc) && WellFormed(ev)
    ensures Valid(r.0) && Rpc.Valid(r.1) && SameNode(d, r.0)
    ensures SelfFree(d) ==> SelfFree(r.0)
  {
    match ev
    case FoundPeers(error, result) => (OnFindPeersReply(d, error, result), rpc)
    case Announced(params) => (AnnouncePublicHandler(d, params).0, rpc)
    case Connected(peer, now) => var (d1, rpc1, _) := OnConnected(d, rpc, now, peer); (d1, rpc1)
    case Disconnected(peer, now, random) => (BanPeer(d, peer, now, random), rpc)
    case ConnectFailed(peer, now, random) => (BanPeer(d, peer, now, random), rpc)
  }

  function HandleAll(d: State, rpc: Rpc.State, evs: seq<Event>): (r: (State, Rpc.State))
    requires Valid(d) && Rpc.Valid(rpc)
    requires forall i :: 0 <= i < |evs| ==> WellFormed(evs[i])
    ensures Valid(r.0) && Rpc.Valid(r.1) && SameNode(d, r.0)
    decreases |evs|
  {
    if |evs| == 0 then (d, rpc)
    else
      var (d1, rpc1) := Handle(d, rpc, evs[0]);
      HandleAll(d1, rpc1, evs[1..])
  }

  /** Seeds, replies, announcements, and connection outcomes together never
      put the node's own id into its book. */
  lemma {:induction false} SelfNeverAdded(d: State, rpc: Rpc.State, seeds: seq<PeerAddr.AddrInput>, evs: seq<Event>)
    requires Valid(d) && Rpc.Valid(rpc) && SelfFree(d)
    requires forall i :: 0 <= i < |evs| ==> WellFormed(evs[i])
    ensures SelfFree(HandleAll(LoadSeeds(d, seeds).0, rpc, evs).0)
  {
    HandleAllSelfFree(LoadSeeds(d, seeds).0, rpc, evs);
  }

  lemma {:induction false} HandleAllSelfFree(d: State, rpc: Rpc.State, evs: seq<Event>)
    requires Valid(d) && Rpc.Valid(rpc) && SelfFree(d)
    requires forall i :: 0 <= i < |evs| ==> WellFormed(evs[i])
    ensures SelfFree(HandleAll(d, rpc, evs).0)
    decreases |evs|
  {
    if |evs| > 0 {
      var (d1, rpc1) := Handle(d, rpc, evs[0]);
      HandleAllSelfFree(d1, rpc1, evs[1..]);
    }
  }
}
