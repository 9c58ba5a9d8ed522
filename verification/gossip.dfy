/** The gossip layer: messages stamped with the node's id and a wrapping
    sequence number, fanned out to a random selection of at most fifteen
    connected peers, and handed on arrival to every subscriber of their
    topic. The random swap indices of the shuffle are explicit inputs. */
module Gossip {
  import opened Base
  import SeqCounter

  const PROTOCOL: string := "/gossip/0.1.0"
  const PUBLISH_LIMIT: nat := 15
  const MAX_SAFE_INTEGER: int := 9007199254740991

  type PeerId = string
  type HandlerId = nat

  datatype State = State(
    nodeId: string,                       // `this.node.id`
    counter: int,                         // `this.seq`
    topics: map<string, seq<HandlerId>>)  // the emitter's listeners, per topic

  datatype Effect =
    | Send(peer: PeerId, msg: Msg)                          // `node.send(peer, msg)`
    | Deliver(handler: HandlerId, msg: Msg, from: PeerId)   // `handler(msg, peer)`
    | ThrewUnhandledError                                   // `emit('error')` with no listener

  /** The constructor: the counter is seeded with the clock reading `now`
      and no topic has a subscriber. */
  function Init(nodeId: string, now: int): (st: State)
    ensures st.nodeId == nodeId && st.counter == now
    ensures forall t :: Handlers(st, t) == []
  {
    State(nodeId, now, map[])
  }

  /** The listeners of `topic`, in the order they subscribed. */
  function Handlers(st: State, topic: string): seq<HandlerId>
  {
    if topic in st.topics then st.topics[topic] else []
  }

  // ----- getSeq / buildMessage -----------------------------------------------

  /** `getSeq`: one up, or back to 1 once `Number.MAX_SAFE_INTEGER` is reached. */
  function GetSeq(st: State): (r: (State, int))
    ensures r.0.counter == r.1
    ensures st.counter < MAX_SAFE_INTEGER ==> r.1 == st.counter + 1
    ensures st.counter >= MAX_SAFE_INTEGER ==> r.1 == 1
    ensures st.counter >= 0 ==> 1 <= r.1 <= MAX_SAFE_INTEGER
    ensures r.0.nodeId == st.nodeId && r.0.topics == st.topics
  {
    var s := SeqCounter.Next(st.counter, MAX_SAFE_INTEGER);
    (st.(counter := s), s)
  }

  /** Gossip messages built from a non-negative counter carry pairwise
      different numbers over any `MAX_SAFE_INTEGER` consecutive builds. */
  lemma SeqWindow(st: State, i: nat, j: nat)
    requires 0 <= st.counter <= MAX_SAFE_INTEGER
    requires 1 <= i < j <= MAX_SAFE_INTEGER
    ensures SeqCounter.Advance(st.counter, MAX_SAFE_INTEGER, i) != SeqCounter.Advance(st.counter, MAX_SAFE_INTEGER, j)
  {
    SeqCounter.WindowDistinct(st.counter, MAX_SAFE_INTEGER, i, j);
  }

  /** `buildMessage(topic, data)`: tagged with the gossip protocol, signed
      with the node's own id, numbered with a fresh sequence number. */
  function BuildMessage(st: State, topic: Value, data: Value): (r: (State, Msg))
    ensures var (st1, m) := r;
      && Field(m, "protocol") == Str(PROTOCOL)
      && Field(m, "source") == Str(st.nodeId)
      && Field(m, "topic") == topic
      && Field(m, "data") == data
      && Field(m, "seq") == Num(st1.counter)
      && m.Keys == {"protocol", "source", "topic", "data", "seq"}
    ensures r.0 == GetSeq(st).0
  {
    var (st1, s) := GetSeq(st);
    (st1, map["protocol" := Str(PROTOCOL), "source" := Str(st.nodeId), "topic" := topic,
              "data" := data, "seq" := Num(s)])
  }

  // ----- the shuffle -----------------------------------------------------------

  /** `tmp = a[i]; a[i] = a[j]; a[j] = tmp`. */
  function Swap<T>(s: seq<T>, i: nat, j: nat): (r: seq<T>)
    requires i < |s| && j < |s|
    ensures |r| == |s|
    ensures r[i] == s[j] && r[j] == s[i]
    ensures forall k :: 0 <= k < |s| && k != i && k != j ==> r[k] == s[k]
  {
    s[i := s[j]][j := s[i]]
  }

  /** Whether every swap index is a valid position, as `Math.floor(Math.random() * n)` is. */
  predicate ValidChoices(n: nat, js: seq<nat>)
  {
    |js| == n && forall k :: 0 <= k < |js| ==> js[k] < n
  }

  /** The first `n` rounds of the shuffle: round `i` swaps positions `i`
      and `js[i]`. */
  function Swaps<T>(s: seq<T>, js: seq<nat>, n: nat): (r: seq<T>)
    requires n <= |s| && ValidChoices(|s|, js)
    ensures |r| == |s|
  {
    if n == 0 then s else Swap(Swaps(s, js, n - 1), n - 1, js[n - 1])
  }

  lemma SwapPermutes<T>(s: seq<T>, i: nat, j: nat)
    requires i < |s| && j < |s|
    ensures multiset(Swap(s, i, j)) == multiset(s)
  {

  }

  /** One round of the shuffle keeps the multiset. */
  lemma SwapsStep<T>(s: seq<T>, js: seq<nat>, n: nat)
    requires 0 < n <= |s| && ValidChoices(|s|, js)
    ensures multiset(Swaps(s, js, n)) == multiset(Swaps(s, js, n - 1))
  {

  }

  lemma {:induction false} SwapsPermute<T>(s: seq<T>, js: seq<nat>, n: nat)
    requires n <= |s| && ValidChoices(|s|, js)
    ensures multiset(Swaps(s, js, n)) == multiset(s)
  {
    if n > 0 {
      SwapsPermute(s, js, n - 1);
      SwapsStep(s, js, n);
      var a := multiset(Swaps(s, js, n));
      var b := multiset(Swaps(s, js, n - 1));
      assert a == b;
    } else {
      assert Swaps(s, js, 0) == s;
    }
  }

  /** The swap loop of `getRandomPeers`, run on a copy of the peer list;
      the result is the functional shuffle, hence a permutation. */
  method Shuffle(peers: seq<PeerId>, js: seq<nat>) returns (r: seq<PeerId>)
    requires ValidChoices(|peers|, js)
    ensures r == Swaps(peers, js, |peers|)
    ensures multiset(r) == multiset(peers)
  {
    var a := new PeerId[|peers|](k requires 0 <= k < |peers| => peers[k]);
    var i := 0;
    while i < a.Length
      invariant 0 <= i <= a.Length == |peers|
      invariant a[..] == Swaps(peers, js, i)
    {
      var j := js[i];
      var tmp := a[i];
      a[i] := a[j];
      a[j] := tmp;
      i := i + 1;
    }
    r := a[..];
    SwapsPermute(peers, js, |peers|);
  }

  /** Two lists that are permutations of each other, one without repeats,
      have no repeats in the other either. */
  lemma {:induction false} PermutationKeepsNoDup<T>(s: seq<T>, t: seq<T>)
    requires multiset(s) == multiset(t)
    ensures NoDup(s) ==> NoDup(t)
  {
    if !NoDup(s) {
      return;
    }
    forall i, j | 0 <= i < j < |t|
      ensures t[i] != t[j]
    {
      if t[i] == t[j] {
        var x := t[i];
        assert multiset(t[..j])[x] >= 1 by {
          assert t[..j][i] == x;
        }
        assert t == t[..j] + [t[j]] + t[j + 1..];
        assert multiset(t)[x] >= 2;
        NoDupCountsOnce(s, x);
        assert false;
      }
    }
  }

  lemma {:induction false} NoDupCountsOnce<T>(s: seq<T>, x: T)
    requires NoDup(s)
    ensures multiset(s)[x] <= 1
  {
    if |s| > 0 {
      assert NoDup(s[1..]);
      NoDupCountsOnce(s[1..], x);
      assert s == [s[0]] + s[1..];
      if s[0] == x {
        assert x !in s[1..];
      }
    }
  }

  function Min(a: nat, b: nat): nat
  {
    if a <= b then a else b
  }

  /** `getRandomPeers(max)`: the connected peers shuffled, then the first
      `max` of them. */
  function RandomPeers(peers: seq<PeerId>, js: seq<nat>, max: nat): (r: seq<PeerId>)
    requires ValidChoices(|peers|, js)
    ensures |r| == Min(max, |peers|)
    ensures forall p | p in r :: p in peers
    ensures NoDup(peers) ==> NoDup(r)
  {
    var shuffled := Swaps(peers, js, |peers|);
    SwapsPermute(peers, js, |peers|);
    PrefixOfPermutation(peers, shuffled, Min(max, |peers|));
    shuffled[..Min(max, |peers|)]
  }

  /** A prefix of a permutation draws only from the original and repeats
      nothing the original does not. */
  lemma PrefixOfPermutation<T>(s: seq<T>, t: seq<T>, n: nat)
    requires multiset(s) == multiset(t) && n <= |t|
    ensures forall p | p in t[..n] :: p in s
    ensures NoDup(s) ==> NoDup(t[..n])
  {
    forall p | p in t[..n]
      ensures p in s
    {
      assert p in t;
      assert p in multiset(t);
    }
    PermutationKeepsNoDup(s, t);
  }

  /** The same selection computed by running the swap loop. */
  method GetRandomPeers(peers: seq<PeerId>, js: seq<nat>, max: nat) returns (r: seq<PeerId>)
    requires ValidChoices(|peers|, js)
    ensures r == RandomPeers(peers, js, max)
    ensures |r| == Min(max, |peers|) && forall p | p in r :: p in peers
  {
    var shuffled := Shuffle(peers, js);
    r := shuffled[..Min(max, |peers|)];
  }

  /** Taking every peer (`max` at least the number of peers) selects each
      of them exactly once. */
  lemma SelectAllIsPermutation(peers: seq<PeerId>, js: seq<nat>, max: nat)
    requires ValidChoices(|peers|, js)
    requires max >= |peers|
    ensures multiset(RandomPeers(peers, js, max)) == multiset(peers)
  {
    var shuffled := Swaps(peers, js, |peers|);
    SwapsPermute(peers, js, |peers|);
    assert shuffled[..|peers|] == shuffled;
  }

  /** With no more peers than the limit, every peer is selected. */
  lemma SelectAllCovers(peers: seq<PeerId>, js: seq<nat>, max: nat)
    requires ValidChoices(|peers|, js)
    requires max >= |peers|
    ensures forall p | p in peers :: p in RandomPeers(peers, js, max)
  {
    SelectAllIsPermutation(peers, js, max);
    forall p | p in peers
      ensures p in RandomPeers(peers, js, max)
    {
      assert p in multiset(peers);
    }
  }

  /** Sending to a list reaches every member of it. */
  lemma SendAllReaches(targets: seq<PeerId>, msg: Msg, p: PeerId)
    requires p in targets
    ensures Send(p, msg) in SendAll(targets, msg)
  {
  }

  // ----- publish / forward / subscribe -----------------------------------------

  function SendAll(targets: seq<PeerId>, msg: Msg): (r: seq<Effect>)
    ensures |r| == |targets|
    ensures forall i :: 0 <= i < |r| ==> r[i] == Send(targets[i], msg)
  {
    seq(|targets|, i requires 0 <= i < |targets| => Send(targets[i], msg))
  }

  /** `publish(topic, data)`: one new message, sent as it is to each of up
      to `PUBLISH_LIMIT` selected peers. */
  function Publish(st: State, peers: seq<PeerId>, js: seq<nat>, topic: Value, data: Value): (r: (State, seq<Effect>))
    requires ValidChoices(|peers|, js)
    ensures var m := BuildMessage(st, topic, data).1;
      && r.0 == BuildMessage(st, topic, data).0
      && |r.1| == Min(PUBLISH_LIMIT, |peers|)
      && forall e | e in r.1 :: e.Send? && e.msg == m && e.peer in peers
    ensures NoDup(peers) ==> forall i, j :: 0 <= i < j < |r.1| ==> r.1[i].peer != r.1[j].peer
    ensures |peers| <= PUBLISH_LIMIT ==>
      forall p | p in peers :: Send(p, BuildMessage(st, topic, data).1) in r.1
  {
    var (st1, m) := BuildMessage(st, topic, data);
    (st1, Forward(peers, js, m))
  }

  /** `forward(msg)`: the message itself, unchanged, to up to
      `PUBLISH_LIMIT` selected peers; the sender and the message's source
      are not excluded. */
  function Forward(peers: seq<PeerId>, js: seq<nat>, msg: Msg): (r: seq<Effect>)
    requires ValidChoices(|peers|, js)
    ensures |r| == Min(PUBLISH_LIMIT, |peers|)
    ensures forall e | e in r :: e.Send? && e.msg == msg && e.peer in peers
    ensures NoDup(peers) ==> forall i, j :: 0 <= i < j < |r| ==> r[i].peer != r[j].peer
    ensures |peers| <= PUBLISH_LIMIT ==> forall p | p in peers :: Send(p, msg) in r
  {
    var targets := RandomPeers(peers, js, PUBLISH_LIMIT);
    if |peers| <= PUBLISH_LIMIT then
      SelectAllCovers(peers, js, PUBLISH_LIMIT);
      assert forall p | p in peers :: Send(p, msg) in SendAll(targets, msg) by {
        forall p | p in peers
          ensures Send(p, msg) in SendAll(targets, msg)
        {
          SendAllReaches(targets, msg, p);
        }
      }
      SendAll(targets, msg)
    else
      SendAll(targets, msg)
  }

  /** `subscribe(topic, handler)`: appended after any earlier handler. */
  function Subscribe(st: State, topic: string, handler: HandlerId): (r: State)
    ensures Handlers(r, topic) == Handlers(st, topic) + [handler]
    ensures forall t | t != topic :: Handlers(r, t) == Handlers(st, t)
    ensures r.nodeId == st.nodeId && r.counter == st.counter
  {
    st.(topics := st.topics[topic := Handlers(st, topic) + [handler]])
  }

  // ----- receiveMessage ----------------------------------------------------------

  function DeliverAll(handlers: seq<HandlerId>, msg: Msg, from: PeerId): (r: seq<Effect>)
    ensures |r| == |handlers|
    ensures forall i :: 0 <= i < |r| ==> r[i] == Deliver(handlers[i], msg, from)
  {
    seq(|handlers|, i requires 0 <= i < |handlers| => Deliver(handlers[i], msg, from))
  }

  /** `receiveMessage(msg, peer)`: a gossip message goes to every listener
      of its topic, in subscription order, with the sending peer; there is
      no duplicate check, and the state is never changed. A message on the
      topic `"error"` with no listener makes the emitter throw. */
  function ReceiveMessage(st: State, msg: Msg, from: PeerId): (r: seq<Effect>)
    ensures Field(msg, "protocol") != Str(PROTOCOL) ==> r == []
    ensures Field(msg, "protocol") == Str(PROTOCOL) && Field(msg, "topic").Str? ==>
      var t := Field(msg, "topic").s;
      if t == "error" && Handlers(st, t) == [] then r == [ThrewUnhandledError]
      else |r| == |Handlers(st, t)| && forall i :: 0 <= i < |r| ==> r[i] == Deliver(Handlers(st, t)[i], msg, from)
  {
    if Field(msg, "protocol") != Str(PROTOCOL) then []
    else
      var topic := Field(msg, "topic");
      if !topic.Str? then []
      else if topic.s == "error" && Handlers(st, topic.s) == [] then [ThrewUnhandledError]
      else DeliverAll(Handlers(st, topic.s), msg, from)
  }

  /** A handler subscribed to a topic receives the next message on it,
      after the handlers that subscribed before. */
  lemma SubscribeThenReceive(st: State, topic: string, h: HandlerId, msg: Msg, from: PeerId)
    requires Field(msg, "protocol") == Str(PROTOCOL) && Field(msg, "topic") == Str(topic)
    ensures var r := ReceiveMessage(Subscribe(st, topic, h), msg, from);
      && |r| == |Handlers(st, topic)| + 1
      && r[|r| - 1] == Deliver(h, msg, from)
      && r[..|r| - 1] == DeliverAll(Handlers(st, topic), msg, from)
  {

  }

  /** A published message reaches a selected peer's subscribers of its
      topic, with the publisher as source and the data unchanged. */
  lemma PublishReachesSubscribers(publisher: State, receiver: State, peers: seq<PeerId>, js: seq<nat>,
                                  topic: string, data: Value, i: nat)
    requires ValidChoices(|peers|, js)
    requires topic != "error"
    requires i < |Publish(publisher, peers, js, Str(topic), data).1|
    ensures var e := Publish(publisher, peers, js, Str(topic), data).1[i];
      var r := ReceiveMessage(receiver, e.msg, publisher.nodeId);
      && |r| == |Handlers(receiver, topic)|
      && forall k :: 0 <= k < |r| ==>
           && r[k].Deliver? && r[k].handler == Handlers(receiver, topic)[k]
           && Field(r[k].msg, "source") == Str(publisher.nodeId)
           && Field(r[k].msg, "data") == data
  {

  }
}
