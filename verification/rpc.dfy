/** The RPC engine: request/response correlation by a global sequence
    number, a pending-request table swept for timeouts, and dispatch of
    inbound requests to registered handlers. Time, handlers' behaviour and
    callbacks are explicit: callbacks are opaque identities, and calling
    one is an `Invoke` effect. */
module Rpc {
  import opened Base
  import JsMap
  import SeqCounter

  const MAX_SEQ: int := 4294967295
  const PROTOCOL: string := "/rpc/0.1.0"
  const DEFAULT_TIMEOUT: int := 4000
  const TIMEOUT_ERROR: string := "request timeout"

  type PeerId = string
  type CallbackId = nat
  type HandlerId = nat

  // ----- RPCErrorBuilder -------------------------------------------------

  datatype ErrorKind =
    | MethodNotFound
    | ParseError
    | InvalidRequest
    | InvalidParams
    | InternalError
    | ServerError

  function Code(k: ErrorKind): int
  {
    match k
    case MethodNotFound => -32601
    case ParseError => -32700
    case InvalidRequest => -32600
    case InvalidParams => -32602
    case InternalError => -32603
    case ServerError => -32000
  }

  function Message(k: ErrorKind): string
  {
    match k
    case MethodNotFound => "Method not found"
    case ParseError => "Parse error"
    case InvalidRequest => "Invalid request"
    case InvalidParams => "Invalid params"
    case InternalError => "Internal error"
    case ServerError => "Server error"
  }

  /** `RPCErrorBuilder.<kind>(data)`: an error object that is always
      truthy and carries its kind's code, message and the given data. */
  function BuildError(k: ErrorKind, data: Value): (e: Value)
    ensures Truthy(e)
    ensures Prop(e, "code") == Num(Code(k))
    ensures Prop(e, "message") == Str(Message(k))
    ensures Prop(e, "data") == data
  {
    Obj(map["code" := Num(Code(k)), "message" := Str(Message(k)), "data" := data])
  }

  /** The code of the error a response carries, if any. */
  function ErrorCode(m: Msg): Option<int>
  {
    var c := Prop(Field(m, "error"), "code");
    if c.Num? then Some(c.n) else None
  }

  /** Every kind has its own code, so the code identifies the kind. */
  lemma CodesIdentifyKinds(a: ErrorKind, b: ErrorKind)
    ensures Code(a) == Code(b) <==> a == b
  {

  }

  // ----- state -------------------------------------------------------------

  datatype PendingReq = PendingReq(timestamp: int, callback: CallbackId, timeout: int)

  datatype State = State(
    counter: int,                              // `this.seq`
    waiting: JsMap.JsMap<int, PendingReq>,     // `this.waitingReqs`
    handlers: map<string, HandlerId>)          // `this.reqHandlers`

  predicate Valid(st: State)
  {
    0 <= st.counter <= MAX_SEQ && JsMap.Valid(st.waiting)
  }

  function Init(): (st: State)
    ensures Valid(st)
    ensures st.counter == 0 && st.waiting.vals == map[] && st.handlers == map[]
  {
    State(0, JsMap.Empty(), map[])
  }

  datatype Effect =
    | Send(peer: PeerId, msg: Msg)                               // `node.send(peer, msg)`
    | Invoke(callback: CallbackId, error: Value, result: Value)  // `callback(error, result)`

  // ----- messages ----------------------------------------------------------

  /** `buildRequestMessage`, with the sequence number already drawn. */
  function RequestMsg(methodName: Value, params: Value, s: int): (m: Msg)
    ensures Field(m, "protocol") == Str(PROTOCOL)
    ensures Field(m, "method") == methodName && Field(m, "params") == params
    ensures Field(m, "seq") == Num(s)
  {
    map["protocol" := Str(PROTOCOL), "method" := methodName, "params" := params, "seq" := Num(s)]
  }

  /** `buildResponseMessage`: the error wins over the result, and a falsy
      one of them is left out altogether. */
  function ResponseMsg(error: Value, result: Value, s: Value): (m: Msg)
    ensures Field(m, "protocol") == Str(PROTOCOL) && Field(m, "seq") == s
    ensures "method" !in m
    ensures Truthy(error) ==> Field(m, "error") == error && "result" !in m
    ensures !Truthy(error) && Truthy(result) ==> Field(m, "result") == result && "error" !in m
    ensures !Truthy(error) && !Truthy(result) ==> "error" !in m && "result" !in m
  {
    var base := map["protocol" := Str(PROTOCOL), "seq" := s];
    if Truthy(error) then base["error" := error]
    else if Truthy(result) then base["result" := result]
    else base
  }

  // ----- getSeq --------------------------------------------------------------

  /** `getSeq`: the next sequence number, which is also the new counter. */
  function GetSeq(st: State): (r: (State, int))
    requires Valid(st)
    ensures Valid(r.0) && r.0.counter == r.1
    ensures 1 <= r.1 <= MAX_SEQ
    ensures st.counter < MAX_SEQ ==> r.1 == st.counter + 1
    ensures st.counter == MAX_SEQ ==> r.1 == 1
    ensures r.0.waiting == st.waiting && r.0.handlers == st.handlers
  {
    var s := SeqCounter.Next(st.counter, MAX_SEQ);
    (st.(counter := s), s)
  }

  /** Within any `MAX_SEQ` consecutive requests no sequence number repeats. */
  lemma SeqWindow(st: State, i: nat, j: nat)
    requires Valid(st)
    requires 1 <= i < j <= MAX_SEQ
    ensures SeqCounter.Advance(st.counter, MAX_SEQ, i) != SeqCounter.Advance(st.counter, MAX_SEQ, j)
  {
    SeqCounter.WindowDistinct(st.counter, MAX_SEQ, i, j);
  }

  // ----- request / serve -----------------------------------------------------

  /** The fourth argument of `request`: a callback, an options object with
      its `timeout` (0 standing for a missing or falsy one), or nothing. */
  datatype OptsArg = OptsFn(cb: CallbackId) | OptsObj(timeout: int) | OptsNone
  /** The fifth argument of `request`. */
  datatype CallbackArg = CallbackFn(cb: CallbackId) | CallbackNone

  /** The callback `request` keeps: the fourth argument when it is a
      function, else the fifth when that is one. */
  function CallbackOf(opts: OptsArg, callback: CallbackArg): (r: Option<CallbackId>)
    ensures opts.OptsFn? ==> r == Some(opts.cb)
    ensures !opts.OptsFn? && callback.CallbackFn? ==> r == Some(callback.cb)
    ensures !opts.OptsFn? && callback.CallbackNone? ==> r == None
  {
    if opts.OptsFn? then Some(opts.cb)
    else if callback.CallbackFn? then Some(callback.cb)
    else None
  }

  /** `(opts && opts.timeout) ? opts.timeout : 4000`. */
  function TimeoutOf(opts: OptsArg): (t: int)
    ensures opts.OptsObj? && opts.timeout != 0 ==> t == opts.timeout
    ensures !(opts.OptsObj? && opts.timeout != 0) ==> t == DEFAULT_TIMEOUT
  {
    if opts.OptsObj? && opts.timeout != 0 then opts.timeout else DEFAULT_TIMEOUT
  }

  /** `request(peer, method, params, opts, callback)` at time `now`. */
  function Request(st: State, now: int, peer: PeerId, methodName: Value, params: Value,
                   opts: OptsArg, callback: CallbackArg): (r: (State, seq<Effect>))
    requires Valid(st)
    ensures Valid(r.0)
    ensures r.0.counter == SeqCounter.Next(st.counter, MAX_SEQ)
    ensures r.1 == [Send(peer, RequestMsg(methodName, params, r.0.counter))]
    ensures r.0.handlers == st.handlers
    ensures CallbackOf(opts, callback).None? ==> r.0.waiting == st.waiting
    ensures CallbackOf(opts, callback).Some? ==>
      r.0.waiting.vals == st.waiting.vals[r.0.counter :=
        PendingReq(now, CallbackOf(opts, callback).value, TimeoutOf(opts))]
  {
    var (st1, s) := GetSeq(st);
    var msg := RequestMsg(methodName, params, s);
    var cb := CallbackOf(opts, callback);
    var st2 :=
      if cb.Some? then st1.(waiting := JsMap.Set(st1.waiting, s, PendingReq(now, cb.value, TimeoutOf(opts))))
      else st1;
    (st2, [Send(peer, msg)])
  }

  /** `serve(method, handler)`: the newest registration wins. */
  function Serve(st: State, methodName: string, handler: HandlerId): (r: State)
    ensures methodName in r.handlers && r.handlers[methodName] == handler
    ensures forall m | m in st.handlers && m != methodName :: m in r.handlers && r.handlers[m] == st.handlers[m]
    ensures r.handlers.Keys == st.handlers.Keys + {methodName}
    ensures r.counter == st.counter && r.waiting == st.waiting
  {
    st.(handlers := st.handlers[methodName := handler])
  }

  // ----- timeout sweep -------------------------------------------------------

  /** Past its deadline: `Date.now() > timestamp + timeout`. */
  predicate Expired(p: PendingReq, now: int)
  {
    now > p.timestamp + p.timeout
  }

  /** The table's keys split, in order, into the live and the expired ones. */
  function Partition(keys: seq<int>, vals: map<int, PendingReq>, now: int): (r: (seq<int>, seq<int>))
    requires forall k | k in keys :: k in vals
    ensures forall k | k in r.0 :: k in keys && !Expired(vals[k], now)
    ensures forall k | k in keys && !Expired(vals[k], now) :: k in r.0
    ensures forall k | k in r.1 :: k in keys && Expired(vals[k], now)
    ensures forall k | k in keys && Expired(vals[k], now) :: k in r.1
    ensures NoDup(keys) ==> NoDup(r.0) && NoDup(r.1)
  {
    if |keys| == 0 then ([], [])
    else
      var k := keys[0];
      assert k in keys;
      var rest := Partition(keys[1..], vals, now);
      assert NoDup(keys) ==> k !in keys[1..];
      if Expired(vals[k], now) then (rest.0, [k] + rest.1)
      else ([k] + rest.0, rest.1)
  }

  /** The timeout calls for the given expired keys, in order. */
  function TimeoutCalls(keys: seq<int>, vals: map<int, PendingReq>): (r: seq<Effect>)
    requires forall i :: 0 <= i < |keys| ==> keys[i] in vals
    ensures |r| == |keys|
    ensures forall i :: 0 <= i < |r| ==>
      r[i] == Invoke(vals[keys[i]].callback, Str(TIMEOUT_ERROR), Undefined)
  {
    if |keys| == 0 then []
    else
      var k := keys[0];
      [Invoke(vals[k].callback, Str(TIMEOUT_ERROR), Undefined)] + TimeoutCalls(keys[1..], vals)
  }

  /** `checkReqTimeout` at time `now`: every expired request is dropped and
      its callback called once with `'request timeout'`, in table order;
      the rest of the table is kept as it was. */
  function CheckReqTimeout(st: State, now: int): (r: (State, seq<Effect>))
    requires Valid(st)
    ensures Valid(r.0)
    ensures forall s | s in r.0.waiting.vals ::
      s in st.waiting.vals && !Expired(st.waiting.vals[s], now) && r.0.waiting.vals[s] == st.waiting.vals[s]
    ensures forall s | s in st.waiting.vals && !Expired(st.waiting.vals[s], now) :: s in r.0.waiting.vals
    ensures forall e | e in r.1 :: e.Invoke? && e.error == Str(TIMEOUT_ERROR) && e.result == Undefined
    ensures forall s | s in st.waiting.vals && Expired(st.waiting.vals[s], now) ::
      Invoke(st.waiting.vals[s].callback, Str(TIMEOUT_ERROR), Undefined) in r.1
    ensures |r.1| == |st.waiting.keys| - |r.0.waiting.keys|
    ensures r.0.counter == st.counter && r.0.handlers == st.handlers
  {
    var vals := st.waiting.vals;
    var (live, expired) := Partition(st.waiting.keys, vals, now);
    var kept := map s | s in vals && !Expired(vals[s], now) :: vals[s];
    var calls := TimeoutCalls(expired, vals);
    assert forall s | s in vals && Expired(vals[s], now) ::
      Invoke(vals[s].callback, Str(TIMEOUT_ERROR), Undefined) in calls by {
      forall s | s in vals && Expired(vals[s], now)
        ensures Invoke(vals[s].callback, Str(TIMEOUT_ERROR), Undefined) in calls
      {
        var i :| 0 <= i < |expired| && expired[i] == s;
        assert calls[i] == Invoke(vals[s].callback, Str(TIMEOUT_ERROR), Undefined);
      }
    }
    PartitionSizes(st.waiting.keys, vals, now);
    (st.(waiting := JsMap.JsMap(live, kept)), calls)
  }

  lemma {:induction false} PartitionSizes(keys: seq<int>, vals: map<int, PendingReq>, now: int)
    requires forall k | k in keys :: k in vals
    ensures |Partition(keys, vals, now).0| + |Partition(keys, vals, now).1| == |keys|
  {
    if |keys| > 0 {
      PartitionSizes(keys[1..], vals, now);
    }
  }

  // ----- inbound messages ----------------------------------------------------

  /** What a registered handler does when run synchronously: the
      `(err, result)` pairs it passes to its completion callback, in order,
      and whether it then throws. A completion the handler makes after
      `processRequest` has returned is not part of this run: it arrives as
      its own event, answered by `LateDone`. */
  datatype HandlerRun = HandlerRun(replies: seq<(Value, Value)>, threw: bool)

  /** The `done` reply for one completion `(err, result)` of a handler. */
  function Reply(err: Value, result: Value, s: Value): Msg
  {
    if Truthy(err) then ResponseMsg(BuildError(ServerError, err), result, s)
    else ResponseMsg(Null, result, s)
  }

  function ReplySends(replies: seq<(Value, Value)>, peer: PeerId, s: Value): (r: seq<Effect>)
    ensures |r| == |replies|
    ensures forall i :: 0 <= i < |r| ==> r[i] == Send(peer, Reply(replies[i].0, replies[i].1, s))
  {
    if |replies| == 0 then []
    else [Send(peer, Reply(replies[0].0, replies[0].1, s))] + ReplySends(replies[1..], peer, s)
  }

  /** The `done(err, result)` closure of a request from `peer` with seq
      `s`, called by its handler after `processRequest` has returned: the
      reply it sends is the one the same completion sends when made
      synchronously, with the error wrapped as a server error. */
  function LateDone(peer: PeerId, s: Value, err: Value, result: Value): (r: seq<Effect>)
    ensures r == ReplySends([(err, result)], peer, s)
    ensures |r| == 1 && r[0].Send? && r[0].peer == peer
    ensures Field(r[0].msg, "protocol") == Str(PROTOCOL) && Field(r[0].msg, "seq") == s
    ensures Truthy(err) ==>
      ErrorCode(r[0].msg) == Some(Code(ServerError)) && Prop(Field(r[0].msg, "error"), "data") == err
    ensures !Truthy(err) ==>
      "error" !in r[0].msg && Field(r[0].msg, "result") == (if Truthy(result) then result else Undefined)
  {
    [Send(peer, Reply(err, result, s))]
  }

  /** `processRequest(msg, peer)`, the handler found under `msg.method`
      behaving as `behaviour` says for the given params and peer. Every
      reply goes back to the requesting peer under the request's seq. */
  function ProcessRequest(handlers: map<string, HandlerId>, msg: Msg, peer: PeerId,
                          behaviour: (HandlerId, Value, PeerId) -> HandlerRun): (r: seq<Effect>)
    ensures forall i :: 0 <= i < |r| ==>
      && r[i].Send? && r[i].peer == peer
      && Field(r[i].msg, "protocol") == Str(PROTOCOL)
      && Field(r[i].msg, "seq") == Field(msg, "seq")
    ensures var m := Field(msg, "method");
      !(m.Str? && m.s in handlers) ==> |r| == 1 && ErrorCode(r[0].msg) == Some(Code(MethodNotFound))
    ensures var m := Field(msg, "method");
      m.Str? && m.s in handlers ==>
        var run := behaviour(handlers[m.s], Field(msg, "params"), peer);
        && |r| == |run.replies| + (if run.threw then 1 else 0)
        && (forall i :: 0 <= i < |run.replies| && Truthy(run.replies[i].0) ==>
              && ErrorCode(r[i].msg) == Some(Code(ServerError))
              && Prop(Field(r[i].msg, "error"), "data") == run.replies[i].0)
        && (forall i :: 0 <= i < |run.replies| && !Truthy(run.replies[i].0) ==>
              && "error" !in r[i].msg
              && Field(r[i].msg, "result") == (if Truthy(run.replies[i].1) then run.replies[i].1 else Undefined))
        && (run.threw ==> ErrorCode(r[|r| - 1].msg) == Some(Code(InternalError)))
  {
    var m := Field(msg, "method");
    var s := Field(msg, "seq");
    if !(m.Str? && m.s in handlers) then
      [Send(peer, ResponseMsg(BuildError(MethodNotFound, Undefined), Undefined, s))]
    else
      var run := behaviour(handlers[m.s], Field(msg, "params"), peer);
      var sends := ReplySends(run.replies, peer, s);
      if run.threw then sends + [Send(peer, ResponseMsg(BuildError(InternalError, Undefined), Undefined, s))]
      else sends
  }

  /** `processResponse(msg)`: a response with a truthy seq that names a
      pending request removes it and calls its callback with the
      response's error and result; any other response changes nothing. */
  function ProcessResponse(st: State, msg: Msg): (r: (State, seq<Effect>))
    requires Valid(st)
    ensures Valid(r.0)
    ensures var s := Field(msg, "seq");
      !(s.Num? && s.n != 0 && s.n in st.waiting.vals) ==> r == (st, [])
    ensures var s := Field(msg, "seq");
      s.Num? && s.n != 0 && s.n in st.waiting.vals ==>
        && r.0 == st.(waiting := JsMap.Delete(st.waiting, s.n))
        && r.1 == [Invoke(st.waiting.vals[s.n].callback, Field(msg, "error"), Field(msg, "result"))]
  {
    var s := Field(msg, "seq");
    // a falsy seq is ignored; a truthy non-number never equals a table key
    if !Truthy(s) || !s.Num? || s.n !in st.waiting.vals then (st, [])
    else
      var req := st.waiting.vals[s.n];
      (st.(waiting := JsMap.Delete(st.waiting, s.n)), [Invoke(req.callback, Field(msg, "error"), Field(msg, "result"))])
  }

  /** `receiveMessage(msg, peer)`: only RPC-tagged messages are handled; a
      truthy `method` makes it a request, anything else a response. */
  function ReceiveMessage(st: State, msg: Msg, peer: PeerId,
                          behaviour: (HandlerId, Value, PeerId) -> HandlerRun): (r: (State, seq<Effect>))
    requires Valid(st)
    ensures Valid(r.0)
    ensures Field(msg, "protocol") != Str(PROTOCOL) ==> r == (st, [])
    ensures Field(msg, "protocol") == Str(PROTOCOL) && Truthy(Field(msg, "method")) ==>
      r == (st, ProcessRequest(st.handlers, msg, peer, behaviour))
    ensures Field(msg, "protocol") == Str(PROTOCOL) && !Truthy(Field(msg, "method")) ==>
      r == ProcessResponse(st, msg)
  {
    if Field(msg, "protocol") != Str(PROTOCOL) then (st, [])
    else if Truthy(Field(msg, "method")) then (st, ProcessRequest(st.handlers, msg, peer, behaviour))
    else ProcessResponse(st, msg)
  }

  // ----- end-to-end correlation ----------------------------------------------

  /** The server side of a round trip: a request for a served method is
      answered first with the handler's first completion, under the
      request's seq, to the requesting peer. */
  lemma ServerAnswers(server: State, req: Msg, clientId: PeerId, methodName: string,
                      behaviour: (HandlerId, Value, PeerId) -> HandlerRun)
    requires Valid(server)
    requires Field(req, "protocol") == Str(PROTOCOL) && Field(req, "method") == Str(methodName)
    requires methodName != "" && methodName in server.handlers
    requires |behaviour(server.handlers[methodName], Field(req, "params"), clientId).replies| > 0
    ensures
      var reply := behaviour(server.handlers[methodName], Field(req, "params"), clientId).replies[0];
      var answered := ReceiveMessage(server, req, clientId, behaviour).1;
      |answered| > 0 && answered[0] == Send(clientId, Reply(reply.0, reply.1, Field(req, "seq")))
  {

  }

  /** The client side of a round trip: a reply under a pending seq calls
      that entry's callback with the reply's error and result, and the
      entry is gone. */
  lemma ClientTakesReply(client: State, s: int, err: Value, result: Value, serverId: PeerId,
                         behaviour: (HandlerId, Value, PeerId) -> HandlerRun)
    requires Valid(client) && s != 0 && s in client.waiting.vals
    ensures
      var (client1, fired) := ReceiveMessage(client, Reply(err, result, Num(s)), serverId, behaviour);
      && fired == [Invoke(client.waiting.vals[s].callback,
                          if Truthy(err) then BuildError(ServerError, err) else Undefined,
                          if !Truthy(err) && Truthy(result) then result else Undefined)]
      && client1.waiting.vals == client.waiting.vals - {s}
  {

  }

  /** A request answered by the remote handler's first completion: the
      reply travels back under the request's seq, and the requester's
      callback receives the server error built from `err`, or else the
      truthy result; the pending entry is gone afterwards. */
  lemma RequestReplyRoundTrip(client: State, server: State, now: int, clientId: PeerId, serverId: PeerId,
                              methodName: string, params: Value, cb: CallbackId,
                              behaviour: (HandlerId, Value, PeerId) -> HandlerRun)
    requires Valid(client) && Valid(server)
    requires methodName != "" && methodName in server.handlers
    requires |behaviour(server.handlers[methodName], params, clientId).replies| > 0
    ensures
      var (client1, sent) := Request(client, now, serverId, Str(methodName), params, OptsFn(cb), CallbackNone);
      var s := client1.counter;
      var (_, answered) := ReceiveMessage(server, sent[0].msg, clientId, behaviour);
      var reply := behaviour(server.handlers[methodName], params, clientId).replies[0];
      var (client2, fired) := ReceiveMessage(client1, answered[0].msg, serverId, behaviour);
      && answered[0].peer == clientId
      && fired == [Invoke(cb,
                          if Truthy(reply.0) then BuildError(ServerError, reply.0) else Undefined,
                          if !Truthy(reply.0) && Truthy(reply.1) then reply.1 else Undefined)]
      && client2.waiting.vals == client.waiting.vals - {s}
  {
    var (client1, sent) := Request(client, now, serverId, Str(methodName), params, OptsFn(cb), CallbackNone);
    var s := client1.counter;
    var req := sent[0].msg;
    ServerAnswers(server, req, clientId, methodName, behaviour);
    var reply := behaviour(server.handlers[methodName], params, clientId).replies[0];
    ClientTakesReply(client1, s, reply.0, reply.1, serverId, behaviour);
  }

  /** The timeout scenario: once the sweep has expired a request, its late
      response finds nothing pending and is dropped without a call. */
  lemma LateResponseDropped(st: State, now: int, msg: Msg, peer: PeerId,
                            behaviour: (HandlerId, Value, PeerId) -> HandlerRun)
    requires Valid(st)
    requires Field(msg, "protocol") == Str(PROTOCOL) && !Truthy(Field(msg, "method"))
    requires Field(msg, "seq").Num? && Field(msg, "seq").n in st.waiting.vals
    requires Expired(st.waiting.vals[Field(msg, "seq").n], now)
    ensures
      var (swept, _) := CheckReqTimeout(st, now);
      ReceiveMessage(swept, msg, peer, behaviour) == (swept, [])
  {
  }

  // ----- each callback fires at most once ------------------------------------

  function Hit(p: PendingReq, cb: CallbackId): nat
  {
    if p.callback == cb then 1 else 0
  }

  /** How many listed table entries hold callback `cb`. */
  function CountCb(keys: seq<int>, vals: map<int, PendingReq>, cb: CallbackId): nat
    requires forall k | k in keys :: k in vals
  {
    if |keys| == 0 then 0
    else
      var k := keys[0];
      assert k in keys;
      Hit(vals[k], cb) + CountCb(keys[1..], vals, cb)
  }

  function PendingCount(st: State, cb: CallbackId): nat
    requires Valid(st)
  {
    CountCb(st.waiting.keys, st.waiting.vals, cb)
  }

  /** How many times the effects call `cb`. */
  function Fired(effects: seq<Effect>, cb: CallbackId): nat
  {
    if |effects| == 0 then 0
    else (if effects[0].Invoke? && effects[0].callback == cb then 1 else 0) + Fired(effects[1..], cb)
  }

  lemma {:induction false} FiredAppend(a: seq<Effect>, b: seq<Effect>, cb: CallbackId)
    ensures Fired(a + b, cb) == Fired(a, cb) + Fired(b, cb)
  {
    if |a| == 0 {
      assert a + b == b;
    } else {
      assert (a + b)[1..] == a[1..] + b;
      FiredAppend(a[1..], b, cb);
    }
  }

  lemma {:induction false} CountCbSameVals(keys: seq<int>, v1: map<int, PendingReq>, v2: map<int, PendingReq>, cb: CallbackId)
    requires forall k | k in keys :: k in v1 && k in v2 && v1[k] == v2[k]
    ensures CountCb(keys, v1, cb) == CountCb(keys, v2, cb)
  {
    if |keys| > 0 {
      var k := keys[0];
      assert k in keys;
      assert v1[k] == v2[k];
      CountCbSameVals(keys[1..], v1, v2, cb);
    }
  }

  lemma {:induction false} CountCbAppend(keys: seq<int>, k: int, vals: map<int, PendingReq>, cb: CallbackId)
    requires forall x | x in keys :: x in vals
    requires k in vals
    ensures CountCb(keys + [k], vals, cb) == CountCb(keys, vals, cb) + Hit(vals[k], cb)
  {
    if |keys| == 0 {
      assert keys + [k] == [k];
    } else {
      assert (keys + [k])[1..] == keys[1..] + [k];
      CountCbAppend(keys[1..], k, vals, cb);
    }
  }

  /** Overwriting the entry of a listed key changes the count only there. */
  lemma {:induction false} CountCbUpdate(keys: seq<int>, vals: map<int, PendingReq>, k: int, p: PendingReq, cb: CallbackId)
    requires forall x | x in keys :: x in vals
    requires NoDup(keys) && k in vals
    ensures CountCb(keys, vals[k := p], cb) + (if k in keys then Hit(vals[k], cb) else 0)
            == CountCb(keys, vals, cb) + (if k in keys then Hit(p, cb) else 0)
  {
    if |keys| > 0 {
      assert NoDup(keys[1..]);
      CountCbUpdate(keys[1..], vals, k, p, cb);
      if keys[0] == k {
        assert k !in keys[1..];
      }
    }
  }

  /** Dropping a listed key removes exactly its entry from the count. */
  lemma {:induction false} CountCbWithout(keys: seq<int>, vals: map<int, PendingReq>, k: int, cb: CallbackId)
    requires forall x | x in keys :: x in vals
    requires NoDup(keys) && k in vals
    ensures CountCb(JsMap.Without(keys, k), vals, cb) + (if k in keys then Hit(vals[k], cb) else 0)
            == CountCb(keys, vals, cb)
  {
    if |keys| > 0 {
      assert NoDup(keys[1..]);
      CountCbWithout(keys[1..], vals, k, cb);
      if keys[0] == k {
        assert k !in keys[1..];
        assert JsMap.Without(keys[1..], k) == keys[1..] by {
          WithoutAbsent(keys[1..], k);
        }
      }
    }
  }

  lemma {:induction false} WithoutAbsent(keys: seq<int>, k: int)
    requires k !in keys
    ensures JsMap.Without(keys, k) == keys
  {
    if |keys| > 0 {
      WithoutAbsent(keys[1..], k);
      assert keys == [keys[0]] + keys[1..];
    }
  }

  /** The sweep splits the count between the kept entries and the calls. */
  lemma {:induction false} CountCbPartition(keys: seq<int>, vals: map<int, PendingReq>, now: int, cb: CallbackId)
    requires forall x | x in keys :: x in vals
    ensures
      var (live, expired) := Partition(keys, vals, now);
      CountCb(keys, vals, cb) == CountCb(live, vals, cb) + Fired(TimeoutCalls(expired, vals), cb)
  {
    if |keys| > 0 {
      var k := keys[0];
      assert k in keys;
      CountCbPartition(keys[1..], vals, now, cb);
      var (live, expired) := Partition(keys[1..], vals, now);
      if Expired(vals[k], now) {
        var calls := TimeoutCalls([keys[0]] + expired, vals);
        assert ([keys[0]] + expired)[1..] == expired;
        assert calls[1..] == TimeoutCalls(expired, vals);
      } else {
        assert ([keys[0]] + live)[1..] == live;
      }
    }
  }

  lemma {:induction false} SweepConserves(st: State, now: int, cb: CallbackId)
    requires Valid(st)
    ensures
      var (st1, effects) := CheckReqTimeout(st, now);
      Fired(effects, cb) + PendingCount(st1, cb) == PendingCount(st, cb)
  {
    var vals := st.waiting.vals;
    var (live, expired) := Partition(st.waiting.keys, vals, now);
    var kept := map s | s in vals && !Expired(vals[s], now) :: vals[s];
    CountCbPartition(st.waiting.keys, vals, now, cb);
    CountCbSameVals(live, vals, kept, cb);
  }

  lemma RequestConserves(st: State, now: int, peer: PeerId, methodName: Value, params: Value,
                         opts: OptsArg, callback: CallbackArg, cb: CallbackId)
    requires Valid(st)
    ensures
      var (st1, effects) := Request(st, now, peer, methodName, params, opts, callback);
      var added := CallbackOf(opts, callback);
      Fired(effects, cb) + PendingCount(st1, cb) <= PendingCount(st, cb) + (if added == Some(cb) then 1 else 0)
  {
    var (st1, effects) := Request(st, now, peer, methodName, params, opts, callback);
    var added := CallbackOf(opts, callback);
    assert Fired(effects, cb) == 0 by {
      assert effects[1..] == [];
    }
    if added.Some? {
      var s := st1.counter;
      var p := PendingReq(now, added.value, TimeoutOf(opts));
      var w := st.waiting;
      if s in w.vals {
        CountCbUpdate(w.keys, w.vals, s, p, cb);
      } else {
        CountCbAppend(w.keys, s, w.vals[s := p], cb);
        CountCbSameVals(w.keys, w.vals, w.vals[s := p], cb);
      }
    }
  }

  lemma {:induction false} SendsFireNothing(effects: seq<Effect>, cb: CallbackId)
    requires forall e | e in effects :: e.Send?
    ensures Fired(effects, cb) == 0
  {
    if |effects| > 0 {
      assert effects[0] in effects;
      SendsFireNothing(effects[1..], cb);
    }
  }

  lemma ReceiveConserves(st: State, msg: Msg, peer: PeerId,
                         behaviour: (HandlerId, Value, PeerId) -> HandlerRun, cb: CallbackId)
    requires Valid(st)
    ensures
      var (st1, effects) := ReceiveMessage(st, msg, peer, behaviour);
      Fired(effects, cb) + PendingCount(st1, cb) == PendingCount(st, cb)
  {
    var (st1, effects) := ReceiveMessage(st, msg, peer, behaviour);
    if Field(msg, "protocol") == Str(PROTOCOL) {
      if Truthy(Field(msg, "method")) {
        SendsFireNothing(effects, cb);
      } else {
        var s := Field(msg, "seq");
        if s.Num? && s.n != 0 && s.n in st.waiting.vals {
          var w := st.waiting;
          CountCbWithout(w.keys, w.vals, s.n, cb);
          CountCbSameVals(JsMap.Without(w.keys, s.n), w.vals, w.vals - {s.n}, cb);
          assert effects[1..] == [];
        }
      }
    }
  }

  /** The inputs the engine reacts to. */
  datatype Event =
    | RequestCall(now: int, peer: PeerId, methodName: Value, params: Value, opts: OptsArg, callback: CallbackArg)
    | ServeCall(name: string, handler: HandlerId)
    | TimeoutTick(now: int)
    | Inbound(msg: Msg, from: PeerId)
    | HandlerDone(peer: PeerId, reqSeq: Value, err: Value, result: Value)

  function Step(st: State, ev: Event, behaviour: (HandlerId, Value, PeerId) -> HandlerRun): (r: (State, seq<Effect>))
    requires Valid(st)
    ensures Valid(r.0)
  {
    match ev
    case RequestCall(now, peer, methodName, params, opts, callback) => Request(st, now, peer, methodName, params, opts, callback)
    case ServeCall(name, handler) => (Serve(st, name, handler), [])
    case TimeoutTick(now) => CheckReqTimeout(st, now)
    case Inbound(msg, from) => ReceiveMessage(st, msg, from, behaviour)
    case HandlerDone(peer, s, err, result) => (st, LateDone(peer, s, err, result))
  }

  function Run(st: State, evs: seq<Event>, behaviour: (HandlerId, Value, PeerId) -> HandlerRun): (r: (State, seq<Effect>))
    requires Valid(st)
    ensures Valid(r.0)
    decreases |evs|
  {
    if |evs| == 0 then (st, [])
    else
      var (st1, out1) := Step(st, evs[0], behaviour);
      var (st2, out2) := Run(st1, evs[1..], behaviour);
      (st2, out1 + out2)
  }

  /** How many of the events register callback `cb` with a request. */
  function Registered(evs: seq<Event>, cb: CallbackId): nat
  {
    if |evs| == 0 then 0
    else
      (if evs[0].RequestCall? && CallbackOf(evs[0].opts, evs[0].callback) == Some(cb) then 1 else 0)
      + Registered(evs[1..], cb)
  }

  /** Over any run, the calls of a callback plus its entries still pending
      never exceed its pending entries at the start plus its registrations:
      a timeout and a response can never both fire the same entry. */
  lemma {:induction false} RunConserves(st: State, evs: seq<Event>,
                                        behaviour: (HandlerId, Value, PeerId) -> HandlerRun, cb: CallbackId)
    requires Valid(st)
    decreases |evs|
    ensures
      var (st1, effects) := Run(st, evs, behaviour);
      Fired(effects, cb) + PendingCount(st1, cb) <= PendingCount(st, cb) + Registered(evs, cb)
  {
    if |evs| > 0 {
      var (st1, out1) := Step(st, evs[0], behaviour);
      var (st2, out2) := Run(st1, evs[1..], behaviour);
      match evs[0] {
        case RequestCall(now, peer, methodName, params, opts, callback) =>
          RequestConserves(st, now, peer, methodName, params, opts, callback, cb);
        case ServeCall(name, handler) =>
        case TimeoutTick(now) =>
          SweepConserves(st, now, cb);
        case Inbound(msg, from) =>
          ReceiveConserves(st, msg, from, behaviour, cb);
        case HandlerDone(peer, s, err, result) =>
          SendsFireNothing(out1, cb);
      }
      RunConserves(st1, evs[1..], behaviour, cb);
      FiredAppend(out1, out2, cb);
    }
  }

  /** Exactly-once delivery, upper half: a callback handed to one request
      and not pending before is called at most once, whatever mix of
      sweeps, responses, further requests and registrations follows. */
  lemma {:induction false} CallbackFiresAtMostOnce(st: State, evs: seq<Event>,
                                behaviour: (HandlerId, Value, PeerId) -> HandlerRun, cb: CallbackId)
    requires Valid(st)
    requires PendingCount(st, cb) == 0
    requires Registered(evs, cb) <= 1
    ensures Fired(Run(st, evs, behaviour).1, cb) <= 1
  {
    RunConserves(st, evs, behaviour, cb);
  }
}
