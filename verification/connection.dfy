/** One peer connection as a flag state machine. Each event (a call from
    the owner, a decoded inbound message, a socket or timer callback) moves
    the flags and yields the outputs it causes, in order: writes to the
    peer, events emitted to the owner, and the socket being destroyed. */
module Connection {
  import opened Base

  const IDENTIFY_PROTOCOL: string := "/identify/0.0.0"
  const HEARTBEAT_PROTOCOL: string := "/_hb_"
  const IDENTIFY_TIMEOUT_REASON: string := "identify timeout"
  const SOCKET_END_REASON: string := "socket end"
  const SOCKET_CLOSED_REASON: string := "socket closed"
  const DRAIN_ERROR_PREFIX: string := "pull drain error: "

  /** `heartbeatTimer`: never set, set and running, or cleared. Clearing
      does not reset the field, so a cleared timer still counts as set. */
  datatype Heartbeat = NoTimer | Running | Cleared

  datatype State = State(
    ownId: string,          // `this.node.id`
    started: bool,
    destroyed: bool,
    closed: bool,           // absent (so falsy) until the first close
    isIdentified: bool,
    remoteId: Value,        // `null` until an identify message arrives
    heartbeat: Heartbeat,
    identifyArmed: bool)    // the identify timeout is scheduled and has not fired

  datatype Event =
    | Start
    | SendMsg(msg: Msg)
    | Destroy
    | Inbound(msg: Msg)               // one decoded message from the stream
    | SocketEnd
    | SocketClose
    | SocketError(error: Value)
    | DrainEnd(failure: Option<string>) // the stream ended, with the text of a truthy error if any
    | IdentifyTimeout                 // the 4-second identify timer fires
    | HeartbeatTick                   // the heartbeat interval fires

  datatype Output =
    | Write(msg: Msg)                 // pushed to the peer
    | EmitIdentified
    | EmitMessage(msg: Msg)
    | EmitClose(reason: string)
    | EmitError(error: Value)
    | SocketDestroyed
    | ThrewNoWriter                   // `send` before `start`: the writer is still `null`

  function Init(ownId: string): (st: State)
    ensures Inv(st)
    ensures !st.started && !st.destroyed && !st.closed && !st.isIdentified
    ensures st.remoteId == Null && st.heartbeat == NoTimer && !st.identifyArmed
  {
    State(ownId, false, false, false, false, Null, NoTimer, false)
  }

  /** What every reachable state satisfies: a heartbeat exists only once
      the peer is identified, and nothing happens before `start`. */
  predicate Inv(st: State)
  {
    && (st.heartbeat != NoTimer ==> st.isIdentified)
    && (st.isIdentified ==> st.started)
    && (st.closed ==> st.started)
    && (st.identifyArmed ==> st.started)
  }

  function IdentifyMsg(id: string): (m: Msg)
    ensures Field(m, "protocol") == Str(IDENTIFY_PROTOCOL) && Field(m, "id") == Str(id)
    ensures m.Keys == {"protocol", "id"}
  {
    map["protocol" := Str(IDENTIFY_PROTOCOL), "id" := Str(id)]
  }

  function HeartbeatMsg(): (m: Msg)
    ensures Field(m, "protocol") == Str(HEARTBEAT_PROTOCOL) && m.Keys == {"protocol"}
  {
    map["protocol" := Str(HEARTBEAT_PROTOCOL)]
  }

  // ----- heartbeat -------------------------------------------------------------

  /** `startHeartbeat`: only a timer that was never set is started. */
  function StartHeartbeat(h: Heartbeat): (r: Heartbeat)
    ensures h == NoTimer ==> r == Running
    ensures h != NoTimer ==> r == h
  {
    if h == NoTimer then Running else h
  }

  /** `stopHeartbeat`: a running timer is cleared. */
  function StopHeartbeat(h: Heartbeat): (r: Heartbeat)
    ensures r != Running
    ensures h == Running ==> r == Cleared
    ensures h != Running ==> r == h
  {
    if h == Running then Cleared else h
  }

  /** The timer only moves forward: never set, running, cleared. */
  function Rank(h: Heartbeat): nat
  {
    match h
    case NoTimer => 0
    case Running => 1
    case Cleared => 2
  }

  // ----- operations ------------------------------------------------------------

  /** `start()`: the first call arms the identify timeout and sends the
      identify message; later calls do nothing. */
  function DoStart(st: State): (r: (State, seq<Output>))
    ensures st.started ==> r == (st, [])
    ensures !st.started ==>
      && r.0 == st.(started := true, identifyArmed := true)
      && r.1 == [Write(IdentifyMsg(st.ownId))]
  {
    if st.started then (st, [])
    else (st.(started := true, identifyArmed := true), [Write(IdentifyMsg(st.ownId))])
  }

  /** `send(msg)`: pushed once started; before that the call throws. */
  function DoSend(st: State, msg: Msg): (r: seq<Output>)
    ensures st.started ==> r == [Write(msg)]
    ensures !st.started ==> r == [ThrewNoWriter]
  {
    if st.started then [Write(msg)] else [ThrewNoWriter]
  }

  /** `destroy()`: the first call stops the heartbeat and destroys the
      socket; it neither closes the connection nor emits `'close'`. */
  function DoDestroy(st: State): (r: (State, seq<Output>))
    ensures st.destroyed ==> r == (st, [])
    ensures !st.destroyed ==>
      && r.0 == st.(destroyed := true, heartbeat := StopHeartbeat(st.heartbeat))
      && r.1 == [SocketDestroyed]
    ensures r.0.destroyed && r.0.closed == st.closed
    ensures !r.0.heartbeat.Running? || st.destroyed
  {
    if st.destroyed then (st, [])
    else (st.(destroyed := true, heartbeat := StopHeartbeat(st.heartbeat)), [SocketDestroyed])
  }

  /** `emitClose(reason)`: only the first close is emitted, and it stops
      the heartbeat. */
  function Close(st: State, reason: string): (r: (State, seq<Output>))
    ensures st.closed ==> r == (st, [])
    ensures !st.closed ==>
      && r.0 == st.(closed := true, heartbeat := StopHeartbeat(st.heartbeat))
      && r.1 == [EmitClose(reason)]
  {
    if st.closed then (st, [])
    else (st.(closed := true, heartbeat := StopHeartbeat(st.heartbeat)), [EmitClose(reason)])
  }

  /** `processMessage`: an identify message records the remote id, marks
      the connection identified, emits `'identified'` and starts the
      heartbeat; every other message is emitted as `'message'` unchanged. */
  function ProcessMessage(st: State, msg: Msg): (r: (State, seq<Output>))
    ensures Field(msg, "protocol") == Str(IDENTIFY_PROTOCOL) ==>
      && r.0 == st.(remoteId := Field(msg, "id"), isIdentified := true,
                    heartbeat := StartHeartbeat(st.heartbeat))
      && r.1 == [EmitIdentified]
    ensures Field(msg, "protocol") != Str(IDENTIFY_PROTOCOL) ==> r == (st, [EmitMessage(msg)])
  {
    if Field(msg, "protocol") == Str(IDENTIFY_PROTOCOL) then
      (st.(remoteId := Field(msg, "id"), isIdentified := true, heartbeat := StartHeartbeat(st.heartbeat)),
       [EmitIdentified])
    else (st, [EmitMessage(msg)])
  }

  /** The identify timer's callback: it closes the connection only if no
      identify message has arrived by then. */
  function OnIdentifyTimeout(st: State): (r: (State, seq<Output>))
    ensures !st.identifyArmed ==> r == (st, [])
    ensures st.identifyArmed && st.isIdentified ==> r == (st.(identifyArmed := false), [])
    ensures st.identifyArmed && !st.isIdentified && !st.closed ==>
      r.0.closed && r.1 == [EmitClose(IDENTIFY_TIMEOUT_REASON)]
    ensures !r.0.identifyArmed
  {
    if !st.identifyArmed then (st, [])
    else
      var st1 := st.(identifyArmed := false);
      if st1.isIdentified then (st1, []) else Close(st1, IDENTIFY_TIMEOUT_REASON)
  }

  /** One event. Socket and stream callbacks exist only once `start` has
      attached them; the timers only once they are set. */
  function Step(st: State, ev: Event): (r: (State, seq<Output>))
    ensures r.0.ownId == st.ownId
    ensures st.closed ==> r.0.closed
    ensures st.started ==> r.0.started
    ensures st.destroyed ==> r.0.destroyed
    ensures Rank(st.heartbeat) <= Rank(r.0.heartbeat)
    ensures (exists k :: 0 <= k < |r.1| && r.1[k].EmitClose?) ==>
      !st.closed && r.0.closed && !r.0.heartbeat.Running? && |r.1| == 1
  {
    match ev
    case Start => DoStart(st)
    case SendMsg(msg) => (st, DoSend(st, msg))
    case Destroy => DoDestroy(st)
    case Inbound(msg) => if st.started then ProcessMessage(st, msg) else (st, [])
    case SocketEnd => if st.started then Close(st, SOCKET_END_REASON) else (st, [])
    case SocketClose => if st.started then Close(st, SOCKET_CLOSED_REASON) else (st, [])
    case SocketError(error) => (st, if st.started then [EmitError(error)] else [])
    case DrainEnd(failure) =>
      (st, if st.started && failure.Some? then [EmitError(Str(DRAIN_ERROR_PREFIX + failure.value))] else [])
    case IdentifyTimeout => OnIdentifyTimeout(st)
    case HeartbeatTick => (st, if st.heartbeat == Running then [Write(HeartbeatMsg())] else [])
  }

  lemma StepKeepsInv(st: State, ev: Event)
    requires Inv(st)
    ensures Inv(Step(st, ev).0)
  {

  }

  function Run(st: State, evs: seq<Event>): (r: (State, seq<Output>))
    decreases |evs|
  {
    if |evs| == 0 then (st, [])
    else
      var (st1, out1) := Step(st, evs[0]);
      var (st2, out2) := Run(st1, evs[1..]);
      (st2, out1 + out2)
  }

  lemma {:induction false} RunKeepsInv(st: State, evs: seq<Event>)
    requires Inv(st)
    ensures Inv(Run(st, evs).0)
    decreases |evs|
  {
    if |evs| > 0 {
      StepKeepsInv(st, evs[0]);
      RunKeepsInv(Step(st, evs[0]).0, evs[1..]);
    }
  }

  // ----- properties over runs -----------------------------------------------------

  function CloseCount(outs: seq<Output>): nat
  {
    if |outs| == 0 then 0 else (if outs[0].EmitClose? then 1 else 0) + CloseCount(outs[1..])
  }

  lemma {:induction false} CloseCountAppend(a: seq<Output>, b: seq<Output>)
    ensures CloseCount(a + b) == CloseCount(a) + CloseCount(b)
  {
    if |a| == 0 {
      assert a + b == b;
    } else {
      assert (a + b)[1..] == a[1..] + b;
      CloseCountAppend(a[1..], b);
    }
  }

  lemma StepCloseCount(st: State, ev: Event)
    ensures CloseCount(Step(st, ev).1) <= (if st.closed then 0 else 1)
    ensures CloseCount(Step(st, ev).1) == 1 ==> Step(st, ev).0.closed
  {

  }

  lemma RunCons(st: State, ev: Event, evs: seq<Event>)
    ensures Run(st, [ev] + evs)
            == (Run(Step(st, ev).0, evs).0, Step(st, ev).1 + Run(Step(st, ev).0, evs).1)
  {

  }

  /** `'close'` is emitted at most once over the whole life of a
      connection, whichever of socket end, socket close and the identify
      timeout comes first. */
  lemma {:induction false} CloseAtMostOnce(st: State, evs: seq<Event>)
    ensures CloseCount(Run(st, evs).1) <= (if st.closed then 0 else 1)
    decreases |evs|
  {
    if |evs| > 0 {
      var (st1, out1) := Step(st, evs[0]);
      StepCloseCount(st, evs[0]);
      CloseAtMostOnce(st1, evs[1..]);
      CloseCountAppend(out1, Run(st1, evs[1..]).1);
    }
  }

  /** How many events of the run start the heartbeat timer. */
  function HeartbeatStarts(st: State, evs: seq<Event>): nat
    decreases |evs|
  {
    if |evs| == 0 then 0
    else
      var st1 := Step(st, evs[0]).0;
      (if st.heartbeat == NoTimer && st1.heartbeat == Running then 1 else 0) + HeartbeatStarts(st1, evs[1..])
  }

  /** The heartbeat timer is started at most once, and never again once it
      has been set, even after it was cleared. */
  lemma {:induction false} HeartbeatStartedAtMostOnce(st: State, evs: seq<Event>)
    ensures HeartbeatStarts(st, evs) <= (if st.heartbeat == NoTimer then 1 else 0)
    decreases |evs|
  {
    if |evs| > 0 {
      var st1 := Step(st, evs[0]).0;
      HeartbeatStartedAtMostOnce(st1, evs[1..]);
    }
  }

  /** A second `start` does nothing at all. */
  lemma StartIdempotent(st: State)
    ensures var st1 := Step(st, Start).0;
      Step(st1, Start) == (st1, [])
  {

  }

  /** A second `destroy` does nothing at all. */
  lemma DestroyIdempotent(st: State)
    ensures var st1 := Step(st, Destroy).0;
      Step(st1, Destroy) == (st1, [])
  {

  }

  /** From a fresh connection, `start` writes the identify message with the
      node's own id before anything else. */
  lemma StartSendsIdentifyFirst(ownId: string, evs: seq<Event>)
    ensures var outs := Run(Init(ownId), [Start] + evs).1;
      |outs| >= 1 && outs[0] == Write(IdentifyMsg(ownId))
  {

  }

  /** The heartbeat runs from the identify message on and writes a
      heartbeat message on each tick, until the connection closes. */
  lemma IdentifyStartsHeartbeat(st: State, msg: Msg)
    requires st.started && st.heartbeat == NoTimer && !st.closed
    requires Field(msg, "protocol") == Str(IDENTIFY_PROTOCOL)
    ensures var st1 := Step(st, Inbound(msg)).0;
      && st1.isIdentified && st1.remoteId == Field(msg, "id")
      && Run(st1, [HeartbeatTick, SocketClose, HeartbeatTick]).1
           == [Write(HeartbeatMsg()), EmitClose(SOCKET_CLOSED_REASON)]
  {

  }

  /** An identify message that arrives after the identify timeout has
      closed the connection still starts the heartbeat, and no later
      socket event stops it: only `destroy` does. */
  lemma LateIdentifyKeepsHeartbeat(st: State, msg: Msg)
    requires st.started && st.identifyArmed && !st.isIdentified && !st.closed && !st.destroyed
    requires st.heartbeat == NoTimer
    requires Field(msg, "protocol") == Str(IDENTIFY_PROTOCOL)
    ensures var r := Run(st, [IdentifyTimeout, Inbound(msg), SocketEnd, SocketClose]);
      && r.0.closed && r.0.heartbeat == Running
      && r.1 == [EmitClose(IDENTIFY_TIMEOUT_REASON), EmitIdentified]
      && Step(r.0, Destroy).0.heartbeat == Cleared
  {
    var (s1, o1) := Step(st, IdentifyTimeout);
    assert s1.closed && s1.heartbeat == NoTimer && o1 == [EmitClose(IDENTIFY_TIMEOUT_REASON)];
    var (s2, o2) := Step(s1, Inbound(msg));
    assert s2.closed && s2.heartbeat == Running && o2 == [EmitIdentified];
    RunCons(s2, SocketClose, []);
    RunCons(s2, SocketEnd, [SocketClose]);
    RunCons(s1, Inbound(msg), [SocketEnd, SocketClose]);
    RunCons(st, IdentifyTimeout, [Inbound(msg), SocketEnd, SocketClose]);
  }
}
