/** The service bus as one system: clients, deferred SUB tasks, the two byte channels of every
    connection, and the broker (decnet/bus/unix_client.py, decnet/bus/unix_server.py).

    Clients connect at any time and their connections stay up. An event is named by its position
    in the broker's log of accepted events, so two events are the same exactly when their numbers
    are. */
module BusSystem {
  import opened Common
  import opened DropOldest
  import opened TopicMatching
  import WireFrames

  type ConnId = nat
  const QUEUE_SIZE := 1024

  type Payload = WireFrames.Bytes

  datatype ClientFrame =
    | Hello(name: string)
    | Sub(pattern: string)
    | Unsub(pattern: string)
    | Pub(topic: string, payload: Payload)

  /** An event the broker accepted; `origin` is `None` for the broker's own events. */
  datatype Accepted = Accepted(topic: string, payload: Payload, origin: Option<ConnId>)

  /** A local subscription. The fields from `consumed` on record history. */
  datatype LocalSub = LocalSub(
    pattern: string, live: bool, queue: seq<nat>,
    consumed: seq<nat>,  // handed to the iterating caller
    offered: seq<nat>,   // ever put on `queue`
    born: nat,           // events the broker had accepted at creation
    first: nat,          // events this client had dispatched at creation
    drops: nat)          // items lost to overflow of `queue`

  /** One connection, both ends and what is in flight. The fields from `sent` on record history. */
  datatype Conn = Conn(
    subs: seq<LocalSub>,
    deferred: seq<string>,        // SUB tasks that were scheduled and have not sent yet
    toServer: seq<ClientFrame>,   // waiting for the write lock or on the socket
    patterns: set<string>,        // the broker's pattern set
    outbound: seq<nat>,           // the broker's queue of events for this connection
    toClient: seq<nat>,           // on the socket
    sent: seq<nat>,               // ever put on `outbound`
    dispatched: seq<nat>,         // ever dispatched by the client's reader
    standing: seq<set<string>>,   // `patterns` when each event was accepted
    drops: nat)                   // items lost to overflow of `outbound`

  datatype State = State(conns: map<ConnId, Conn>, accepted: seq<Accepted>)

  datatype Step =
    | Connect(c: ConnId, name: string)
    | Subscribe(c: ConnId, pattern: string)
    | RunDeferred(c: ConnId, task: nat)
    | Close(c: ConnId, sub: nat)
    | Publish(c: ConnId, topic: string, payload: Payload)
    | ServerPublish(topic: string, payload: Payload)
    | ServerRead(c: ConnId)
    | ServerWrite(c: ConnId)
    | ClientRead(c: ConnId)
    | Consume(c: ConnId, sub: nat)

  /** A connection made when the broker had accepted `accepted` events. Its HELLO is on the way. */
  function Fresh(name: string, accepted: nat): Conn {
    Conn([], [], [Hello(name)], {}, [], [], [], [], seq(accepted, _ => {}), 0)
  }

  function Init(): State {
    State(map[], [])
  }

  // ---------- the client ----------

  predicate Live(conn: Conn, pattern: string) {
    exists i | 0 <= i < |conn.subs| :: conn.subs[i].live && conn.subs[i].pattern == pattern
  }

  function DoSubscribe(conn: Conn, pattern: string, accepted: nat): Conn {
    conn.(subs := conn.subs + [LocalSub(pattern, true, [], [], [], accepted, |conn.dispatched|, 0)],
          deferred := conn.deferred + [pattern])
  }

  function DoRunDeferred(conn: Conn, task: nat): Conn
    requires task < |conn.deferred|
  {
    conn.(deferred := conn.deferred[..task] + conn.deferred[task + 1..],
          toServer := conn.toServer + [Sub(conn.deferred[task])])
  }

  /** `aclose` once, then `_unregister`: UNSUB only when no other local subscription wants it. */
  function DoClose(conn: Conn, sub: nat): Conn
    requires sub < |conn.subs|
  {
    if !conn.subs[sub].live then conn
    else
      var closed := conn.(subs := conn.subs[sub := conn.subs[sub].(live := false)]);
      var pattern := conn.subs[sub].pattern;
      if Live(closed, pattern) then closed
      else closed.(toServer := closed.toServer + [Unsub(pattern)])
  }

  /** What dispatching event `e` does to one subscription. */
  function Offer(s: LocalSub, e: nat, topic: string): LocalSub {
    if s.live && Matches(s.pattern, topic) then
      s.(queue := Push(s.queue, e, QUEUE_SIZE), offered := s.offered + [e],
         drops := s.drops + if Full(s.queue, QUEUE_SIZE) then 1 else 0)
    else s
  }

  function DoClientRead(conn: Conn, topic: string): Conn
    requires conn.toClient != []
  {
    var e := conn.toClient[0];
    conn.(toClient := conn.toClient[1..], dispatched := conn.dispatched + [e],
          subs := seq(|conn.subs|, i requires 0 <= i < |conn.subs| => Offer(conn.subs[i], e, topic)))
  }

  function DoConsume(conn: Conn, sub: nat): Conn
    requires sub < |conn.subs| && conn.subs[sub].queue != []
  {
    var s := conn.subs[sub];
    conn.(subs := conn.subs[sub := s.(queue := s.queue[1..], consumed := s.consumed + [s.queue[0]])])
  }

  // ---------- the broker ----------

  predicate Wants(patterns: set<string>, topic: string) {
    exists p | p in patterns :: Matches(p, topic)
  }

  /** What the fan-out of event `e` does to one connection. */
  function Deliver(conn: Conn, e: nat, topic: string, own: bool): Conn {
    var seen := conn.(standing := conn.standing + [conn.patterns]);
    if !own && Wants(conn.patterns, topic) then
      seen.(outbound := Push(conn.outbound, e, QUEUE_SIZE), sent := conn.sent + [e],
            drops := conn.drops + if Full(conn.outbound, QUEUE_SIZE) then 1 else 0)
    else seen
  }

  function Fanout(s: State, ev: Accepted): State {
    State(map c | c in s.conns :: Deliver(s.conns[c], |s.accepted|, ev.topic, ev.origin == Some(c)),
          s.accepted + [ev])
  }

  /** The broker's pattern set after the SUB and UNSUB frames of `frames`. */
  function Replay(frames: seq<ClientFrame>, patterns: set<string>): set<string> {
    if frames == [] then patterns else Replay(frames[1..], ReplayOne(frames[0], patterns))
  }

  function ReplayOne(frame: ClientFrame, patterns: set<string>): set<string> {
    match frame
    case Sub(p) => patterns + {p}
    case Unsub(p) => patterns - {p}
    case _ => patterns
  }

  /** The broker's `_dispatch` of a frame from `c`. */
  function Dispatched(s: State, c: ConnId, frame: ClientFrame): State
    requires c in s.conns
  {
    var s' := s.(conns := s.conns[c := s.conns[c].(patterns := ReplayOne(frame, s.conns[c].patterns))]);
    if frame.Pub? then Fanout(s', Accepted(frame.topic, frame.payload, Some(c))) else s'
  }

  function DoServerRead(s: State, c: ConnId): State
    requires c in s.conns && s.conns[c].toServer != []
  {
    var conn := s.conns[c];
    Dispatched(s.(conns := s.conns[c := conn.(toServer := conn.toServer[1..])]), c, conn.toServer[0])
  }

  function DoServerWrite(conn: Conn): Conn
    requires conn.outbound != []
  {
    conn.(outbound := conn.outbound[1..], toClient := conn.toClient + [conn.outbound[0]])
  }

  // ---------- runs ----------

  /** A topic and body that fit into a frame and arrive as they were sent. */
  predicate Travels(verb: string, topic: string, payload: Payload) {
    WireFrames.Carries(verb, topic) && |payload| <= WireFrames.MAX_BODY_BYTES
  }

  predicate Enabled(s: State, step: Step) {
    match step
    case Connect(c, name) => c !in s.conns && (name == "" || WireFrames.Carries("HELLO", name))
    case ServerPublish(topic, payload) => Travels("EVT", topic, payload)
    case Subscribe(c, pattern) =>
      c in s.conns && WireFrames.Carries("SUB", pattern) && WireFrames.Carries("UNSUB", pattern)
    case RunDeferred(c, task) => c in s.conns && task < |s.conns[c].deferred|
    case Close(c, sub) => c in s.conns && sub < |s.conns[c].subs|
    case Publish(c, topic, payload) => c in s.conns && Travels("PUB", topic, payload)
    case ServerRead(c) => c in s.conns && s.conns[c].toServer != []
    case ServerWrite(c) => c in s.conns && s.conns[c].outbound != []
    case ClientRead(c) =>
      c in s.conns && s.conns[c].toClient != [] && s.conns[c].toClient[0] < |s.accepted|
    case Consume(c, sub) =>
      c in s.conns && sub < |s.conns[c].subs| && s.conns[c].subs[sub].queue != []
  }

  function Apply(s: State, step: Step): State
    requires Enabled(s, step)
  {
    match step
    case Connect(c, name) => s.(conns := s.conns[c := Fresh(name, |s.accepted|)])
    case ServerPublish(topic, payload) => Fanout(s, Accepted(topic, payload, None))
    case ServerRead(c) => DoServerRead(s, c)
    case _ => s.(conns := s.conns[step.c := ApplyLocal(s, step)])
  }

  /** Steps that change one connection and nothing else. */
  predicate IsLocal(step: Step) {
    !step.Connect? && !step.ServerPublish? && !step.ServerRead?
  }

  function ApplyLocal(s: State, step: Step): Conn
    requires Enabled(s, step) && IsLocal(step)
  {
    var conn := s.conns[step.c];
    match step
    case Subscribe(_, pattern) => DoSubscribe(conn, pattern, |s.accepted|)
    case RunDeferred(_, task) => DoRunDeferred(conn, task)
    case Close(_, sub) => DoClose(conn, sub)
    case Publish(_, topic, payload) => conn.(toServer := conn.toServer + [Pub(topic, payload)])
    case ServerWrite(_) => DoServerWrite(conn)
    case ClientRead(_) => DoClientRead(conn, s.accepted[conn.toClient[0]].topic)
    case Consume(_, sub) => DoConsume(conn, sub)
  }

  /** The state after `steps`, or `None` when some step was not enabled. */
  function Run(steps: seq<Step>): Option<State> {
    if steps == [] then Some(Init())
    else
      match Run(steps[..|steps| - 1])
      case None => None
      case Some(s) =>
        var step := steps[|steps| - 1];
        if Enabled(s, step) then Some(Apply(s, step)) else None
  }

  /** Connection `c` after `steps`. */
  predicate Has(steps: seq<Step>, c: ConnId) {
    Run(steps).Some? && c in Run(steps).value.conns
  }

  function ConnAfter(steps: seq<Step>, c: ConnId): Conn
    requires Has(steps, c)
  {
    Run(steps).value.conns[c]
  }
}
