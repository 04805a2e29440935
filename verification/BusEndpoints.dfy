/** The objects at the two ends of the bus, and why each of their methods is one step of
    `BusSystem` (decnet/bus/unix_client.py, decnet/bus/unix_server.py). */
module BusEndpoints {
  import opened Common
  import opened DropOldest
  import opened TopicMatching
  import opened BusSystem
  import opened WireFrames
  import opened BusChannel

  class Subscription {
    const pattern: string
    const queue: Queue<nat>

    constructor (pattern: string)
      ensures this.pattern == pattern && fresh(queue)
      ensures queue.items == [] && queue.maxsize == QUEUE_SIZE
    {
      this.pattern := pattern;
      queue := new Queue(QUEUE_SIZE);
    }
  }

  /** The object is the live subscription `model`. */
  ghost predicate Shows(s: Subscription, model: LocalSub)
    reads s.queue
  {
    model.live && model.pattern == s.pattern && model.queue == s.queue.items
  }

  class UnixSocketBus {
    var subs: seq<Subscription>
    var deferred: seq<string>      // scheduled `_send_sub` tasks
    var wire: seq<ClientFrame>     // frames that entered `_send`, in write-lock order
    ghost var index: seq<nat>      // which subscription of the model each of `subs` is

    ghost function Queues(): set<object>
      reads this
    {
      set s | s in subs :: s.queue
    }

    ghost predicate Valid()
      reads this
    {
      && |index| == |subs|
      && (forall i, j | 0 <= i < |subs| && 0 <= j < |subs| && i != j :: subs[i].queue != subs[j].queue)
      && (forall i, j | 0 <= i < j < |index| :: index[i] != index[j])
      && (forall i | 0 <= i < |subs| :: subs[i].queue.maxsize == QUEUE_SIZE)
    }

    /** This object is the client end of `conn`. */
    ghost predicate Is(conn: Conn)
      reads this, Queues()
    {
      && Valid()
      && deferred == conn.deferred && wire == conn.toServer
      && (forall i | 0 <= i < |subs| :: index[i] < |conn.subs| && Shows(subs[i], conn.subs[index[i]]))
      && (forall j: nat | j < |conn.subs| && conn.subs[j].live :: j in index)
    }

    /** A client that has just connected: HELLO is its first frame. */
    constructor (name: string, ghost accepted: nat)
      ensures Is(Fresh(name, accepted)) && fresh(Queues())
    {
      subs, deferred, wire, index := [], [], [Hello(name)], [];
    }

    method Subscribe(pattern: string, ghost conn: Conn, ghost accepted: nat) returns (sub: Subscription)
      requires Is(conn)
      modifies this
      ensures Is(DoSubscribe(conn, pattern, accepted))
      ensures subs == old(subs) + [sub] && fresh(sub) && fresh(sub.queue)
      ensures index == old(index) + [|conn.subs|]
    {
      sub := new Subscription(pattern);
      subs := subs + [sub];
      deferred := deferred + [pattern];
      index := index + [|conn.subs|];
      ghost var conn' := DoSubscribe(conn, pattern, accepted);
      assert index[|subs| - 1] == |conn.subs|;
      forall j: nat | j < |conn'.subs| && conn'.subs[j].live ensures j in index {
        if j < |conn.subs| { assert j in old(index); }
      }
    }

    /** A scheduled task reaches `_send`. */
    method RunDeferredSub(task: nat, ghost conn: Conn)
      requires Is(conn) && task < |deferred|
      modifies this`deferred, this`wire
      ensures Is(DoRunDeferred(conn, task))
    {
      var pattern := deferred[task];
      deferred := deferred[..task] + deferred[task + 1..];
      wire := wire + [Sub(pattern)];
    }

    /** `any(s.pattern == pattern for s in self._subs)`. */
    method AnyWants(pattern: string) returns (r: bool)
      ensures r <==> exists i | 0 <= i < |subs| :: subs[i].pattern == pattern
    {
      for i := 0 to |subs|
        invariant forall j | 0 <= j < i :: subs[j].pattern != pattern
      {
        if subs[i].pattern == pattern { return true; }
      }
      return false;
    }

    lemma WantedIffLive(conn: Conn, pattern: string)
      requires Is(conn)
      ensures (exists i | 0 <= i < |subs| :: subs[i].pattern == pattern) <==> Live(conn, pattern)
    {
      if i :| 0 <= i < |subs| && subs[i].pattern == pattern {
        assert conn.subs[index[i]].live && conn.subs[index[i]].pattern == pattern;
      }
      if Live(conn, pattern) {
        var j :| 0 <= j < |conn.subs| && conn.subs[j].live && conn.subs[j].pattern == pattern;
        var i :| 0 <= i < |index| && index[i] == j;
        assert subs[i].pattern == pattern;
      }
    }

    /** `self._subs.remove`, for the subscription at position `k`. */
    method RemoveAt(k: nat, ghost conn: Conn)
      requires Is(conn) && k < |subs|
      modifies this`subs, this`index
      ensures subs == old(subs)[..k] + old(subs)[k + 1..]
      ensures Is(conn.(subs := conn.subs[old(index)[k] := conn.subs[old(index)[k]].(live := false)]))
    {
      ghost var was, all := index, subs;
      ghost var closed := conn.(subs := conn.subs[was[k] := conn.subs[was[k]].(live := false)]);
      subs := subs[..k] + subs[k + 1..];
      index := index[..k] + index[k + 1..];
      assert Valid();
      forall i | 0 <= i < |subs| ensures index[i] < |closed.subs| && Shows(subs[i], closed.subs[index[i]]) {
        var j := if i < k then i else i + 1;
        assert index[i] == was[j] && subs[i] == all[j] && was[j] != was[k];
        assert Shows(all[j], conn.subs[was[j]]);
      }
      CoveredAfterRemoval(was, k, index);
    }

    static lemma CoveredAfterRemoval(was: seq<nat>, k: nat, index: seq<nat>)
      requires k < |was| && index == was[..k] + was[k + 1..]
      ensures forall j: nat | j in was && j != was[k] :: j in index
    {
      forall j: nat | j in was && j != was[k] ensures j in index {
        var i :| 0 <= i < |was| && was[i] == j;
        assert index[if i < k then i else i - 1] == j;
      }
    }

    /** `_unregister` for the subscription at position `k` of `_subs`. */
    method Unregister(k: nat, ghost conn: Conn)
      requires Is(conn) && k < |subs|
      modifies this
      ensures Is(DoClose(conn, old(index)[k]))
      ensures subs == old(subs)[..k] + old(subs)[k + 1..]
    {
      ghost var sub := index[k];
      ghost var closed := conn.(subs := conn.subs[sub := conn.subs[sub].(live := false)]);
      var pattern := subs[k].pattern;
      RemoveAt(k, conn);
      var wanted := AnyWants(pattern);
      WantedIffLive(closed, pattern);
      if !wanted { wire := wire + [Unsub(pattern)]; }
    }

    /** `_dispatch`: the second filter, and a drop-oldest enqueue for every match. */
    method Dispatch(e: nat, topic: string, ghost conn: Conn)
      requires Is(conn) && conn.toClient != [] && conn.toClient[0] == e
      modifies Queues()
      ensures Is(DoClientRead(conn, topic))
    {
      ghost var after := DoClientRead(conn, topic).subs;
      assert forall j | 0 <= j < |conn.subs| :: after[j] == Offer(conn.subs[j], e, topic);
      ghost var ix := index;
      ghost var mine := seq(|ix|, i requires 0 <= i < |ix| && ix[i] < |conn.subs| => conn.subs[ix[i]]);
      ghost var shown := seq(|ix|, i requires 0 <= i < |ix| && ix[i] < |after| => after[ix[i]]);
      OfferAll(e, topic, mine, shown);
      assert forall i | 0 <= i < |subs| :: shown[i] == after[index[i]];
    }

    /** The dispatch loop. */
    method OfferAll(e: nat, topic: string, ghost mine: seq<LocalSub>, ghost after: seq<LocalSub>)
      requires Valid() && |mine| == |after| == |subs|
      requires forall i | 0 <= i < |subs| :: Shows(subs[i], mine[i])
      requires forall i | 0 <= i < |subs| :: after[i] == Offer(mine[i], e, topic)
      modifies Queues()
      ensures forall i | 0 <= i < |subs| :: Shows(subs[i], after[i])
    {
      for k := 0 to |subs|
        invariant forall i | 0 <= i < k :: Shows(subs[i], after[i])
        invariant forall i | k <= i < |subs| :: Shows(subs[i], mine[i])
      {
        assert forall i | 0 <= i < |subs| && i != k :: subs[i].queue != subs[k].queue;
        OfferTo(subs[k], e, topic, mine[k]);
      }
    }

    method OfferTo(sub: Subscription, e: nat, topic: string, ghost model: LocalSub)
      requires Shows(sub, model) && sub.queue.maxsize == QUEUE_SIZE
      modifies sub.queue
      ensures Shows(sub, Offer(model, e, topic))
    {
      var wanted := ScanMatches(sub.pattern, topic);
      if wanted { EnqueueDropOldest(sub.queue, e); }
    }
  }

  class ServerConnection {
    ghost const id: ConnId
    const outbound: Queue<nat>
    var patterns: set<string>

    constructor (ghost id: ConnId)
      ensures this.id == id && patterns == {} && fresh(outbound)
      ensures outbound.items == [] && outbound.maxsize == QUEUE_SIZE
    {
      this.id := id;
      outbound := new Queue(QUEUE_SIZE);
      patterns := {};
    }
  }

  /** The object is the broker's end of `model`. */
  ghost predicate Holds(c: ServerConnection, model: Conn)
    reads c, c.outbound
  {
    c.patterns == model.patterns && c.outbound.items == model.outbound
  }

  class BusServer {
    const decodes: Decoder
    var connections: set<ServerConnection>
    var next: nat    // the number, standing for the fresh id, of the next accepted event

    ghost function Queues(): set<object>
      reads this
    {
      set c | c in connections :: c.outbound
    }

    ghost predicate Valid()
      reads this
    {
      && (forall c, d | c in connections && d in connections && c != d :: c.id != d.id && c.outbound != d.outbound)
      && (forall c | c in connections :: c.outbound.maxsize == QUEUE_SIZE)
    }

    /** This object is the broker of `s`. */
    ghost predicate Is(s: State)
      reads this, connections, Queues()
    {
      && Valid()
      && next == |s.accepted|
      && (forall c | c in connections :: c.id in s.conns && Holds(c, s.conns[c.id]))
      && Serves(s.conns.Keys)
    }

    /** Every connection of the model has an object here. */
    ghost predicate Serves(ids: set<ConnId>)
      reads this
    {
      forall id | id in ids :: exists c | c in connections :: c.id == id
    }

    constructor (decodes: Decoder)
      ensures Is(Init()) && this.decodes == decodes
    {
      this.decodes := decodes;
      connections, next := {}, 0;
    }

    /** A client connects, at any time. */
    method Connect(ghost id: ConnId, name: string, ghost s: State) returns (conn: ServerConnection)
      requires Is(s) && id !in s.conns
      modifies this`connections
      ensures fresh(conn) && fresh(conn.outbound) && connections == old(connections) + {conn}
      ensures conn.id == id && Is(s.(conns := s.conns[id := Fresh(name, |s.accepted|)]))
    {
      conn := new ServerConnection(id);
      connections := connections + {conn};
      assert conn in connections;
      forall x | x in s.conns.Keys + {id} ensures exists c | c in connections :: c.id == x {
        if x != id {
          var c :| c in old(connections) && c.id == x;
          assert c in connections;
        }
      }
    }

    /** `any(matches(p, topic) for p in conn.patterns)`. */
    method WantsTopic(conn: ServerConnection, topic: string) returns (r: bool)
      ensures r <==> Wants(conn.patterns, topic)
    {
      var todo := conn.patterns;
      while todo != {}
        invariant todo <= conn.patterns
        invariant Wants(conn.patterns, topic) <==> Wants(todo, topic)
        decreases todo
      {
        var p :| p in todo;
        var m := ScanMatches(p, topic);
        if m { return true; }
        todo := todo - {p};
      }
      return false;
    }

    /** `_fanout`: every connection except the origin. */
    method FanOut(topic: string, payload: Payload, origin: ServerConnection?, ghost s: State)
      requires Is(s) && (origin != null ==> origin in connections)
      modifies this`next, Queues()
      ensures Is(Fanout(s, Accepted(topic, payload, if origin == null then None else Some(origin.id))))
    {
      ghost var ev := Accepted(topic, payload, if origin == null then None else Some(origin.id));
      ghost var before, after := s.conns, Fanout(s, ev).conns;
      EachIsDelivered(s, ev, origin, after);
      DeliverAll(next, topic, origin, before, after);
      next := next + 1;
    }

    /** Connection ids are unique, so skipping the origin's id is skipping the origin. */
    lemma EachIsDelivered(s: State, ev: Accepted, origin: ServerConnection?, after: map<ConnId, Conn>)
      requires Is(s) && (origin != null ==> origin in connections)
      requires ev.origin == (if origin == null then None else Some(origin.id))
      requires after == Fanout(s, ev).conns
      ensures after.Keys == s.conns.Keys
      ensures forall c | c in connections :: c.id in s.conns && Holds(c, s.conns[c.id])
      ensures forall c | c in connections ::
        after[c.id] == Deliver(s.conns[c.id], next, ev.topic, c == origin)
    {
      forall c | c in connections
        ensures c.id in s.conns && after[c.id] == Deliver(s.conns[c.id], next, ev.topic, c == origin)
      {
        assert ev.origin == Some(c.id) <==> c == origin;
      }
    }

    /** The fan-out loop. */
    method DeliverAll(e: nat, topic: string, origin: ServerConnection?,
                      ghost before: map<ConnId, Conn>, ghost after: map<ConnId, Conn>)
      requires Valid()
      requires forall c | c in connections :: c.id in before && c.id in after && Holds(c, before[c.id])
      requires forall c | c in connections :: after[c.id] == Deliver(before[c.id], e, topic, c == origin)
      modifies Queues()
      ensures forall c | c in connections :: Holds(c, after[c.id])
    {
      var todo := connections;
      while todo != {}
        invariant todo <= connections
        invariant forall c | c in todo :: Holds(c, before[c.id])
        invariant forall c | c in connections && c !in todo :: Holds(c, after[c.id])
        decreases todo
      {
        var conn :| conn in todo;
        assert forall c | c in connections && c != conn :: c.outbound != conn.outbound;
        DeliverTo(conn, e, topic, conn == origin, before[conn.id]);
        todo := todo - {conn};
      }
    }

    /** The body of the fan-out loop. */
    method DeliverTo(conn: ServerConnection, e: nat, topic: string, own: bool, ghost model: Conn)
      requires Holds(conn, model) && conn.outbound.maxsize == QUEUE_SIZE
      modifies conn.outbound
      ensures Holds(conn, Deliver(model, e, topic, own))
    {
      if own { return; }
      var wanted := WantsTopic(conn, topic);
      if wanted { EnqueueDropOldest(conn.outbound, e); }
    }

    /** `_dispatch`; false stands for the protocol error, on which the caller hangs up. */
    method Dispatch(conn: ServerConnection, frame: Frame, ghost s: State) returns (ok: bool)
      requires Is(s) && conn in connections
      modifies this`next, conn`patterns, Queues()
      ensures ok <==>
                || frame.verb in {"HELLO", "UNSUB", "BYE"}
                || (frame.verb == "SUB" && frame.args != "")
                || (frame.verb == "PUB" && frame.args != "" && (frame.body == [] || decodes(frame.body)))
      ensures conn.patterns ==
                if frame.verb == "SUB" && frame.args != "" then old(conn.patterns) + {frame.args}
                else if frame.verb == "UNSUB" then old(conn.patterns) - {frame.args}
                else old(conn.patterns)
      ensures Is(if Meaning(decodes, frame).Some? then Dispatched(s, conn.id, Meaning(decodes, frame).value) else s)
    {
      if frame.verb == "HELLO" { return true; }
      if frame.verb == "SUB" {
        if frame.args == "" { return false; }
        conn.patterns := conn.patterns + {frame.args};
        return true;
      }
      if frame.verb == "UNSUB" {
        conn.patterns := conn.patterns - {frame.args};
        return true;
      }
      if frame.verb == "PUB" {
        if frame.args == "" { return false; }
        if frame.body != [] && !decodes(frame.body) { return false; }
        FanOut(frame.args, frame.body, conn, s);
        SamePatterns(s, conn.id, frame);
        return true;
      }
      return frame.verb == "BYE";
    }

    lemma SamePatterns(s: State, id: ConnId, frame: Frame)
      requires id in s.conns && Meaning(decodes, frame) == Some(Pub(frame.args, frame.body))
      ensures Dispatched(s, id, Pub(frame.args, frame.body)) == Fanout(s, Accepted(frame.args, frame.body, Some(id)))
    {
      assert s.conns[id := s.conns[id].(patterns := s.conns[id].patterns)] == s.conns;
    }

    /** One round of `_reader_loop`; false when it ended the connection. */
    method ReadAndDispatch(conn: ServerConnection, reader: StreamReader, ghost s: State)
      returns (more: bool, ghost f: ClientFrame)
      requires Is(s) && conn in connections
      modifies reader, this`next, conn`patterns, Queues()
      ensures more ==> |reader.data| < |old(reader.data)| && Is(Dispatched(s, conn.id, f))
      ensures !more ==> Is(s)
      ensures Pending(decodes, old(reader.data)) == if more then [f] + Pending(decodes, reader.data) else []
    {
      ghost var todo := Pending(decodes, reader.data);
      PendingStep(decodes, reader.data);
      var r := ReadFrame(reader);
      if !r.Got? { return false, Hello(""); }
      ghost var meaning := Meaning(decodes, r.frame);
      f := if meaning.Some? then meaning.value else Hello("");
      assert todo == if meaning.Some? then [f] + Pending(decodes, reader.data) else [];
      assert r.frame.verb == "BYE" ==> meaning.None?;
      var ok := Dispatch(conn, r.frame, s);
      more := ok && r.frame.verb != "BYE";
      assert more == meaning.Some?;
    }

    /** `_reader_loop` on everything a peer sent before it hung up: the frames that are understood
        are dispatched, in order, up to the first that ends the connection. */
    method ReaderLoop(conn: ServerConnection, reader: StreamReader, ghost s: State)
      requires Is(s) && conn in connections
      modifies reader, this`next, conn`patterns, Queues()
      ensures Is(DispatchAll(s, conn.id, Pending(decodes, old(reader.data))))
    {
      ghost var goal, now := DispatchAll(s, conn.id, Pending(decodes, reader.data)), s;
      var more := true;
      while more
        invariant Is(now)
        invariant goal == if more then DispatchAll(now, conn.id, Pending(decodes, reader.data)) else now
        decreases more, |reader.data|
      {
        ghost var f;
        more, f := ReadAndDispatch(conn, reader, now);
        if more {
          DispatchFirst(now, conn.id, f, Pending(decodes, reader.data));
          now := Dispatched(now, conn.id, f);
        }
      }
    }

    /** One round of `_writer_loop`: the head of the outbound queue goes to the socket. */
    method WriteNext(conn: ServerConnection, ghost s: State) returns (e: nat)
      requires Is(s) && conn in connections && s.conns[conn.id].outbound != []
      modifies conn.outbound
      ensures Is(s.(conns := s.conns[conn.id := DoServerWrite(s.conns[conn.id])]))
      ensures DoServerWrite(s.conns[conn.id]).toClient == s.conns[conn.id].toClient + [e]
    {
      var head := conn.outbound.GetNowait();
      e := head.value;
    }
  }
}
