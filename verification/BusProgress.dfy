/** The bus can always come to rest: whatever has happened, the tasks, reads and writes that are
    pending for a connection can all be done, and then everything has arrived. */
module BusProgress {
  import opened Common
  import opened DropOldest
  import opened TopicMatching
  import opened BusSystem
  import opened BusDelivery

  predicate QueuesEmpty(conn: Conn) {
    forall i | 0 <= i < |conn.subs| :: conn.subs[i].queue == []
  }

  /** Nothing is pending on either side, on the sockets or in a queue. */
  predicate AtRest(conn: Conn) {
    conn.deferred == [] && conn.toServer == [] && conn.outbound == [] && conn.toClient == [] && QueuesEmpty(conn)
  }

  /** Steps that are still to be taken before events can be consumed. */
  function Work(conn: Conn): nat {
    2 * |conn.deferred| + |conn.toServer| + 2 * |conn.outbound| + |conn.toClient|
  }

  function Queued(subs: seq<LocalSub>): nat {
    if subs == [] then 0 else Queued(subs[..|subs| - 1]) + |subs[|subs| - 1].queue|
  }

  lemma {:induction false} QueuedShrinks(subs: seq<LocalSub>, i: nat, s: LocalSub)
    requires i < |subs| && |s.queue| < |subs[i].queue|
    ensures Queued(subs[i := s]) < Queued(subs)
  {
    var m := |subs| - 1;
    if i < m {
      QueuedShrinks(subs[..m], i, s);
      assert subs[i := s][..m] == subs[..m][i := s];
    } else {
      assert subs[i := s][..m] == subs[..m];
    }
  }

  /** The subscriptions are the same ones, and nothing more was dropped. */
  ghost predicate SameSubs(conn: Conn, conn': Conn) {
    && |conn'.subs| == |conn.subs| && conn'.drops == conn.drops
    && forall i | 0 <= i < |conn.subs| ::
         && conn'.subs[i].live == conn.subs[i].live && conn'.subs[i].pattern == conn.subs[i].pattern
         && conn'.subs[i].drops == conn.subs[i].drops
  }

  /** Progress: less work, or the same work and less in the queues. */
  ghost predicate Closer(conn: Conn, conn': Conn) {
    Work(conn') < Work(conn) || (Work(conn') == Work(conn) && Queued(conn'.subs) < Queued(conn.subs))
  }

  lemma ConsumeCloser(conn: Conn, i: nat)
    requires i < |conn.subs| && conn.subs[i].queue != []
    ensures Closer(conn, DoConsume(conn, i)) && SameSubs(conn, DoConsume(conn, i))
  {
    QueuedShrinks(conn.subs, i, DoConsume(conn, i).subs[i]);
  }

  /** The longer run has the connection with the same subscriptions, and accepted no less. */
  ghost predicate Continues(steps: seq<Step>, longer: seq<Step>, c: ConnId) {
    && Has(steps, c) && Has(longer, c)
    && SameSubs(ConnAfter(steps, c), ConnAfter(longer, c))
    && Run(steps).value.accepted <= Run(longer).value.accepted
  }

  /** As long as something is pending there is a step that brings the connection closer to rest. */
  lemma CanStep(steps: seq<Step>, c: ConnId) returns (step: Step)
    requires Has(steps, c) && !AtRest(ConnAfter(steps, c))
    ensures Continues(steps, steps + [step], c)
    ensures Closer(ConnAfter(steps, c), ConnAfter(steps + [step], c))
  {
    var s, conn := Run(steps).value, ConnAfter(steps, c);
    if !QueuesEmpty(conn) {
      var i: nat :| i < |conn.subs| && conn.subs[i].queue != [];
      step := Consume(c, i);
      ConsumeCloser(conn, i);
    } else if conn.deferred != [] {
      step := RunDeferred(c, 0);
    } else if conn.toServer != [] {
      step := ServerRead(c);
    } else if conn.outbound != [] {
      step := ServerWrite(c);
    } else {
      step := ClientRead(c);
      ReaderNeverStuck(steps, c);
    }
    RunAppend(steps, step, s);
  }

  /** Every run can be continued until the connection is at rest, without another subscription
      being made or closed and without anything being dropped on the way. */
  lemma {:induction false} CanComeToRest(steps: seq<Step>, c: ConnId) returns (more: seq<Step>)
    requires Has(steps, c)
    ensures Continues(steps, steps + more, c) && AtRest(ConnAfter(steps + more, c))
    decreases Work(ConnAfter(steps, c)), Queued(ConnAfter(steps, c).subs)
  {
    if AtRest(ConnAfter(steps, c)) {
      more := [];
      assert steps + more == steps;
    } else {
      var step := CanStep(steps, c);
      var rest := CanComeToRest(steps + [step], c);
      more := [step] + rest;
      assert steps + [step] + rest == steps + more;
    }
  }

  /** What a settled subscription is owed can be delivered: if nothing was dropped so far, every
      run can be continued to one after which the event has been handed to the caller. */
  lemma CanArrive(pre: seq<Step>, post: seq<Step>, c: ConnId, i: nat, e: nat) returns (more: seq<Step>)
    requires SettledAt(pre, c, i) && Has(pre + post, c) && i < |ConnAfter(pre + post, c).subs|
    requires var s, conn := Run(pre + post).value, ConnAfter(pre + post, c);
             && conn.drops == 0 && conn.subs[i].drops == 0 && conn.subs[i].live
             && |Run(pre).value.accepted| <= e < |s.accepted|
             && Matches(conn.subs[i].pattern, s.accepted[e].topic) && s.accepted[e].origin != Some(c)
    ensures Has(pre + post + more, c) && i < |ConnAfter(pre + post + more, c).subs|
    ensures Run(pre + post).value.accepted <= Run(pre + post + more).value.accepted
    ensures e in ConnAfter(pre + post + more, c).subs[i].consumed
  {
    more := CanComeToRest(pre + post, c);
    assert pre + post + more == pre + (post + more);
    SettledSubscriptionIsServed(pre, post + more, c, i, e);
    var sub := ConnAfter(pre + post + more, c).subs[i];
    assert sub.queue == [] && sub.consumed + sub.queue == sub.consumed;
  }

  // ---------- capacity ----------

  /** Nothing was lost between the two, except where 1024 events were waiting already. */
  ghost predicate LosesOnlyAtCapacity(conn: Conn, conn': Conn) {
    && (conn'.drops != conn.drops ==> |conn.outbound| >= 1024)
    && |conn.subs| <= |conn'.subs|
    && (forall i | 0 <= i < |conn.subs| && conn'.subs[i].drops != conn.subs[i].drops :: |conn.subs[i].queue| >= 1024)
  }

  lemma LocalLoses(s: State, step: Step)
    requires Enabled(s, step) && IsLocal(step)
    ensures LosesOnlyAtCapacity(s.conns[step.c], ApplyLocal(s, step))
  {
  }

  lemma ReadLoses(s: State, d: ConnId, c: ConnId)
    requires d in s.conns && s.conns[d].toServer != [] && c in s.conns
    ensures c in DoServerRead(s, d).conns && LosesOnlyAtCapacity(s.conns[c], DoServerRead(s, d).conns[c])
    ensures DoServerRead(s, d).conns[c].subs == s.conns[c].subs
  {
  }

  /** A step loses something only where 1024 events are waiting already. */
  lemma DropsOnlyAtCapacity(s: State, step: Step, c: ConnId)
    requires Enabled(s, step) && c in s.conns
    ensures c in Apply(s, step).conns && LosesOnlyAtCapacity(s.conns[c], Apply(s, step).conns[c])
  {
    match step {
      case ServerRead(d) => ReadLoses(s, d, c);
      case ServerPublish(_, _) =>
      case Connect(_, _) =>
      case _ => if step.c == c { LocalLoses(s, step); }
    }
  }

  // ---------- end to end ----------

  /** A client publishes and the broker reads it. */
  lemma PublishAccepted(steps: seq<Step>, c: ConnId, d: ConnId, topic: string, payload: Payload)
    requires Has(steps, c) && Has(steps, d) && c != d && ConnAfter(steps, d).toServer == []
    requires Travels("PUB", topic, payload) && |ConnAfter(steps, c).outbound| < 1024
    ensures var s, run := Run(steps).value, steps + [Publish(d, topic, payload)] + [ServerRead(d)];
            && Has(run, c)
            && Run(run).value.accepted == s.accepted + [Accepted(topic, payload, Some(d))]
            && ConnAfter(run, c).subs == s.conns[c].subs && ConnAfter(run, c).drops == s.conns[c].drops
  {
    var s := Run(steps).value;
    RunAppend(steps, Publish(d, topic, payload), s);
    var s1 := Apply(s, Publish(d, topic, payload));
    RunAppend(steps + [Publish(d, topic, payload)], ServerRead(d), s1);
    ReadLoses(s1, d, c);
    ServerReadEffect(s1, d, c);
  }

  /** From any run with a settled subscription that lost nothing, what another client then publishes
      under a matching topic can be handed to it. */
  lemma CanDeliver(steps: seq<Step>, c: ConnId, i: nat, d: ConnId, topic: string, payload: Payload)
    returns (more: seq<Step>)
    requires SettledAt(steps, c, i) && Has(steps, d) && c != d && ConnAfter(steps, d).toServer == []
    requires Travels("PUB", topic, payload) && Matches(ConnAfter(steps, c).subs[i].pattern, topic)
    requires var conn := ConnAfter(steps, c);
             |conn.outbound| < 1024 && conn.drops == 0 && conn.subs[i].drops == 0
    ensures var e := |Run(steps).value.accepted|;
            var run := steps + [Publish(d, topic, payload), ServerRead(d)] + more;
            && Has(run, c) && i < |ConnAfter(run, c).subs|
            && e < |Run(run).value.accepted| && Run(run).value.accepted[e] == Accepted(topic, payload, Some(d))
            && e in ConnAfter(run, c).subs[i].consumed
  {
    var post := [Publish(d, topic, payload), ServerRead(d)];
    PublishAccepted(steps, c, d, topic, payload);
    assert steps + post == steps + [Publish(d, topic, payload)] + [ServerRead(d)];
    var e := |Run(steps).value.accepted|;
    more := CanArrive(steps, post, c, i, e);
  }

  lemma BrokerPublishes(steps: seq<Step>, c: ConnId, topic: string, payload: Payload)
    requires Has(steps, c) && Travels("EVT", topic, payload) && |ConnAfter(steps, c).outbound| < 1024
    ensures var s, run := Run(steps).value, steps + [ServerPublish(topic, payload)];
            && Has(run, c)
            && Run(run).value.accepted == s.accepted + [Accepted(topic, payload, None)]
            && ConnAfter(run, c).subs == s.conns[c].subs && ConnAfter(run, c).drops == s.conns[c].drops
  {
    var s := Run(steps).value;
    RunAppend(steps, ServerPublish(topic, payload), s);
  }

  /** The same for an event of the broker itself. */
  lemma CanDeliverFromBroker(steps: seq<Step>, c: ConnId, i: nat, topic: string, payload: Payload)
    returns (more: seq<Step>)
    requires SettledAt(steps, c, i) && Travels("EVT", topic, payload)
    requires var conn := ConnAfter(steps, c);
             && Matches(conn.subs[i].pattern, topic)
             && |conn.outbound| < 1024 && conn.drops == 0 && conn.subs[i].drops == 0
    ensures var e, run := |Run(steps).value.accepted|, steps + [ServerPublish(topic, payload)] + more;
            && Has(run, c) && i < |ConnAfter(run, c).subs|
            && e < |Run(run).value.accepted| && Run(run).value.accepted[e] == Accepted(topic, payload, None)
            && e in ConnAfter(run, c).subs[i].consumed
  {
    BrokerPublishes(steps, c, topic, payload);
    more := CanArrive(steps, [ServerPublish(topic, payload)], c, i, |Run(steps).value.accepted|);
  }
}
