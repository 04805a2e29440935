/** What holds of every run of the bus. */
module BusDelivery {
  import opened Common
  import opened DropOldest
  import opened TopicMatching
  import opened BusSystem
  import WireFrames

  // ---------- subscription agreement ----------

  /** Every live local pattern still has a SUB task pending, or stands at the broker once the
      frames in flight have been read. */
  ghost predicate Agreement(conn: Conn) {
    forall p: string :: Live(conn, p) ==> p in conn.deferred || p in Replay(conn.toServer, conn.patterns)
  }

  lemma {:induction false} ReplayAppend(frames: seq<ClientFrame>, f: ClientFrame, patterns: set<string>)
    ensures Replay(frames + [f], patterns) == ReplayOne(f, Replay(frames, patterns))
    decreases |frames|
  {
    if frames == [] {
      assert ([f] + [])[1..] == [];
      assert frames + [f] == [f];
    } else {
      assert (frames + [f])[1..] == frames[1..] + [f];
      ReplayAppend(frames[1..], f, ReplayOne(frames[0], patterns));
    }
  }

  lemma LiveAfterSubscribe(conn: Conn, pattern: string, n: nat, p: string)
    ensures Live(DoSubscribe(conn, pattern, n), p) <==> Live(conn, p) || p == pattern
  {
    var conn' := DoSubscribe(conn, pattern, n);
    if Live(conn, p) {
      var i :| 0 <= i < |conn.subs| && conn.subs[i].live && conn.subs[i].pattern == p;
      assert conn'.subs[i] == conn.subs[i];
    }
    if p == pattern { assert conn'.subs[|conn.subs|].live; }
  }

  /** Closing never makes a pattern live, and an UNSUB goes out exactly when one stops being so. */
  lemma LiveAfterClose(conn: Conn, sub: nat, p: string)
    requires sub < |conn.subs|
    ensures var conn' := DoClose(conn, sub);
            && (Live(conn', p) ==> Live(conn, p))
            && (Live(conn, p) && !Live(conn', p) ==>
                  conn'.toServer == conn.toServer + [Unsub(p)])
            && (Live(conn', p) == Live(conn, p) ==>
                  conn'.toServer == conn.toServer
                  || exists q :: q != p && conn'.toServer == conn.toServer + [Unsub(q)])
  {
    var conn' := DoClose(conn, sub);
    var pattern := conn.subs[sub].pattern;
    if conn.subs[sub].live {
      if Live(conn', p) {
        var i :| 0 <= i < |conn'.subs| && conn'.subs[i].live && conn'.subs[i].pattern == p;
        assert conn.subs[i].live && conn.subs[i].pattern == p;
      }
      if p != pattern && Live(conn, p) {
        var i :| 0 <= i < |conn.subs| && conn.subs[i].live && conn.subs[i].pattern == p;
        assert conn'.subs[i].live && conn'.subs[i].pattern == p;
      }
      var closed := conn.(subs := conn.subs[sub := conn.subs[sub].(live := false)]);
      assert closed.subs == conn'.subs;
      assert Live(closed, pattern) <==> Live(conn', pattern);
      assert Live(conn, pattern);
    }
  }

  lemma LiveIgnoresQueues(conn: Conn, conn': Conn, p: string)
    requires |conn'.subs| == |conn.subs|
    requires forall i | 0 <= i < |conn.subs| ::
               conn'.subs[i].live == conn.subs[i].live && conn'.subs[i].pattern == conn.subs[i].pattern
    ensures Live(conn', p) <==> Live(conn, p)
  {
  }

  /** How a local step changes the three things agreement is about. */
  lemma LocalStepEffect(s: State, step: Step, p: string)
    requires Enabled(s, step) && IsLocal(step)
    ensures var conn, conn' := s.conns[step.c], ApplyLocal(s, step);
            var later, later' := Replay(conn.toServer, conn.patterns), Replay(conn'.toServer, conn'.patterns);
            && (p in later' <==>
                  if step.RunDeferred? && conn.deferred[step.task] == p then true
                  else p in later && !(Live(conn, p) && !Live(conn', p)))
            && (Live(conn', p) <==>
                  if step.Subscribe? && step.pattern == p then true
                  else Live(conn, p) && !(step.Close? && !Live(conn', p)))
            && (p in conn.deferred && !(step.RunDeferred? && conn.deferred[step.task] == p) ==> p in conn'.deferred)
            && (step.Subscribe? && step.pattern == p ==> p in conn'.deferred)
  {
    var conn, conn' := s.conns[step.c], ApplyLocal(s, step);
    match step {
      case Subscribe(_, pattern) =>
        LiveAfterSubscribe(conn, pattern, |s.accepted|, p);
        assert conn'.deferred[|conn.deferred|] == pattern;
      case RunDeferred(_, task) =>
        LiveIgnoresQueues(conn, conn', p);
        ReplayAppend(conn.toServer, Sub(conn.deferred[task]), conn.patterns);
        if p in conn.deferred && conn.deferred[task] != p {
          var i :| 0 <= i < |conn.deferred| && conn.deferred[i] == p;
          assert conn'.deferred[if i < task then i else i - 1] == p;
        }
      case Close(_, sub) =>
        LiveAfterClose(conn, sub, p);
        forall q { ReplayAppend(conn.toServer, Unsub(q), conn.patterns); }
      case Publish(_, topic, payload) =>
        LiveIgnoresQueues(conn, conn', p);
        ReplayAppend(conn.toServer, Pub(topic, payload), conn.patterns);
      case ServerWrite(_) => LiveIgnoresQueues(conn, conn', p);
      case ClientRead(_) => LiveIgnoresQueues(conn, conn', p);
      case Consume(_, _) => LiveIgnoresQueues(conn, conn', p);
    }
  }

  lemma {:induction false} PrefixRuns(steps: seq<Step>, k: nat, c: ConnId)
    requires Run(steps).Some? && k <= |steps|
    ensures Run(steps[..k]).Some?
    ensures Has(steps[..k], c) ==> Has(steps, c)
  {
    if k < |steps| {
      var before := steps[..|steps| - 1];
      PrefixRuns(before, k, c);
      assert before[..k] == steps[..k];
    } else {
      assert steps[..k] == steps;
    }
  }

  /** Subscription agreement, in every interleaving. */
  lemma {:induction false} SubscriptionAgreement(steps: seq<Step>, c: ConnId)
    requires Has(steps, c)
    ensures Agreement(ConnAfter(steps, c))
  {
    var before, step := steps[..|steps| - 1], steps[|steps| - 1];
    var s := Run(before).value;
    if c in s.conns {
      SubscriptionAgreement(before, c);
      if IsLocal(step) && step.c == c {
        forall p: string { LocalStepEffect(s, step, p); }
      } else {
        forall p { LiveIgnoresQueues(s.conns[c], Apply(s, step).conns[c], p); }
      }
    }
  }

  /** Once the tasks have run and the channel is empty, the broker holds every live pattern. */
  lemma DrainedAgreement(steps: seq<Step>, c: ConnId)
    requires Has(steps, c)
    ensures var conn := ConnAfter(steps, c);
            conn.deferred == [] && conn.toServer == [] ==>
              forall i | 0 <= i < |conn.subs| && conn.subs[i].live :: conn.subs[i].pattern in conn.patterns
  {
    SubscriptionAgreement(steps, c);
    var conn := ConnAfter(steps, c);
    forall i | 0 <= i < |conn.subs| && conn.subs[i].live ensures Live(conn, conn.subs[i].pattern) {
    }
  }

  // ---------- stale patterns ----------

  ghost predicate LiveAfter(steps: seq<Step>, c: ConnId, p: string) {
    Run(steps).Some? && c in Run(steps).value.conns && Live(Run(steps).value.conns[c], p)
  }

  /** Step `k` runs a deferred SUB task for `p` on connection `c`. */
  ghost predicate TaskFor(steps: seq<Step>, k: nat, c: ConnId, p: string)
    requires k < |steps|
  {
    && steps[k].RunDeferred? && steps[k].c == c
    && Run(steps[..k]).Some? && c in Run(steps[..k]).value.conns
    && var conn := Run(steps[..k]).value.conns[c];
    steps[k].task < |conn.deferred| && conn.deferred[steps[k].task] == p
  }

  /** A deferred SUB ran although `p` was not wanted then, nor at any time since. */
  ghost predicate LateTask(steps: seq<Step>, c: ConnId, p: string) {
    exists k: nat | k < |steps| :: TaskFor(steps, k, c, p) && NotLiveSince(steps, k, c, p)
  }

  ghost predicate NotLiveSince(steps: seq<Step>, k: nat, c: ConnId, p: string) {
    forall j | k < j <= |steps| :: !LiveAfter(steps[..j], c, p)
  }

  lemma TaskForPrefix(steps: seq<Step>, k: nat, c: ConnId, p: string)
    requires k < |steps| - 1
    ensures TaskFor(steps, k, c, p) <==> TaskFor(steps[..|steps| - 1], k, c, p)
  {
    assert steps[..|steps| - 1][..k] == steps[..k];
  }

  lemma NotLiveSincePrefix(steps: seq<Step>, k: nat, c: ConnId, p: string)
    requires k < |steps| - 1 && !LiveAfter(steps, c, p)
    ensures NotLiveSince(steps, k, c, p) <==> NotLiveSince(steps[..|steps| - 1], k, c, p)
  {
    var before := steps[..|steps| - 1];
    assert steps[..|steps|] == steps;
    assert forall j | k < j <= |before| :: before[..j] == steps[..j];
  }

  lemma LateTaskStep(steps: seq<Step>, c: ConnId, p: string)
    requires steps != [] && !LiveAfter(steps, c, p)
    ensures LateTask(steps, c, p) <==>
              TaskFor(steps, |steps| - 1, c, p) || LateTask(steps[..|steps| - 1], c, p)
  {
    var n := |steps|;
    assert steps[..n] == steps;
    assert NotLiveSince(steps, n - 1, c, p);
    var before := steps[..n - 1];
    forall k: nat | k < n - 1
      ensures TaskFor(steps, k, c, p) <==> TaskFor(before, k, c, p)
      ensures NotLiveSince(steps, k, c, p) <==> NotLiveSince(before, k, c, p)
    {
      TaskForPrefix(steps, k, c, p);
      NotLiveSincePrefix(steps, k, c, p);
    }
  }

  /** A late task's pattern is not live. */
  lemma LateTaskNotLive(steps: seq<Step>, c: ConnId, p: string)
    ensures LateTask(steps, c, p) ==> !LiveAfter(steps, c, p)
  {
    assert steps[..|steps|] == steps;
  }

  /** A pattern nobody wants stands at the broker exactly when its deferred SUB ran too late. */
  lemma {:induction false} StaleIffLateTask(steps: seq<Step>, c: ConnId, p: string)
    requires Has(steps, c) && !LiveAfter(steps, c, p)
    ensures var conn := ConnAfter(steps, c);
            p in Replay(conn.toServer, conn.patterns) <==> LateTask(steps, c, p)
  {
    var before, step := steps[..|steps| - 1], steps[|steps| - 1];
    var s := Run(before).value;
    LateTaskStep(steps, c, p);
    if c !in s.conns {
      NoTaskBeforeConnect(before, c, p);
      assert Replay([Hello(step.name)], {}) == Replay([Hello(step.name)][1..], {}) == {};
    } else {
      if IsLocal(step) && step.c == c {
        LocalStepEffect(s, step, p);
      } else {
        LiveIgnoresQueues(s.conns[c], Apply(s, step).conns[c], p);
      }
      if LiveAfter(before, c, p) {
        LateTaskNotLive(before, c, p);
      } else {
        StaleIffLateTask(before, c, p);
      }
    }
  }

  lemma NoTaskBeforeConnect(steps: seq<Step>, c: ConnId, p: string)
    requires Run(steps).Some? && !Has(steps, c)
    ensures !LateTask(steps, c, p)
  {
    forall k: nat | k < |steps| ensures !TaskFor(steps, k, c, p) {
      PrefixRuns(steps, k, c);
    }
  }

  lemma RunAppend(steps: seq<Step>, step: Step, s: State)
    requires Run(steps) == Some(s) && Enabled(s, step)
    ensures Run(steps + [step]) == Some(Apply(s, step))
  {
    assert (steps + [step])[..|steps|] == steps;
  }

  /** The client's half of the run below. */
  function CloseBeforeTask(c: ConnId, name: string, p: string): seq<Step> {
    [Connect(c, name)] + [Subscribe(c, p)] + [Close(c, 0)] + [RunDeferred(c, 0)]
  }

  /** What the three calls do to the client's end of a fresh connection. */
  lemma SubscribeThenClose(name: string, p: string)
    ensures var made := DoSubscribe(Fresh(name, 0), p, 0);
            && |made.subs| == 1 && |made.deferred| == 1
            && var closed := DoClose(made, 0);
            && |closed.deferred| == 1 && closed.deferred[0] == p && closed.patterns == {}
            && closed.toServer == [Hello(name), Unsub(p)] && |closed.subs| == 1 && !closed.subs[0].live
  {
    var made := DoSubscribe(Fresh(name, 0), p, 0);
    assert made.subs[0].live && made.subs[0].pattern == p;
  }

  /** One step of one connection, as part of a run. */
  lemma StepOf(steps: seq<Step>, step: Step, c: ConnId)
    requires Has(steps, c) && IsLocal(step) && step.c == c && Enabled(Run(steps).value, step)
    ensures Has(steps + [step], c) && ConnAfter(steps + [step], c) == ApplyLocal(Run(steps).value, step)
    ensures Run(steps + [step]).value.accepted == Run(steps).value.accepted
  {
    RunAppend(steps, step, Run(steps).value);
  }

  lemma FirstConnects(c: ConnId, name: string)
    requires name == "" || WireFrames.Carries("HELLO", name)
    ensures Has([Connect(c, name)], c) && ConnAfter([Connect(c, name)], c) == Fresh(name, 0)
    ensures Run([Connect(c, name)]).value.accepted == []
  {
    RunAppend([], Connect(c, name), Init());
    assert [] + [Connect(c, name)] == [Connect(c, name)];
  }

  lemma CloseOvertakesTask(c: ConnId, name: string, p: string)
    requires name == "" || WireFrames.Carries("HELLO", name)
    requires WireFrames.Carries("SUB", p) && WireFrames.Carries("UNSUB", p)
    ensures Has(CloseBeforeTask(c, name, p), c)
    ensures var conn := ConnAfter(CloseBeforeTask(c, name, p), c);
            && conn.toServer == [Hello(name), Unsub(p), Sub(p)] && conn.patterns == {} && conn.deferred == []
            && |conn.subs| == 1 && !conn.subs[0].live
  {
    SubscribeThenClose(name, p);
    FirstConnects(c, name);
    StepOf([Connect(c, name)], Subscribe(c, p), c);
    StepOf([Connect(c, name)] + [Subscribe(c, p)], Close(c, 0), c);
    StepOf([Connect(c, name)] + [Subscribe(c, p)] + [Close(c, 0)], RunDeferred(c, 0), c);
  }

  /** The broker reads a frame that is no publication. */
  lemma QuietRead(steps: seq<Step>, c: ConnId)
    requires Has(steps, c) && ConnAfter(steps, c).toServer != [] && !ConnAfter(steps, c).toServer[0].Pub?
    ensures Has(steps + [ServerRead(c)], c)
    ensures var conn := ConnAfter(steps, c);
            ConnAfter(steps + [ServerRead(c)], c) ==
              conn.(toServer := conn.toServer[1..], patterns := ReplayOne(conn.toServer[0], conn.patterns))
  {
    RunAppend(steps, ServerRead(c), Run(steps).value);
  }

  /** For every pattern there is such a run: subscribed, closed, and only then the task runs. The
      broker has read everything and holds a pattern that nobody wants. */
  lemma StaleRun(c: ConnId, name: string, p: string)
    requires name == "" || WireFrames.Carries("HELLO", name)
    requires WireFrames.Carries("SUB", p) && WireFrames.Carries("UNSUB", p)
    ensures var steps := CloseBeforeTask(c, name, p) + [ServerRead(c)] + [ServerRead(c)] + [ServerRead(c)];
            && Has(steps, c) && !LiveAfter(steps, c, p)
            && ConnAfter(steps, c).toServer == [] && ConnAfter(steps, c).patterns == {p}
  {
    CloseOvertakesTask(c, name, p);
    var pre := CloseBeforeTask(c, name, p);
    QuietRead(pre, c);
    QuietRead(pre + [ServerRead(c)], c);
    QuietRead(pre + [ServerRead(c)] + [ServerRead(c)], c);
  }

  // ---------- delivery ----------

  predicate Increasing(s: seq<nat>) {
    forall i, j | 0 <= i < j < |s| :: s[i] < s[j]
  }

  predicate SuffixOf(s: seq<nat>, whole: seq<nat>) {
    |s| <= |whole| && s == whole[|whole| - |s|..]
  }

  /** A queue together with what was taken from it, against everything ever put on it: `pipe` is
      what was kept, in order, of `all`, and `drops` items were lost from the middle. */
  ghost predicate Kept(pipe: seq<nat>, queue: seq<nat>, all: seq<nat>, drops: nat) {
    && Increasing(all) && Increasing(pipe)
    && (forall e | e in pipe :: e in all)
    && SuffixOf(queue, all) && SuffixOf(queue, pipe)
    && |queue| <= QUEUE_SIZE
    && |all| == |pipe| + drops
    && (drops == 0 ==> pipe == all)
  }

  /** Taking the head of the queue changes only where `pipe` is split. */
  lemma KeptPop(pipe: seq<nat>, queue: seq<nat>, all: seq<nat>, drops: nat)
    requires Kept(pipe, queue, all, drops) && queue != []
    ensures Kept(pipe, queue[1..], all, drops)
  {
    assert queue[1..] == all[|all| - |queue| + 1..];
    assert queue[1..] == pipe[|pipe| - |queue| + 1..];
  }

  lemma IncreasingAppend(s: seq<nat>, e: nat)
    requires Increasing(s) && forall x | x in s :: x < e
    ensures Increasing(s + [e])
  {
    assert forall i | 0 <= i < |s| :: s[i] in s;
  }

  lemma KeptPushFits(pipe: seq<nat>, queue: seq<nat>, all: seq<nat>, drops: nat, e: nat)
    requires Kept(pipe, queue, all, drops) && |queue| < QUEUE_SIZE
    requires forall x | x in all :: x < e
    ensures Kept(pipe + [e], queue + [e], all + [e], drops)
  {
    IncreasingAppend(all, e);
    IncreasingAppend(pipe, e);
    assert (all + [e])[|all|] == e && forall x | x in all :: x in all + [e];
    assert (all + [e])[|all| - |queue|..] == all[|all| - |queue|..] + [e];
    assert (pipe + [e])[|pipe| - |queue|..] == pipe[|pipe| - |queue|..] + [e];
  }

  /** Removing one item from the middle keeps the order and the items' origin. */
  lemma WithoutOne(taken: seq<nat>, queue: seq<nat>)
    requires queue != [] && Increasing(taken + queue)
    ensures Increasing(taken + queue[1..])
    ensures forall x | x in taken + queue[1..] :: x in taken + queue
  {
    var pipe, less := taken + queue, taken + queue[1..];
    assert forall i | 0 <= i < |less| :: less[i] == pipe[if i < |taken| then i else i + 1];
  }

  lemma SuffixShift(queue: seq<nat>, all: seq<nat>, e: nat)
    requires SuffixOf(queue, all) && queue != []
    ensures SuffixOf(queue[1..] + [e], all + [e])
  {
    assert (all + [e])[|all| + 1 - |queue|..] == all[|all| - |queue|..][1..] + [e];
  }

  lemma KeptPushDrops(taken: seq<nat>, queue: seq<nat>, all: seq<nat>, drops: nat, e: nat)
    requires Kept(taken + queue, queue, all, drops) && |queue| == QUEUE_SIZE
    requires forall x | x in all :: x < e
    ensures Kept(taken + (queue[1..] + [e]), queue[1..] + [e], all + [e], drops + 1)
  {
    var less := taken + queue[1..];
    WithoutOne(taken, queue);
    IncreasingAppend(all, e);
    IncreasingAppend(less, e);
    assert taken + (queue[1..] + [e]) == less + [e];
    assert (all + [e])[|all|] == e && forall x | x in all :: x in all + [e];
    SuffixShift(queue, all, e);
  }

  lemma KeptPush(taken: seq<nat>, queue: seq<nat>, all: seq<nat>, drops: nat, e: nat)
    requires Kept(taken + queue, queue, all, drops)
    requires forall x | x in all :: x < e
    ensures var queue' := Push(queue, e, QUEUE_SIZE);
            var drops' := drops + if Full(queue, QUEUE_SIZE) then 1 else 0;
            Kept(taken + queue', queue', all + [e], drops')
  {
    if |queue| == QUEUE_SIZE {
      KeptPushDrops(taken, queue, all, drops, e);
      assert (queue + [e])[1..] == queue[1..] + [e];
    } else {
      KeptPushFits(taken + queue, queue, all, drops, e);
      assert taken + (queue + [e]) == (taken + queue) + [e];
      assert (queue + [e])[0..] == queue + [e];
    }
  }

  /** The log of events sent to connection `c` is exactly the events accepted from elsewhere
      that some pattern standing at that moment matched, in order of acceptance. */
  ghost predicate SentExactly(conn: Conn, c: ConnId, accepted: seq<Accepted>) {
    && |conn.standing| == |accepted|
    && Increasing(conn.sent)
    && forall e: nat :: e in conn.sent <==>
         e < |accepted| && accepted[e].origin != Some(c) && Wants(conn.standing[e], accepted[e].topic)
  }

  ghost predicate SubInv(s: LocalSub, dispatched: seq<nat>, accepted: seq<Accepted>) {
    && Kept(s.consumed + s.queue, s.queue, s.offered, s.drops)
    && (forall e | e in s.offered ::
          e in dispatched && e < |accepted| && Matches(s.pattern, accepted[e].topic))
    && s.first <= |dispatched| && s.born <= |accepted|
    && (forall j | 0 <= j < s.first :: dispatched[j] < s.born)
    && (s.live ==> forall j | s.first <= j < |dispatched| ::
          dispatched[j] < |accepted| && Matches(s.pattern, accepted[dispatched[j]].topic) ==>
            dispatched[j] in s.offered)
  }

  ghost predicate ConnInv(conn: Conn, c: ConnId, accepted: seq<Accepted>) {
    && SentExactly(conn, c, accepted)
    && Kept(conn.dispatched + conn.toClient + conn.outbound, conn.outbound, conn.sent, conn.drops)
    && forall i | 0 <= i < |conn.subs| :: SubInv(conn.subs[i], conn.dispatched, accepted)
  }

  /** Everything dispatched or on its way was sent, so it has a number below the log's length. */
  lemma PipeBelow(conn: Conn, c: ConnId, accepted: seq<Accepted>)
    requires ConnInv(conn, c, accepted)
    ensures forall e | e in conn.dispatched + conn.toClient + conn.outbound :: e in conn.sent && e < |accepted|
    ensures forall e | e in conn.dispatched :: e in conn.sent && e < |accepted|
    ensures forall e | e in conn.sent :: e < |accepted|
  {
    assert forall e | e in conn.dispatched :: e in conn.dispatched + conn.toClient + conn.outbound;
  }

  lemma SubscribeKeeps(conn: Conn, c: ConnId, accepted: seq<Accepted>, pattern: string)
    requires ConnInv(conn, c, accepted)
    ensures ConnInv(DoSubscribe(conn, pattern, |accepted|), c, accepted)
  {
    PipeBelow(conn, c, accepted);
    assert forall j | 0 <= j < |conn.dispatched| :: conn.dispatched[j] in conn.dispatched;
    assert SubInv(LocalSub(pattern, true, [], [], [], |accepted|, |conn.dispatched|, 0), conn.dispatched, accepted);
  }

  lemma ServerWriteKeeps(conn: Conn, c: ConnId, accepted: seq<Accepted>)
    requires ConnInv(conn, c, accepted) && conn.outbound != []
    ensures ConnInv(DoServerWrite(conn), c, accepted)
  {
    var conn' := DoServerWrite(conn);
    var pipe := conn.dispatched + conn.toClient + conn.outbound;
    assert conn'.dispatched + conn'.toClient + conn'.outbound == pipe;
    KeptPop(pipe, conn.outbound, conn.sent, conn.drops);
  }

  /** A dispatched event that goes onto the subscription's queue. */
  lemma TakenIn(s: LocalSub, s': LocalSub, dispatched: seq<nat>, accepted: seq<Accepted>, e: nat)
    requires SubInv(s, dispatched, accepted)
    requires e < |accepted| && Matches(s.pattern, accepted[e].topic)
    requires s' == s.(queue := s'.queue, drops := s'.drops, offered := s.offered + [e])
    requires Kept(s'.consumed + s'.queue, s'.queue, s'.offered, s'.drops)
    ensures SubInv(s', dispatched + [e], accepted)
  {
    var all := dispatched + [e];
    assert all[|dispatched|] == e && s'.offered[|s.offered|] == e;
    assert forall x | x in dispatched :: x in all;
    assert forall x | x in s.offered :: x in s'.offered;
    assert forall x | x in s'.offered :: x in s.offered || x == e;
  }

  lemma OfferQueues(s: LocalSub, e: nat, topic: string)
    requires Kept(s.consumed + s.queue, s.queue, s.offered, s.drops)
    requires s.live && Matches(s.pattern, topic) && forall x | x in s.offered :: x < e
    ensures var s' := Offer(s, e, topic);
            && s' == s.(queue := s'.queue, drops := s'.drops, offered := s.offered + [e])
            && Kept(s'.consumed + s'.queue, s'.queue, s'.offered, s'.drops)
  {
    KeptPush(s.consumed, s.queue, s.offered, s.drops, e);
  }

  lemma OfferKeeps(s: LocalSub, dispatched: seq<nat>, accepted: seq<Accepted>, e: nat)
    requires SubInv(s, dispatched, accepted)
    requires e < |accepted| && forall x | x in dispatched :: x < e
    ensures SubInv(Offer(s, e, accepted[e].topic), dispatched + [e], accepted)
  {
    var topic := accepted[e].topic;
    if s.live && Matches(s.pattern, topic) {
      OfferQueues(s, e, topic);
      TakenIn(s, Offer(s, e, topic), dispatched, accepted, e);
    }
  }

  lemma ClientReadKeeps(conn: Conn, c: ConnId, accepted: seq<Accepted>)
    requires ConnInv(conn, c, accepted) && conn.toClient != [] && conn.toClient[0] < |accepted|
    ensures ConnInv(DoClientRead(conn, accepted[conn.toClient[0]].topic), c, accepted)
  {
    var e := conn.toClient[0];
    var conn' := DoClientRead(conn, accepted[e].topic);
    var pipe := conn.dispatched + conn.toClient + conn.outbound;
    assert conn'.dispatched + conn'.toClient + conn'.outbound == pipe;
    assert pipe[|conn.dispatched|] == e;
    forall x | x in conn.dispatched ensures x < e {
      var i :| 0 <= i < |conn.dispatched| && conn.dispatched[i] == x;
      assert pipe[i] == x;
    }
    forall i | 0 <= i < |conn'.subs| ensures SubInv(conn'.subs[i], conn'.dispatched, accepted) {
      OfferKeeps(conn.subs[i], conn.dispatched, accepted, e);
    }
  }

  lemma ConsumeKeeps(conn: Conn, c: ConnId, accepted: seq<Accepted>, sub: nat)
    requires ConnInv(conn, c, accepted) && sub < |conn.subs| && conn.subs[sub].queue != []
    ensures ConnInv(DoConsume(conn, sub), c, accepted)
  {
    var s := conn.subs[sub];
    var s' := DoConsume(conn, sub).subs[sub];
    assert s'.consumed + s'.queue == s.consumed + s.queue;
    KeptPop(s.consumed + s.queue, s.queue, s.offered, s.drops);
    assert SubInv(s', conn.dispatched, accepted);
  }

  lemma SubInvExtends(s: LocalSub, dispatched: seq<nat>, accepted: seq<Accepted>, ev: Accepted)
    requires SubInv(s, dispatched, accepted)
    requires forall e | e in dispatched :: e < |accepted|
    ensures SubInv(s, dispatched, accepted + [ev])
  {
    assert forall j | 0 <= j < |dispatched| :: dispatched[j] in dispatched;
  }

  lemma SentExactlyExtends(conn: Conn, c: ConnId, accepted: seq<Accepted>, ev: Accepted)
    requires SentExactly(conn, c, accepted)
    ensures SentExactly(Deliver(conn, |accepted|, ev.topic, ev.origin == Some(c)), c, accepted + [ev])
  {
    var n := |accepted|;
    var conn' := Deliver(conn, n, ev.topic, ev.origin == Some(c));
    assert conn'.standing[n] == conn.patterns;
    if conn'.sent != conn.sent {
      IncreasingAppend(conn.sent, n);
      assert conn'.sent[|conn.sent|] == n;
      assert forall x | x in conn.sent :: x in conn'.sent;
      assert forall x | x in conn'.sent :: x in conn.sent || x == n;
    }
  }

  /** Everything put on the outbound queue, taken from it and still on it, across a delivery. */
  lemma DeliverQueues(conn: Conn, e: nat, topic: string, own: bool)
    requires Kept(conn.dispatched + conn.toClient + conn.outbound, conn.outbound, conn.sent, conn.drops)
    requires forall x | x in conn.sent :: x < e
    ensures var conn' := Deliver(conn, e, topic, own);
            && conn'.dispatched == conn.dispatched && conn'.subs == conn.subs
            && Kept(conn'.dispatched + conn'.toClient + conn'.outbound, conn'.outbound, conn'.sent, conn'.drops)
  {
    if !own && Wants(conn.patterns, topic) {
      KeptPush(conn.dispatched + conn.toClient, conn.outbound, conn.sent, conn.drops, e);
    }
  }

  lemma SubsExtend(subs: seq<LocalSub>, dispatched: seq<nat>, accepted: seq<Accepted>, ev: Accepted)
    requires forall i | 0 <= i < |subs| :: SubInv(subs[i], dispatched, accepted)
    requires forall e | e in dispatched :: e < |accepted|
    ensures forall i | 0 <= i < |subs| :: SubInv(subs[i], dispatched, accepted + [ev])
  {
    forall i | 0 <= i < |subs| ensures SubInv(subs[i], dispatched, accepted + [ev]) {
      SubInvExtends(subs[i], dispatched, accepted, ev);
    }
  }

  lemma DeliverKeeps(conn: Conn, c: ConnId, accepted: seq<Accepted>, ev: Accepted)
    requires ConnInv(conn, c, accepted)
    ensures ConnInv(Deliver(conn, |accepted|, ev.topic, ev.origin == Some(c)), c, accepted + [ev])
  {
    PipeBelow(conn, c, accepted);
    SentExactlyExtends(conn, c, accepted, ev);
    DeliverQueues(conn, |accepted|, ev.topic, ev.origin == Some(c));
    SubsExtend(conn.subs, conn.dispatched, accepted, ev);
  }

  lemma LocalKeeps(s: State, step: Step)
    requires Enabled(s, step) && IsLocal(step)
    requires ConnInv(s.conns[step.c], step.c, s.accepted)
    ensures ConnInv(ApplyLocal(s, step), step.c, s.accepted)
  {
    var conn := s.conns[step.c];
    match step {
      case Subscribe(c, pattern) => SubscribeKeeps(conn, c, s.accepted, pattern);
      case Close(c, sub) =>
        if conn.subs[sub].live { assert SubInv(conn.subs[sub].(live := false), conn.dispatched, s.accepted); }
      case ServerWrite(c) => ServerWriteKeeps(conn, c, s.accepted);
      case ClientRead(c) => ClientReadKeeps(conn, c, s.accepted);
      case Consume(c, sub) => ConsumeKeeps(conn, c, s.accepted, sub);
      case _ =>
    }
  }

  lemma StepKeeps(s: State, step: Step, c: ConnId)
    requires Enabled(s, step) && c in s.conns && ConnInv(s.conns[c], c, s.accepted)
    ensures c in Apply(s, step).conns
    ensures ConnInv(Apply(s, step).conns[c], c, Apply(s, step).accepted)
  {
    match step {
      case ServerPublish(topic, payload) =>
        DeliverKeeps(s.conns[c], c, s.accepted, Accepted(topic, payload, None));
      case ServerRead(d) =>
        var from := s.conns[d];
        var read := from.(toServer := from.toServer[1..], patterns := ReplayOne(from.toServer[0], from.patterns));
        var conn := if c == d then read else s.conns[c];
        assert ConnInv(conn, c, s.accepted);
        if from.toServer[0].Pub? {
          DeliverKeeps(conn, c, s.accepted, Accepted(from.toServer[0].topic, from.toServer[0].payload, Some(d)));
        }
      case _ =>
        if step.c == c { LocalKeeps(s, step); }
    }
  }

  lemma FreshKeeps(name: string, c: ConnId, accepted: seq<Accepted>)
    ensures ConnInv(Fresh(name, |accepted|), c, accepted)
  {
  }

  lemma {:induction false} DeliveryInvariant(steps: seq<Step>, c: ConnId)
    requires Has(steps, c)
    ensures ConnInv(ConnAfter(steps, c), c, Run(steps).value.accepted)
  {
    var before, step := steps[..|steps| - 1], steps[|steps| - 1];
    var s := Run(before).value;
    if c in s.conns {
      DeliveryInvariant(before, c);
      StepKeeps(s, step, c);
    } else {
      FreshKeeps(step.name, c, s.accepted);
    }
  }

  /** Whatever is on the socket names an accepted event, so the client's reader is never stuck. */
  lemma ReaderNeverStuck(steps: seq<Step>, c: ConnId)
    requires Has(steps, c)
    ensures var s := Run(steps).value;
            c in s.conns && (s.conns[c].toClient != [] ==> Enabled(s, ClientRead(c)))
  {
    DeliveryInvariant(steps, c);
    var s := Run(steps).value;
    PipeBelow(s.conns[c], c, s.accepted);
    var pipe := s.conns[c].dispatched + s.conns[c].toClient + s.conns[c].outbound;
    if s.conns[c].toClient != [] { assert pipe[|s.conns[c].dispatched|] in pipe; }
  }

  /** Safety of delivery over whole runs: what a subscription consumed followed by what it still
      queues is in order, without repeats, and made only of matching events that the broker
      accepted from elsewhere; the queue is bounded and is the newest part of what was put on it. */
  lemma DeliveredInOrder(steps: seq<Step>, c: ConnId, i: nat)
    requires Has(steps, c)
    requires i < |ConnAfter(steps, c).subs|
    ensures var s := Run(steps).value;
            var sub := s.conns[c].subs[i];
            && Increasing(sub.consumed + sub.queue)
            && (forall e | e in sub.consumed + sub.queue ::
                  e < |s.accepted| && Matches(sub.pattern, s.accepted[e].topic) && s.accepted[e].origin != Some(c))
            && |sub.queue| <= 1024 && SuffixOf(sub.queue, sub.offered)
            && |s.conns[c].outbound| <= 1024 && SuffixOf(s.conns[c].outbound, s.conns[c].sent)
  {
    DeliveryInvariant(steps, c);
    var s := Run(steps).value;
    PipeBelow(s.conns[c], c, s.accepted);
    assert SubInv(s.conns[c].subs[i], s.conns[c].dispatched, s.accepted);
  }

  /** Completeness: with nothing dropped and nothing in flight, an event accepted from elsewhere
      while the broker held a matching pattern of this connection, and after the subscription was
      made, has reached every live subscription it matches. */
  lemma NothingLost(steps: seq<Step>, c: ConnId, i: nat, e: nat)
    requires Has(steps, c)
    requires i < |ConnAfter(steps, c).subs|
    ensures var s := Run(steps).value;
            var conn := s.conns[c];
            var sub := conn.subs[i];
            && |conn.standing| == |s.accepted|
            && (conn.drops == 0 && sub.drops == 0 && conn.toClient == [] && conn.outbound == []
                && sub.live && sub.born <= e < |s.accepted|
                && Matches(sub.pattern, s.accepted[e].topic) && s.accepted[e].origin != Some(c)
                && Wants(conn.standing[e], s.accepted[e].topic)
                ==> e in sub.consumed + sub.queue)
  {
    DeliveryInvariant(steps, c);
    var s := Run(steps).value;
    var conn := s.conns[c];
    var sub := conn.subs[i];
    assert SubInv(sub, conn.dispatched, s.accepted);
    if && conn.drops == 0 && sub.drops == 0 && conn.toClient == [] && conn.outbound == []
       && sub.live && sub.born <= e < |s.accepted|
       && Matches(sub.pattern, s.accepted[e].topic) && s.accepted[e].origin != Some(c)
       && Wants(conn.standing[e], s.accepted[e].topic)
    {
      assert e in conn.sent;
      assert conn.dispatched + conn.toClient + conn.outbound == conn.dispatched;
      assert e in conn.dispatched;
      var j :| 0 <= j < |conn.dispatched| && conn.dispatched[j] == e;
      assert j >= sub.first;
      assert e in sub.offered;
    }
  }

  // ---------- settled subscriptions ----------

  /** Subscription `i`, made when `n` events had been accepted or earlier, has had its pattern at
      the broker since then for as long as it is live, and no frame in flight takes it away. */
  ghost predicate Served(conn: Conn, i: nat, p: string, n: nat) {
    && i < |conn.subs| && conn.subs[i].pattern == p && conn.subs[i].born <= n
    && (conn.subs[i].live ==> p in conn.patterns && Unsub(p) !in conn.toServer)
    && (conn.subs[i].live ==> forall e | n <= e < |conn.standing| :: p in conn.standing[e])
  }

  lemma CloseServes(conn: Conn, sub: nat, i: nat, p: string, n: nat)
    requires Served(conn, i, p, n) && sub < |conn.subs|
    ensures Served(DoClose(conn, sub), i, p, n)
  {
    var conn' := DoClose(conn, sub);
    if conn'.subs[i].live && conn.subs[sub].live {
      var closed := conn.(subs := conn.subs[sub := conn.subs[sub].(live := false)]);
      assert closed.subs[i].live && closed.subs[i].pattern == p;
      assert Live(closed, p);
    }
  }

  lemma LocalServes(s: State, step: Step, i: nat, p: string, n: nat)
    requires Enabled(s, step) && IsLocal(step) && Served(s.conns[step.c], i, p, n)
    ensures Served(ApplyLocal(s, step), i, p, n)
  {
    match step {
      case Close(c, sub) => CloseServes(s.conns[c], sub, i, p, n);
      case _ =>
    }
  }

  lemma DeliverServes(conn: Conn, e: nat, topic: string, own: bool, i: nat, p: string, n: nat)
    requires Served(conn, i, p, n)
    ensures Served(Deliver(conn, e, topic, own), i, p, n)
  {
  }

  lemma StepServes(s: State, step: Step, c: ConnId, i: nat, p: string, n: nat)
    requires Enabled(s, step) && c in s.conns && Served(s.conns[c], i, p, n)
    ensures c in Apply(s, step).conns && Served(Apply(s, step).conns[c], i, p, n)
  {
    match step {
      case ServerPublish(topic, payload) =>
        DeliverServes(s.conns[c], |s.accepted|, topic, false, i, p, n);
      case ServerRead(d) =>
        var from, frame := s.conns[d], s.conns[d].toServer[0];
        var read := from.(toServer := from.toServer[1..], patterns := ReplayOne(frame, from.patterns));
        var conn := if c == d then read else s.conns[c];
        assert frame in from.toServer;
        assert Served(conn, i, p, n);
        if frame.Pub? { DeliverServes(conn, |s.accepted|, frame.topic, c == d, i, p, n); }
      case Connect(_, _) =>
      case _ =>
        if step.c == c { LocalServes(s, step, i, p, n); }
    }
  }

  /** No SUB task of the connection is waiting and the broker has read all its frames. */
  predicate Settled(conn: Conn) {
    conn.deferred == [] && conn.toServer == []
  }

  ghost predicate SettledAt(pre: seq<Step>, c: ConnId, i: nat) {
    Has(pre, c) && Settled(ConnAfter(pre, c)) && i < |ConnAfter(pre, c).subs| && ConnAfter(pre, c).subs[i].live
  }

  lemma {:induction false} SettledServes(pre: seq<Step>, post: seq<Step>, c: ConnId, i: nat)
    requires SettledAt(pre, c, i) && Run(pre + post).Some?
    ensures Has(pre + post, c)
    ensures Served(ConnAfter(pre + post, c), i, ConnAfter(pre, c).subs[i].pattern, |Run(pre).value.accepted|)
  {
    if post == [] {
      assert pre + post == pre;
      DrainedAgreement(pre, c);
      DeliveryInvariant(pre, c);
      assert SubInv(ConnAfter(pre, c).subs[i], ConnAfter(pre, c).dispatched, Run(pre).value.accepted);
    } else {
      var m := |post| - 1;
      assert (pre + post)[..|pre + post| - 1] == pre + post[..m];
      SettledServes(pre, post[..m], c, i);
      var p, n := ConnAfter(pre, c).subs[i].pattern, |Run(pre).value.accepted|;
      StepServes(Run(pre + post[..m]).value, post[m], c, i, p, n);
    }
  }

  /** Completeness for settled subscriptions, with nothing said about the broker's patterns: once a
      connection's SUB tasks and frames have drained, every event accepted from elsewhere from then
      on that a subscription of that moment matches is sent to the connection for as long as the
      subscription lives, and with nothing dropped and nothing in flight it has arrived. */
  lemma SettledSubscriptionIsServed(pre: seq<Step>, post: seq<Step>, c: ConnId, i: nat, e: nat)
    requires SettledAt(pre, c, i) && Run(pre + post).Some?
    ensures Has(pre + post, c) && i < |ConnAfter(pre + post, c).subs|
    ensures var s, conn := Run(pre + post).value, ConnAfter(pre + post, c);
            var sub := conn.subs[i];
            && sub.pattern == ConnAfter(pre, c).subs[i].pattern
            && (sub.live && |Run(pre).value.accepted| <= e < |s.accepted|
                && Matches(sub.pattern, s.accepted[e].topic) && s.accepted[e].origin != Some(c)
                ==> e in conn.sent
                    && (conn.drops == 0 && sub.drops == 0 && conn.toClient == [] && conn.outbound == []
                        ==> e in sub.consumed + sub.queue))
  {
    SettledServes(pre, post, c, i);
    NothingLost(pre + post, c, i, e);
    DeliveryInvariant(pre + post, c);
  }

  // ---------- publishing ----------

  datatype Post = Post(topic: string, payload: Payload)

  /** Everything client `c` published over a run, in order. */
  function Published(steps: seq<Step>, c: ConnId): seq<Post> {
    if steps == [] then []
    else
      var before, step := Published(steps[..|steps| - 1], c), steps[|steps| - 1];
      if step.Publish? && step.c == c then before + [Post(step.topic, step.payload)] else before
  }

  /** The accepted events that came from `c`, in order. */
  function AcceptedFrom(accepted: seq<Accepted>, c: ConnId): seq<Post> {
    if accepted == [] then []
    else
      var before, ev := AcceptedFrom(accepted[..|accepted| - 1], c), accepted[|accepted| - 1];
      if ev.origin == Some(c) then before + [Post(ev.topic, ev.payload)] else before
  }

  function PostsIn(frames: seq<ClientFrame>): seq<Post> {
    if frames == [] then []
    else if frames[0].Pub? then [Post(frames[0].topic, frames[0].payload)] + PostsIn(frames[1..])
    else PostsIn(frames[1..])
  }

  lemma {:induction false} PostsAppend(frames: seq<ClientFrame>, f: ClientFrame)
    ensures PostsIn(frames + [f]) == if f.Pub? then PostsIn(frames) + [Post(f.topic, f.payload)] else PostsIn(frames)
  {
    if frames == [] {
      assert frames + [f] == [f] && [f][1..] == [];
    } else {
      assert (frames + [f])[1..] == frames[1..] + [f];
      PostsAppend(frames[1..], f);
    }
  }

  lemma AcceptedAppend(accepted: seq<Accepted>, ev: Accepted, c: ConnId)
    ensures AcceptedFrom(accepted + [ev], c) ==
            if ev.origin == Some(c) then AcceptedFrom(accepted, c) + [Post(ev.topic, ev.payload)]
            else AcceptedFrom(accepted, c)
  {
    assert (accepted + [ev])[..|accepted|] == accepted;
  }

  lemma PostsLocalStep(s: State, step: Step)
    requires Enabled(s, step) && IsLocal(step)
    ensures var before, after := PostsIn(s.conns[step.c].toServer), PostsIn(ApplyLocal(s, step).toServer);
            after == if step.Publish? then before + [Post(step.topic, step.payload)] else before
  {
    var frames := s.conns[step.c].toServer;
    match step {
      case RunDeferred(c, task) => PostsAppend(frames, Sub(s.conns[c].deferred[task]));
      case Close(c, sub) => PostsAppend(frames, Unsub(s.conns[c].subs[sub].pattern));
      case Publish(_, topic, payload) => PostsAppend(frames, Pub(topic, payload));
      case _ =>
    }
  }

  lemma PostsFanout(s: State, ev: Accepted, c: ConnId)
    requires c in s.conns
    ensures var s' := Fanout(s, ev);
            && c in s'.conns && s'.conns[c].toServer == s.conns[c].toServer
            && s'.accepted == s.accepted + [ev]
  {
  }

  /** What reading a frame of `d` does to the log and to the unread frames of `c`. */
  lemma ServerReadEffect(s: State, d: ConnId, c: ConnId)
    requires d in s.conns && s.conns[d].toServer != [] && c in s.conns
    ensures var s', frame := DoServerRead(s, d), s.conns[d].toServer[0];
            && c in s'.conns
            && s'.conns[c].toServer == (if c == d then s.conns[c].toServer[1..] else s.conns[c].toServer)
            && s'.accepted == AfterFrame(s.accepted, frame, d)
  {
  }

  function AfterFrame(accepted: seq<Accepted>, frame: ClientFrame, d: ConnId): seq<Accepted> {
    if frame.Pub? then accepted + [Accepted(frame.topic, frame.payload, Some(d))] else accepted
  }

  /** A post moves from the front of the channel to the end of the log. */
  lemma PostMoves(accepted: seq<Accepted>, frames: seq<ClientFrame>, c: ConnId)
    requires frames != []
    ensures AcceptedFrom(AfterFrame(accepted, frames[0], c), c) + PostsIn(frames[1..]) ==
              AcceptedFrom(accepted, c) + PostsIn(frames)
  {
    var frame, done := frames[0], AcceptedFrom(accepted, c);
    if frame.Pub? {
      AcceptedAppend(accepted, Accepted(frame.topic, frame.payload, Some(c)), c);
      var post, rest := Post(frame.topic, frame.payload), PostsIn(frames[1..]);
      assert (done + [post]) + rest == done + ([post] + rest);
    }
  }

  lemma PostsServerRead(s: State, d: ConnId, c: ConnId, s': State)
    requires d in s.conns && s.conns[d].toServer != [] && c in s.conns && s' == DoServerRead(s, d)
    ensures c in s'.conns
    ensures AcceptedFrom(s'.accepted, c) + PostsIn(s'.conns[c].toServer) ==
              AcceptedFrom(s.accepted, c) + PostsIn(s.conns[c].toServer)
  {
    ServerReadEffect(s, d, c);
    var frame := s.conns[d].toServer[0];
    assert s'.accepted == AfterFrame(s.accepted, frame, d);
    if c == d {
      PostMoves(s.accepted, s.conns[d].toServer, c);
    } else if frame.Pub? {
      AcceptedAppend(s.accepted, Accepted(frame.topic, frame.payload, Some(d)), c);
    }
  }

  lemma PostsStep(s: State, step: Step, c: ConnId)
    requires Enabled(s, step) && c in s.conns
    ensures c in Apply(s, step).conns
    ensures var s' := Apply(s, step);
            var before := AcceptedFrom(s.accepted, c) + PostsIn(s.conns[c].toServer);
            AcceptedFrom(s'.accepted, c) + PostsIn(s'.conns[c].toServer) ==
              if step.Publish? && step.c == c then before + [Post(step.topic, step.payload)] else before
  {
    match step {
      case ServerPublish(topic, payload) =>
        PostsFanout(s, Accepted(topic, payload, None), c);
        AcceptedAppend(s.accepted, Accepted(topic, payload, None), c);
      case ServerRead(d) => PostsServerRead(s, d, c, Apply(s, step));
      case _ => if step.c == c { PostsLocalStep(s, step); }
    }
  }

  /** Nothing is invented, altered, reordered or lost on the way to the broker: what it accepted
      from a client, followed by what is still in flight, is what the client published. */
  lemma {:induction false} PublishedReachesBroker(steps: seq<Step>, c: ConnId)
    requires Has(steps, c)
    ensures AcceptedFrom(Run(steps).value.accepted, c) + PostsIn(ConnAfter(steps, c).toServer) == Published(steps, c)
  {
    var before, step := steps[..|steps| - 1], steps[|steps| - 1];
    if Has(before, c) {
      PublishedReachesBroker(before, c);
      PostsStep(Run(before).value, step, c);
    } else {
      SilentBeforeConnect(before, c);
      assert PostsIn([Hello(step.name)]) == PostsIn([Hello(step.name)][1..]) == [];
    }
  }

  lemma {:induction false} SilentBeforeConnect(steps: seq<Step>, c: ConnId)
    requires Run(steps).Some? && !Has(steps, c)
    ensures Published(steps, c) == [] && AcceptedFrom(Run(steps).value.accepted, c) == []
  {
    if steps != [] {
      var before, step := steps[..|steps| - 1], steps[|steps| - 1];
      var s := Run(before).value;
      SilentBeforeConnect(before, c);
      match step {
        case ServerPublish(topic, payload) => AcceptedAppend(s.accepted, Accepted(topic, payload, None), c);
        case ServerRead(d) =>
          var frame := s.conns[d].toServer[0];
          if frame.Pub? { AcceptedAppend(s.accepted, Accepted(frame.topic, frame.payload, Some(d)), c); }
        case _ =>
      }
    }
  }

}
