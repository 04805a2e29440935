/** The cross-primitive correlator and the state transitions of single primitives
    (decnet/correlation/attribution_worker.py). */
module AttributionCorrelator {
  import opened Common

  const MIN_PRIMITIVES := 2

  /** A row of `list_multi_actor_identities`. */
  datatype Candidate = Candidate(identity: string, primitives: seq<string>)

  /** A `multi_actor_suspected` event. */
  datatype Suspected = Suspected(identity: string, primitives: set<string>)

  function Signature(c: Candidate): set<string> {
    set p | p in c.primitives
  }

  predicate Qualifies(c: Candidate) {
    |c.primitives| >= MIN_PRIMITIVES
  }

  /** The qualifying identities with their primitive sets. */
  function Qualifying(cs: seq<Candidate>): map<string, set<string>> {
    if cs == [] then map[]
    else
      var c, before := cs[|cs| - 1], Qualifying(cs[..|cs| - 1]);
      if Qualifies(c) then before[c.identity := Signature(c)] else before
  }

  /** One row per identity, as the repository groups them. */
  predicate OnePerIdentity(cs: seq<Candidate>) {
    forall i, j | 0 <= i < j < |cs| :: cs[i].identity != cs[j].identity
  }

  lemma {:induction false} QualifyingIs(cs: seq<Candidate>, id: string)
    ensures id in Qualifying(cs) <==> exists i | 0 <= i < |cs| :: |cs[i].primitives| >= 2 && cs[i].identity == id
    ensures OnePerIdentity(cs) ==>
              forall i | 0 <= i < |cs| && |cs[i].primitives| >= 2 && cs[i].identity == id ::
                Qualifying(cs)[id] == set p | p in cs[i].primitives
  {
    if cs != [] {
      var m := |cs| - 1;
      QualifyingIs(cs[..m], id);
      if i :| 0 <= i < m && Qualifies(cs[i]) && cs[i].identity == id { assert cs[..m][i] == cs[i]; }
    }
  }

  /** The identity has a set now that differs from the one it was last fired with. */
  predicate Differs(last: map<string, set<string>>, now: map<string, set<string>>, id: string) {
    id in now && (id !in last || last[id] != now[id])
  }

  predicate Fires(events: seq<Suspected>, id: string) {
    exists i | 0 <= i < |events| :: events[i].identity == id
  }

  /** The events are one for each identity that differs, carrying the new set. */
  ghost predicate FiresExactly(events: seq<Suspected>, last: map<string, set<string>>, now: map<string, set<string>>) {
    && (forall id :: Fires(events, id) <==> Differs(last, now, id))
    && (forall i | 0 <= i < |events| :: events[i].identity in now && events[i].primitives == now[events[i].identity])
    && (forall i, j | 0 <= i < j < |events| :: events[i].identity != events[j].identity)
  }

  class Correlator {
    var lastFired: map<string, set<string>>

    constructor ()
      ensures lastFired == map[]
    {
      lastFired := map[];
    }

    /** `tick_multi_actor`: the new table is the current snapshot, and with a bus exactly the
        identities whose set changed since the previous tick are announced, once each. */
    method Tick(candidates: seq<Candidate>, bus: bool) returns (fired: nat, events: seq<Suspected>)
      modifies this
      ensures lastFired == Qualifying(candidates)
      ensures fired == |events| && (!bus ==> events == [])
      ensures bus && OnePerIdentity(candidates) ==> FiresExactly(events, old(lastFired), Qualifying(candidates))
    {
      events := [];
      var seenNow: set<string> := {};
      ghost var last := lastFired;
      for i := 0 to |candidates|
        invariant seenNow == Qualifying(candidates[..i]).Keys
        invariant lastFired == last + Qualifying(candidates[..i])
        invariant !bus ==> events == []
        invariant bus && OnePerIdentity(candidates) ==> FiresExactly(events, last, Qualifying(candidates[..i]))
      {
        var c := candidates[i];
        assert candidates[..i + 1][..i] == candidates[..i];
        QualifyingIs(candidates[..i], c.identity);
        if !Qualifies(c) { continue; }
        seenNow := seenNow + {c.identity};
        events := Announce(c, bus, events, last, Qualifying(candidates[..i]));
      }
      assert candidates[..|candidates|] == candidates;
      fired := |events|;
      Prune(seenNow);
    }

    /** The loop body for a qualifying candidate. */
    method Announce(c: Candidate, bus: bool, events: seq<Suspected>, ghost last: map<string, set<string>>,
                    ghost soFar: map<string, set<string>>)
      returns (events': seq<Suspected>)
      requires lastFired == last + soFar
      modifies this
      ensures lastFired == last + soFar[c.identity := Signature(c)]
      ensures !bus ==> events' == events
      ensures bus && c.identity !in soFar && FiresExactly(events, last, soFar) ==>
                FiresExactly(events', last, soFar[c.identity := Signature(c)])
    {
      events' := events;
      var signature := Signature(c);
      if c.identity in lastFired && lastFired[c.identity] == signature {
        if c.identity !in soFar && FiresExactly(events, last, soFar) {
          UnchangedFires(events, last, soFar, c.identity, signature);
        }
        return;
      }
      lastFired := lastFired[c.identity := signature];
      if !bus { return; }
      if c.identity !in soFar && FiresExactly(events, last, soFar) {
        ChangedFires(events, last, soFar, c.identity, signature);
      }
      events' := events + [Suspected(c.identity, signature)];
    }

    static lemma UnchangedFires(events: seq<Suspected>, last: map<string, set<string>>, now: map<string, set<string>>,
                                id: string, sig: set<string>)
      requires id !in now && id in last && last[id] == sig && FiresExactly(events, last, now)
      ensures FiresExactly(events, last, now[id := sig])
    {
      forall x ensures Differs(last, now, x) <==> Differs(last, now[id := sig], x) { }
    }

    static lemma ChangedFires(events: seq<Suspected>, last: map<string, set<string>>, now: map<string, set<string>>,
                              id: string, sig: set<string>)
      requires id !in now && (id !in last || last[id] != sig) && FiresExactly(events, last, now)
      ensures FiresExactly(events + [Suspected(id, sig)], last, now[id := sig])
    {
      var events' := events + [Suspected(id, sig)];
      assert !Fires(events, id) by { assert !Differs(last, now, id); }
      forall x ensures Fires(events', x) <==> Fires(events, x) || x == id {
        if Fires(events, x) {
          var i :| 0 <= i < |events| && events[i].identity == x;
          assert events'[i].identity == x;
        }
        if x == id { assert events'[|events|].identity == id; }
      }
      forall x ensures Differs(last, now[id := sig], x) <==> Differs(last, now, x) || x == id { }
    }

    /** Re-arm: forget identities that no longer qualify. */
    method Prune(seenNow: set<string>)
      modifies this
      ensures lastFired == map k | k in old(lastFired) && k in seenNow :: old(lastFired)[k]
    {
      var stale := set k | k in lastFired && k !in seenNow;
      while stale != {}
        invariant stale <= old(lastFired).Keys && stale !! seenNow
        invariant lastFired == map k | k in old(lastFired) && (k in seenNow || k in stale) :: old(lastFired)[k]
        decreases stale
      {
        var k :| k in stale;
        lastFired := lastFired - {k};
        stale := stale - {k};
      }
    }
  }

  // ---------- transitions of one primitive ----------

  datatype Slot = Slot(identity: string, primitive: string)

  /** What the merger made of the whole series; nothing is assumed about it. */
  datatype Merged = Merged(state: string, value: string, confidence: real, count: nat, ts: real)
  datatype Stored = Stored(merged: Merged, lastChange: real)

  /** A handled observation event. */
  datatype Observation = Observation(slot: Slot, merged: Merged)

  /** A `state_changed` event. */
  datatype Transition = Transition(slot: Slot, oldState: Option<string>, merged: Merged)

  function Prior(db: map<Slot, Stored>, slot: Slot): Option<string> {
    if slot in db then Some(db[slot].merged.state) else None
  }

  predicate Changed(db: map<Slot, Stored>, o: Observation) {
    Prior(db, o.slot) != Some(o.merged.state)
  }

  function Upsert(db: map<Slot, Stored>, o: Observation): map<Slot, Stored> {
    db[o.slot := Stored(o.merged, if Changed(db, o) then o.merged.ts else db[o.slot].lastChange)]
  }

  /** The stored rows after a run. */
  function Db(os: seq<Observation>): map<Slot, Stored> {
    if os == [] then map[] else Upsert(Db(os[..|os| - 1]), os[|os| - 1])
  }

  /** Everything a run publishes, over all slots, in order. */
  function Published(os: seq<Observation>): seq<Transition> {
    if os == [] then []
    else
      var before, o := os[..|os| - 1], os[|os| - 1];
      if Changed(Db(before), o) then Published(before) + [Transition(o.slot, Prior(Db(before), o.slot), o.merged)]
      else Published(before)
  }

  function OnSlot(ts: seq<Transition>, slot: Slot): seq<Transition> {
    if ts == [] then []
    else
      var before, t := OnSlot(ts[..|ts| - 1], slot), ts[|ts| - 1];
      if t.slot == slot then before + [t] else before
  }

  /** What a run publishes about one slot. */
  function Trace(os: seq<Observation>, slot: Slot): seq<Transition> {
    OnSlot(Published(os), slot)
  }

  lemma TraceUnroll(os: seq<Observation>, slot: Slot)
    requires os != []
    ensures var before, o := os[..|os| - 1], os[|os| - 1];
            Trace(os, slot) ==
              if o.slot == slot && Changed(Db(before), o)
              then Trace(before, slot) + [Transition(slot, Prior(Db(before), slot), o.merged)]
              else Trace(before, slot)
  {
    var before := Published(os[..|os| - 1]);
    if Published(os) != before { assert Published(os)[..|before|] == before; }
  }

  class Worker {
    const bus: bool
    var db: map<Slot, Stored>
    var published: seq<Transition>

    constructor (bus: bool)
      ensures this.bus == bus && Handled([])
    {
      this.bus := bus;
      db, published := map[], [];
    }

    /** Rows and published events are those of the run `os`. */
    ghost predicate Handled(os: seq<Observation>)
      reads this
    {
      db == Db(os) && published == if bus then Published(os) else []
    }

    /** `handle_observation_event` from the merged state on, after the run `past`. With a bus, what
        was published about each slot is the chain of its changes, up to the row that is stored. */
    method Handle(o: Observation, ghost past: seq<Observation>)
      requires Handled(past)
      modifies this`db, this`published
      ensures Handled(past + [o])
      ensures bus ==> forall slot :: Chain(OnSlot(published, slot))
      ensures bus ==> forall slot :: EndsAt(OnSlot(published, slot), db, slot)
    {
      assert (past + [o])[..|past|] == past;
      var prior := if o.slot in db then Some(db[o.slot]) else None;
      var stateChanged := prior.None? || prior.value.merged.state != o.merged.state;
      var lastChange := if prior.Some? && !stateChanged then prior.value.lastChange else o.merged.ts;
      db := db[o.slot := Stored(o.merged, lastChange)];
      if stateChanged && bus {
        var oldState := if prior.None? then None else Some(prior.value.merged.state);
        published := published + [Transition(o.slot, oldState, o.merged)];
      }
      assert Handled(past + [o]);
      forall slot | bus ensures Chain(OnSlot(published, slot)) && EndsAt(OnSlot(published, slot), db, slot) {
        TraceIsChain(past + [o], slot);
      }
    }
  }

  /** Each transition starts where the one before it ended, the first from nothing, and moves. */
  predicate Chain(ts: seq<Transition>) {
    forall i | 0 <= i < |ts| :: Follows(ts, i)
  }

  predicate Follows(ts: seq<Transition>, i: nat)
    requires i < |ts|
  {
    && (if i == 0 then ts[i].oldState == None else ts[i].oldState == Some(ts[i - 1].merged.state))
    && ts[i].oldState != Some(ts[i].merged.state)
  }

  /** The stored row is where the chain ended, and when. */
  predicate EndsAt(ts: seq<Transition>, db: map<Slot, Stored>, slot: Slot) {
    if ts == [] then slot !in db
    else
      var last := ts[|ts| - 1].merged;
      slot in db && db[slot].merged.state == last.state && db[slot].lastChange == last.ts
  }

  lemma ChainAppend(ts: seq<Transition>, t: Transition)
    requires Chain(ts) && t.oldState != Some(t.merged.state)
    requires t.oldState == if ts == [] then None else Some(ts[|ts| - 1].merged.state)
    ensures Chain(ts + [t])
  {
    var all := ts + [t];
    assert all[|ts|] == t;
    forall i | 0 <= i < |all| ensures Follows(all, i) {
      if i < |ts| { assert Follows(ts, i) && all[i] == ts[i]; }
    }
  }

  /** Every slot's trace is an unbroken chain from nothing to its stored state. */
  lemma {:induction false} TraceIsChain(os: seq<Observation>, slot: Slot)
    ensures Chain(Trace(os, slot)) && EndsAt(Trace(os, slot), Db(os), slot)
  {
    if os != [] {
      var before, o := os[..|os| - 1], os[|os| - 1];
      TraceIsChain(before, slot);
      TraceUnroll(os, slot);
      if o.slot == slot && Changed(Db(before), o) {
        ChainAppend(Trace(before, slot), Transition(slot, Prior(Db(before), slot), o.merged));
      }
    }
  }

  /** The trace visits exactly the states at which the slot's observed series changes. */
  function Series(os: seq<Observation>, slot: Slot): seq<string> {
    if os == [] then []
    else
      var before := Series(os[..|os| - 1], slot);
      if os[|os| - 1].slot == slot then before + [os[|os| - 1].merged.state] else before
  }

  function Compressed(states: seq<string>): seq<string> {
    if states == [] then []
    else
      var before, s := Compressed(states[..|states| - 1]), states[|states| - 1];
      if before != [] && before[|before| - 1] == s then before else before + [s]
  }

  function NewStates(ts: seq<Transition>): seq<string> {
    seq(|ts|, i requires 0 <= i < |ts| => ts[i].merged.state)
  }

  lemma CompressedAppend(states: seq<string>, s: string)
    ensures var before := Compressed(states);
            Compressed(states + [s]) ==
              if before != [] && before[|before| - 1] == s then before else before + [s]
  {
    assert (states + [s])[..|states|] == states;
  }

  lemma NewStatesAppend(ts: seq<Transition>, t: Transition)
    ensures NewStates(ts + [t]) == NewStates(ts) + [t.merged.state]
  {
  }

  /** Whether an observation moves the slot, told from the trace so far. */
  lemma MovesIffNewState(ts: seq<Transition>, db: map<Slot, Stored>, o: Observation)
    requires EndsAt(ts, db, o.slot)
    ensures Changed(db, o) <==> !(ts != [] && ts[|ts| - 1].merged.state == o.merged.state)
  {
  }

  /** One more observation of the slot, when its trace so far is `before`. */
  lemma TraceStep(os: seq<Observation>, slot: Slot)
    requires os != []
    ensures var before, o := Trace(os[..|os| - 1], slot), os[|os| - 1];
            NewStates(Trace(os, slot)) ==
              if o.slot == slot && !(before != [] && before[|before| - 1].merged.state == o.merged.state)
              then NewStates(before) + [o.merged.state] else NewStates(before)
  {
    var before, o := os[..|os| - 1], os[|os| - 1];
    var ts, db := Trace(before, slot), Db(before);
    TraceIsChain(before, slot);
    TraceUnroll(os, slot);
    if o.slot == slot {
      MovesIffNewState(ts, db, o);
      NewStatesAppend(ts, Transition(slot, Prior(db, slot), o.merged));
    }
  }

  lemma CompressStep(ts: seq<Transition>, states: seq<string>, s: string)
    requires NewStates(ts) == Compressed(states)
    ensures Compressed(states + [s]) ==
              if ts != [] && ts[|ts| - 1].merged.state == s then NewStates(ts) else NewStates(ts) + [s]
  {
    var before := NewStates(ts);
    assert |before| == |ts|;
    if ts != [] { assert before[|before| - 1] == ts[|ts| - 1].merged.state; }
    CompressedAppend(states, s);
  }

  /** What is published is the series of observed states with repetitions removed. */
  lemma {:induction false} TraceCompressesSeries(os: seq<Observation>, slot: Slot)
    ensures NewStates(Trace(os, slot)) == Compressed(Series(os, slot))
  {
    if os != [] {
      var before := os[..|os| - 1];
      TraceCompressesSeries(before, slot);
      TraceStep(os, slot);
      CompressStep(Trace(before, slot), Series(before, slot), os[|os| - 1].merged.state);
    }
  }
}
