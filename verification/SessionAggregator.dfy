/** The collector's per-attacker command index with TTL eviction (decnet/collector/worker.py). */
module SessionAggregator {
  import opened Common

  datatype Kind = Command(text: string) | SessionRecorded(sid: string, duration: real) | Other
  datatype Event = Event(ip: string, ts: Option<real>, kind: Kind)

  datatype Cmd = Cmd(ts: real, text: string)

  /** `{sid}#{idx}` when there is a session id, else the address and the time. */
  datatype EntryId = BySession(text: string) | ByTime(ip: string, ts: real)
  datatype Entry = Entry(id: EntryId, cmd: Cmd)
  datatype Envelope = Envelope(ip: string, sid: string, endedAt: real, duration: real, commands: seq<Entry>)

  /** Events that reach the index: a known address and a timestamp that parsed. */
  predicate Indexed(e: Event) {
    e.ip != "" && e.ip != "Unknown" && e.ts.Some?
  }

  function Decimal(n: nat): string {
    (if n < 10 then "" else Decimal(n / 10)) + [(n % 10 + '0' as int) as char]
  }

  function IdFor(ip: string, sid: string, idx: nat, ts: real): EntryId {
    if sid != "" then BySession(sid + "#" + Decimal(idx)) else ByTime(ip, ts)
  }

  /** The commands at or after `cutoff`, in order. */
  function Since(cmds: seq<Cmd>, cutoff: real): seq<Cmd> {
    if cmds == [] then []
    else
      var m := |cmds| - 1;
      var kept := Since(cmds[..m], cutoff);
      if cmds[m].ts >= cutoff then kept + [cmds[m]] else kept
  }

  function At(index: map<string, seq<Cmd>>, ip: string): seq<Cmd> {
    if ip in index then index[ip] else []
  }

  function Evicted(index: map<string, seq<Cmd>>, cutoff: real): map<string, seq<Cmd>> {
    map ip | ip in index && Since(index[ip], cutoff) != [] :: Since(index[ip], cutoff)
  }

  function Entries(window: seq<Cmd>, lo: real, ip: string, sid: string): seq<Entry> {
    if window == [] then []
    else
      var m := |window| - 1;
      var kept := Entries(window[..m], lo, ip, sid);
      if window[m].ts < lo then kept else kept + [Entry(IdFor(ip, sid, m, window[m].ts), window[m])]
  }

  datatype State = State(index: map<string, seq<Cmd>>, published: seq<Envelope>)

  function Next(ttl: real, s: State, e: Event): State {
    if !Indexed(e) then s
    else
      var now := e.ts.value;
      var index := Evicted(s.index, now - ttl);
      match e.kind
      case Command(text) => s.(index := index[e.ip := At(index, e.ip) + [Cmd(now, text)]])
      case SessionRecorded(sid, duration) =>
        var commands := Entries(At(index, e.ip), now - MaxReal(duration, 0.0), e.ip, sid);
        State(index, s.published + [Envelope(e.ip, sid, now, duration, commands)])
      case Other => s.(index := index)
  }

  class Aggregator {
    const ttl: real
    var index: map<string, seq<Cmd>>
    var published: seq<Envelope>

    constructor (ttl: real)
      ensures this.ttl == ttl && index == map[] && published == []
    {
      this.ttl := ttl;
      index, published := map[], [];
    }

    method EvictExpired(now: real)
      modifies this`index
      ensures index == Evicted(old(index), now - ttl)
    {
      var cutoff := now - ttl;
      var todo := index.Keys;
      while todo != {}
        invariant todo <= old(index).Keys
        invariant forall ip | ip in todo :: ip in index && index[ip] == old(index)[ip]
        invariant forall ip | ip !in todo :: ip in index <==> ip in Evicted(old(index), cutoff)
        invariant forall ip | ip !in todo && ip in index :: index[ip] == Evicted(old(index), cutoff)[ip]
        decreases todo
      {
        var ip :| ip in todo;
        var kept := Since(index[ip], cutoff);
        index := if kept != [] then index[ip := kept] else index - {ip};
        todo := todo - {ip};
      }
    }

    method EmitSession(ip: string, sid: string, duration: real, endedAt: real)
      modifies this`published
      ensures published == old(published) +
              [Envelope(ip, sid, endedAt, duration, Entries(At(index, ip), endedAt - MaxReal(duration, 0.0), ip, sid))]
    {
      var window := At(index, ip);
      var lo := endedAt - MaxReal(duration, 0.0);
      var commands: seq<Entry> := [];
      for idx := 0 to |window|
        invariant commands == Entries(window[..idx], lo, ip, sid)
      {
        assert window[..idx + 1][..idx] == window[..idx];
        if window[idx].ts < lo { continue; }
        commands := commands + [Entry(IdFor(ip, sid, idx, window[idx].ts), window[idx])];
      }
      assert window[..|window|] == window;
      published := published + [Envelope(ip, sid, endedAt, duration, commands)];
    }

    /** `add_event`. */
    method AddEvent(e: Event)
      modifies this
      ensures State(index, published) == Next(ttl, State(old(index), old(published)), e)
    {
      if e.ip == "" || e.ip == "Unknown" { return; }
      if e.ts.None? { return; }
      var now := e.ts.value;
      EvictExpired(now);
      match e.kind {
        case Command(text) => index := index[e.ip := At(index, e.ip) + [Cmd(now, text)]];
        case SessionRecorded(sid, duration) => EmitSession(e.ip, sid, duration, now);
        case Other =>
      }
    }
  }

  // ---------- runs ----------

  function Run(ttl: real, events: seq<Event>): State {
    if events == [] then State(map[], [])
    else Next(ttl, Run(ttl, events[..|events| - 1]), events[|events| - 1])
  }

  /** Every command ever indexed for `ip`, in arrival order. */
  function History(events: seq<Event>, ip: string): seq<Cmd> {
    if events == [] then []
    else
      var e, before := events[|events| - 1], History(events[..|events| - 1], ip);
      if ip != "" && ip != "Unknown" && e.ip == ip && e.ts.Some? && e.kind.Command?
      then before + [Cmd(e.ts.value, e.kind.text)] else before
  }

  predicate Monotone(events: seq<Event>) {
    forall i, j | 0 <= i < j < |events| && Indexed(events[i]) && Indexed(events[j]) ::
      events[i].ts.value <= events[j].ts.value
  }

  /** No indexed event is later than `now`. */
  predicate UpTo(events: seq<Event>, now: real) {
    forall i | 0 <= i < |events| && Indexed(events[i]) :: events[i].ts.value <= now
  }

  lemma SinceAppend(cmds: seq<Cmd>, c: Cmd, cutoff: real)
    ensures Since(cmds + [c], cutoff) == if c.ts >= cutoff then Since(cmds, cutoff) + [c] else Since(cmds, cutoff)
  {
    assert (cmds + [c])[..|cmds|] == cmds;
  }

  lemma {:induction false} SinceTwice(cmds: seq<Cmd>, a: real, b: real)
    ensures Since(Since(cmds, a), b) == Since(cmds, MaxReal(a, b))
  {
    if cmds != [] {
      var m := |cmds| - 1;
      SinceTwice(cmds[..m], a, b);
      if cmds[m].ts >= a { SinceAppend(Since(cmds[..m], a), cmds[m], b); }
    }
  }

  /** What one event leaves indexed for `ip`. */
  lemma NextAt(ttl: real, s: State, e: Event, ip: string)
    requires Indexed(e)
    ensures var kept := Since(At(s.index, ip), e.ts.value - ttl);
            At(Next(ttl, s, e).index, ip) ==
              if e.ip == ip && e.kind.Command? then kept + [Cmd(e.ts.value, e.kind.text)] else kept
  {
  }

  // ---------- envelopes ----------

  function Commands(entries: seq<Entry>): seq<Cmd> {
    seq(|entries|, i requires 0 <= i < |entries| => entries[i].cmd)
  }

  lemma {:induction false} EntriesAreSince(window: seq<Cmd>, lo: real, ip: string, sid: string)
    ensures Commands(Entries(window, lo, ip, sid)) == Since(window, lo)
  {
    if window != [] { EntriesAreSince(window[..|window| - 1], lo, ip, sid); }
  }

  lemma {:induction false} DecimalInjective(a: nat, b: nat)
    requires Decimal(a) == Decimal(b)
    ensures a == b
    decreases a
  {
    var u, v := Decimal(a), Decimal(b);
    assert u[|u| - 1] == v[|v| - 1];
    assert a % 10 == b % 10;
    assert u[..|u| - 1] == v[..|v| - 1];
    if a >= 10 && b >= 10 {
      assert Decimal(a / 10) == u[..|u| - 1] && Decimal(b / 10) == v[..|v| - 1];
      DecimalInjective(a / 10, b / 10);
    }
  }

  lemma SessionIdsDiffer(ip: string, sid: string, i: nat, j: nat, t: real, u: real)
    requires sid != "" && i != j
    ensures IdFor(ip, sid, i, t) != IdFor(ip, sid, j, u)
  {
    if IdFor(ip, sid, i, t) == IdFor(ip, sid, j, u) {
      var head := sid + "#";
      assert (head + Decimal(i))[|head|..] == Decimal(i) && (head + Decimal(j))[|head|..] == Decimal(j);
      DecimalInjective(i, j);
    }
  }

  predicate Distinct(entries: seq<Entry>) {
    forall i, j | 0 <= i < j < |entries| :: entries[i].id != entries[j].id
  }

  /** Ids of entries come from positions below the window's length, each used once. */
  lemma {:induction false} EntriesDistinct(window: seq<Cmd>, lo: real, ip: string, sid: string)
    requires sid != ""
    ensures Distinct(Entries(window, lo, ip, sid))
    ensures forall e | e in Entries(window, lo, ip, sid) ::
              exists i: nat, t: real :: i < |window| && e.id == IdFor(ip, sid, i, t)
  {
    if window != [] {
      var m := |window| - 1;
      EntriesDistinct(window[..m], lo, ip, sid);
      var rest := Entries(window[..m], lo, ip, sid);
      if window[m].ts >= lo {
        var last := Entry(IdFor(ip, sid, m, window[m].ts), window[m]);
        forall k | 0 <= k < |rest| ensures rest[k].id != last.id {
          assert rest[k] in rest;
          var i: nat, t: real :| i < m && rest[k].id == IdFor(ip, sid, i, t);
          SessionIdsDiffer(ip, sid, i, m, t, window[m].ts);
        }
        assert last.id == IdFor(ip, sid, m, window[m].ts);
      }
    }
  }

  lemma EmittedNotLater(entries: seq<Entry>, all: seq<Cmd>, cutoff: real, now: real)
    requires Commands(entries) == Since(all, cutoff) && forall c | c in all :: c.ts <= now
    ensures forall c | c in entries :: c.cmd.ts <= now
  {
    SinceSubset(all, cutoff);
    forall c | c in entries ensures c.cmd.ts <= now {
      var i :| 0 <= i < |entries| && entries[i] == c;
      assert Commands(entries)[i] == c.cmd;
    }
  }

  /** The last event is a `session_recorded` of a known address with a timestamp. */
  predicate EndsSession(events: seq<Event>) {
    && events != []
    && var e := events[|events| - 1];
    e.ip != "" && e.ip != "Unknown" && e.ts.Some? && e.kind.SessionRecorded?
  }

  /** The entries that a `session_recorded` event publishes. */
  function Emitted(ttl: real, events: seq<Event>): seq<Entry>
    requires EndsSession(events)
  {
    var out := Run(ttl, events).published;
    if out == [] then [] else out[|out| - 1].commands
  }

  lemma EmittedFrom(ttl: real, events: seq<Event>)
    requires EndsSession(events)
    ensures var before, e := events[..|events| - 1], events[|events| - 1];
            var now := e.ts.value;
            && Run(ttl, events).published ==
                 Run(ttl, before).published + [Envelope(e.ip, e.kind.sid, now, e.kind.duration, Emitted(ttl, events))]
            && Emitted(ttl, events) == Entries(Since(At(Run(ttl, before).index, e.ip), now - ttl),
                                               now - MaxReal(e.kind.duration, 0.0), e.ip, e.kind.sid)
  {
    var before, e := events[..|events| - 1], events[|events| - 1];
  }

  lemma {:induction false} HistoryUpTo(events: seq<Event>, ip: string, now: real)
    requires UpTo(events, now)
    ensures forall c | c in History(events, ip) :: c.ts <= now
  {
    if events != [] { HistoryUpTo(events[..|events| - 1], ip, now); }
  }

  lemma {:induction false} SinceSubset(cmds: seq<Cmd>, cutoff: real)
    ensures forall c | c in Since(cmds, cutoff) :: c in cmds
  {
    if cmds != [] { SinceSubset(cmds[..|cmds| - 1], cutoff); }
  }

  // ---------- timestamps in any order ----------

  predicate IsCommandOf(e: Event, ip: string) {
    Indexed(e) && e.ip == ip && e.kind.Command?
  }

  /** No indexed event after position `j` was more than a TTL later than the command there. */
  predicate Stays(ttl: real, events: seq<Event>, j: nat)
    requires j < |events| && Indexed(events[j])
  {
    forall i | j < i < |events| && Indexed(events[i]) :: events[j].ts.value >= events[i].ts.value - ttl
  }

  /** Those of the first `k` events that are commands of `ip` and stay, in order. */
  function Staying(ttl: real, events: seq<Event>, k: nat, ip: string): seq<Cmd>
    requires k <= |events|
  {
    if k == 0 then []
    else
      var before, e := Staying(ttl, events, k - 1, ip), events[k - 1];
      if IsCommandOf(e, ip) && Stays(ttl, events, k - 1) then before + [Cmd(e.ts.value, e.kind.text)] else before
  }

  lemma StaysStep(ttl: real, before: seq<Event>, e: Event, j: nat)
    requires j < |before| && Indexed(before[j])
    ensures Stays(ttl, before + [e], j) <==>
              Stays(ttl, before, j) && (Indexed(e) ==> before[j].ts.value >= e.ts.value - ttl)
  {
    var events := before + [e];
    assert events[j] == before[j] && events[|before|] == e;
    assert forall i | 0 <= i < |before| :: events[i] == before[i];
  }

  lemma {:induction false} StayingStep(ttl: real, before: seq<Event>, e: Event, k: nat, ip: string)
    requires k <= |before|
    ensures Staying(ttl, before + [e], k, ip) ==
              if Indexed(e) then Since(Staying(ttl, before, k, ip), e.ts.value - ttl) else Staying(ttl, before, k, ip)
  {
    if k > 0 {
      StayingStep(ttl, before, e, k - 1, ip);
      assert (before + [e])[k - 1] == before[k - 1];
      if IsCommandOf(before[k - 1], ip) {
        StaysStep(ttl, before, e, k - 1);
        if Indexed(e) {
          var c := Cmd(before[k - 1].ts.value, before[k - 1].kind.text);
          SinceAppend(Staying(ttl, before, k - 1, ip), c, e.ts.value - ttl);
        }
      }
    }
  }

  /** The index is exactly the commands that stay, whatever the order of the timestamps. */
  lemma {:induction false} IndexIsStaying(ttl: real, events: seq<Event>, ip: string)
    ensures At(Run(ttl, events).index, ip) == Staying(ttl, events, |events|, ip)
  {
    if events != [] {
      var before, e := events[..|events| - 1], events[|events| - 1];
      assert events == before + [e];
      IndexIsStaying(ttl, before, ip);
      StayingStep(ttl, before, e, |before|, ip);
      if Indexed(e) { NextAt(ttl, Run(ttl, before), e, ip); }
    }
  }

  lemma KeptIsStaying(ttl: real, before: seq<Event>, e: Event)
    requires Indexed(e)
    ensures Since(At(Run(ttl, before).index, e.ip), e.ts.value - ttl) == Staying(ttl, before + [e], |before|, e.ip)
  {
    IndexIsStaying(ttl, before, e.ip);
    StayingStep(ttl, before, e, |before|, e.ip);
  }

  lemma EmittedFromStaying(ttl: real, events: seq<Event>)
    requires EndsSession(events)
    ensures var e := events[|events| - 1];
            Emitted(ttl, events) == Entries(Staying(ttl, events, |events| - 1, e.ip),
                                            e.ts.value - MaxReal(e.kind.duration, 0.0), e.ip, e.kind.sid)
  {
    var before, e := events[..|events| - 1], events[|events| - 1];
    assert events == before + [e];
    KeptIsStaying(ttl, before, e);
    EmittedFrom(ttl, events);
  }

  /** An envelope without any assumption on the timestamps: exactly the commands of the address
      inside the session's duration after which no event came that was a TTL ahead of them. */
  lemma EnvelopeInAnyOrder(ttl: real, events: seq<Event>)
    requires EndsSession(events)
    ensures var e := events[|events| - 1];
            Commands(Emitted(ttl, events)) ==
              Since(Staying(ttl, events, |events| - 1, e.ip), e.ts.value - MaxReal(e.kind.duration, 0.0))
  {
    var e := events[|events| - 1];
    EmittedFromStaying(ttl, events);
    var kept := Staying(ttl, events, |events| - 1, e.ip);
    EntriesAreSince(kept, e.ts.value - MaxReal(e.kind.duration, 0.0), e.ip, e.kind.sid);
  }

  // ---------- timestamps that do not decrease ----------

  /** Then a command stays exactly when the last event is not a TTL ahead of it. */
  lemma {:induction false} StayingIsRecent(ttl: real, events: seq<Event>, k: nat, ip: string)
    requires EndsSession(events) && Monotone(events) && k < |events|
    ensures Staying(ttl, events, k, ip) == Since(History(events[..k], ip), events[|events| - 1].ts.value - ttl)
  {
    if k > 0 {
      var m, e, last := k - 1, events[k - 1], events[|events| - 1];
      StayingIsRecent(ttl, events, m, ip);
      assert events[..k][..m] == events[..m] && events[..k][m] == e;
      if IsCommandOf(e, ip) {
        assert Stays(ttl, events, m) <==> e.ts.value >= last.ts.value - ttl by { assert Indexed(last); }
        SinceAppend(History(events[..m], ip), Cmd(e.ts.value, e.kind.text), last.ts.value - ttl);
      }
    }
  }

  lemma CappedSince(all: seq<Cmd>, now: real, span: real, ttl: real)
    ensures Since(Since(all, now - ttl), now - span) == Since(all, now - MinReal(span, ttl))
  {
    SinceTwice(all, now - ttl, now - span);
    assert MaxReal(now - ttl, now - span) == now - MinReal(span, ttl);
  }

  /** The commands alone. */
  lemma EmittedIsExact(ttl: real, events: seq<Event>)
    requires EndsSession(events) && Monotone(events)
    ensures var before, e := events[..|events| - 1], events[|events| - 1];
            Commands(Emitted(ttl, events)) ==
              Since(History(before, e.ip), e.ts.value - MinReal(MaxReal(e.kind.duration, 0.0), ttl))
  {
    var m, e := |events| - 1, events[|events| - 1];
    var span, kept, all := MaxReal(e.kind.duration, 0.0), Staying(ttl, events, m, e.ip), History(events[..m], e.ip);
    assert Commands(Emitted(ttl, events)) == Since(kept, e.ts.value - span) by { EnvelopeInAnyOrder(ttl, events); }
    assert kept == Since(all, e.ts.value - ttl) by { StayingIsRecent(ttl, events, m, e.ip); }
    CappedSince(all, e.ts.value, span, ttl);
  }

  lemma HistoryNotLater(events: seq<Event>)
    requires EndsSession(events) && Monotone(events)
    ensures var before, e := events[..|events| - 1], events[|events| - 1];
            forall c | c in History(before, e.ip) :: c.ts <= e.ts.value
  {
    var before, e := events[..|events| - 1], events[|events| - 1];
    assert UpTo(before, e.ts.value);
    HistoryUpTo(before, e.ip, e.ts.value);
  }

  lemma EmittedDistinct(ttl: real, events: seq<Event>)
    requires EndsSession(events) && events[|events| - 1].kind.sid != ""
    ensures Distinct(Emitted(ttl, events))
  {
    var before, e := events[..|events| - 1], events[|events| - 1];
    var now := e.ts.value;
    EmittedFrom(ttl, events);
    var kept := Since(At(Run(ttl, before).index, e.ip), now - ttl);
    EntriesDistinct(kept, now - MaxReal(e.kind.duration, 0.0), e.ip, e.kind.sid);
  }

  /** An envelope lists exactly the commands of its address in the whole history that are no older
      than the session's duration, capped by the TTL, in arrival order and with distinct ids. */
  lemma EnvelopeIsExact(ttl: real, events: seq<Event>)
    requires EndsSession(events) && Monotone(events)
    ensures var before, e := events[..|events| - 1], events[|events| - 1];
            var now, duration := e.ts.value, e.kind.duration;
            var emitted := Emitted(ttl, events);
            && Run(ttl, events).published ==
                 Run(ttl, before).published + [Envelope(e.ip, e.kind.sid, now, duration, emitted)]
            && Commands(emitted) == Since(History(before, e.ip), now - MinReal(MaxReal(duration, 0.0), ttl))
            && (e.kind.sid != "" ==> Distinct(emitted))
            && (forall c | c in emitted :: c.cmd.ts <= now)
  {
    var before, e := events[..|events| - 1], events[|events| - 1];
    var now, cutoff := e.ts.value, e.ts.value - MinReal(MaxReal(e.kind.duration, 0.0), ttl);
    EmittedIsExact(ttl, events);
    HistoryNotLater(events);
    EmittedFrom(ttl, events);
    EmittedNotLater(Emitted(ttl, events), History(before, e.ip), cutoff, now);
    if e.kind.sid != "" { EmittedDistinct(ttl, events); }
  }

  // ---------- the documented window ----------

  /** What the documentation puts into an envelope: the commands of the address between
      `ended_at - duration` and `ended_at`, and so none for a negative duration. */
  function Documented(events: seq<Event>): seq<Cmd>
    requires EndsSession(events)
  {
    var e := events[|events| - 1];
    var now := e.ts.value;
    Between(History(events[..|events| - 1], e.ip), now - e.kind.duration, now)
  }

  function Between(cmds: seq<Cmd>, lo: real, hi: real): seq<Cmd> {
    if cmds == [] then []
    else
      var m := |cmds| - 1;
      var kept := Between(cmds[..m], lo, hi);
      if lo <= cmds[m].ts <= hi then kept + [cmds[m]] else kept
  }

  lemma {:induction false} BetweenUpTo(cmds: seq<Cmd>, lo: real, hi: real)
    requires forall c | c in cmds :: c.ts <= hi
    ensures Between(cmds, lo, hi) == Since(cmds, lo)
  {
    if cmds != [] {
      var m := |cmds| - 1;
      assert cmds[m] in cmds;
      BetweenUpTo(cmds[..m], lo, hi);
    }
  }

  /** Raising the cutoff loses something exactly when a command lies in between. */
  lemma {:induction false} SinceSameIff(cmds: seq<Cmd>, lo: real, later: real)
    requires lo <= later
    ensures |Since(cmds, later)| <= |Since(cmds, lo)|
    ensures Since(cmds, later) == Since(cmds, lo) <==> forall c | c in cmds :: !(lo <= c.ts < later)
  {
    if cmds != [] {
      var m := |cmds| - 1;
      SinceSameIff(cmds[..m], lo, later);
      assert cmds == cmds[..m] + [cmds[m]];
      if Since(cmds, later) == Since(cmds, lo) && cmds[m].ts >= later {
        assert Since(cmds, later)[..|Since(cmds, later)| - 1] == Since(cmds[..m], later);
      }
    }
  }

  lemma {:induction false} BetweenNothing(cmds: seq<Cmd>, lo: real, hi: real)
    requires hi < lo
    ensures Between(cmds, lo, hi) == []
  {
    if cmds != [] { BetweenNothing(cmds[..|cmds| - 1], lo, hi); }
  }

  lemma {:induction false} SinceNothingIff(cmds: seq<Cmd>, lo: real)
    ensures Since(cmds, lo) == [] <==> forall c | c in cmds :: c.ts < lo
  {
    if cmds != [] {
      SinceNothingIff(cmds[..|cmds| - 1], lo);
      assert cmds == cmds[..|cmds| - 1] + [cmds[|cmds| - 1]];
    }
  }

  /** The condition below, for one command of the address. */
  predicate Unaffected(c: Cmd, now: real, duration: real, ttl: real) {
    if duration >= 0.0 then !(now - duration <= c.ts < now - ttl) else c.ts < now - MinReal(0.0, ttl)
  }

  lemma CappedIsWindowIff(all: seq<Cmd>, now: real, duration: real, ttl: real)
    requires forall c | c in all :: c.ts <= now
    ensures Since(all, now - MinReal(MaxReal(duration, 0.0), ttl)) == Between(all, now - duration, now)
            <==> forall c | c in all :: Unaffected(c, now, duration, ttl)
  {
    if duration < 0.0 {
      BetweenNothing(all, now - duration, now);
      SinceNothingIff(all, now - MinReal(0.0, ttl));
    } else {
      var lo := now - duration;
      BetweenUpTo(all, lo, now);
      SinceSameIff(all, lo, MaxReal(lo, now - ttl));
      assert now - MinReal(MaxReal(duration, 0.0), ttl) == MaxReal(lo, now - ttl);
    }
  }

  /** Timestamps that do not decrease: the envelope is as documented exactly when no command of the
      address lies in the duration but before the TTL; for a negative duration, exactly when
      nothing is left for the empty window that the code makes of it. */
  lemma DocumentedIffWithinTtl(ttl: real, events: seq<Event>)
    requires EndsSession(events) && Monotone(events)
    ensures var before, e := events[..|events| - 1], events[|events| - 1];
            Commands(Emitted(ttl, events)) == Documented(events) <==>
              forall c | c in History(before, e.ip) :: Unaffected(c, e.ts.value, e.kind.duration, ttl)
  {
    var before, e := events[..|events| - 1], events[|events| - 1];
    EmittedIsExact(ttl, events);
    HistoryNotLater(events);
    CappedIsWindowIff(History(before, e.ip), e.ts.value, e.kind.duration, ttl);
  }

  /** The window of a session: the code looks from `lo` on, the documentation from `start` to `now`. */
  datatype Window = Window(lo: real, start: real, now: real) {
    predicate Has(ts: real) { start <= ts <= now }
  }

  function WindowOf(e: Event): (w: Window)
    requires Indexed(e) && e.kind.SessionRecorded?
    ensures w.lo <= w.start
  {
    var now, duration := e.ts.value, e.kind.duration;
    Window(now - MaxReal(duration, 0.0), now - duration, now)
  }

  /** The command at `j` is indexed when it should be: it stays if it belongs into the window, and
      is gone if the code would list it although it does not. */
  predicate KeptAsDue(ttl: real, events: seq<Event>, j: nat, ip: string, w: Window)
    requires j < |events|
  {
    IsCommandOf(events[j], ip) && w.lo <= events[j].ts.value ==> (Stays(ttl, events, j) <==> w.Has(events[j].ts.value))
  }

  predicate AllKeptAsDue(ttl: real, events: seq<Event>, k: nat, ip: string, w: Window)
    requires k <= |events|
  {
    forall j | 0 <= j < k :: KeptAsDue(ttl, events, j, ip, w)
  }

  /** What the first `k` events put into the emission, and into the documented window. */
  function EmittedOf(ttl: real, events: seq<Event>, k: nat, ip: string, w: Window): seq<Cmd>
    requires k <= |events|
  {
    Since(Staying(ttl, events, k, ip), w.lo)
  }

  function DocumentedOf(events: seq<Event>, k: nat, ip: string, w: Window): seq<Cmd>
    requires k <= |events|
  {
    Between(History(events[..k], ip), w.start, w.now)
  }

  /** Both, one event further. */
  lemma WindowStep(ttl: real, events: seq<Event>, k: nat, ip: string, w: Window)
    requires k < |events| && w.lo <= w.start
    ensures var e, was, doc := events[k], EmittedOf(ttl, events, k, ip, w), DocumentedOf(events, k, ip, w);
            if IsCommandOf(e, ip) && w.lo <= e.ts.value then
              var c := Cmd(e.ts.value, e.kind.text);
              && EmittedOf(ttl, events, k + 1, ip, w) == (if Stays(ttl, events, k) then was + [c] else was)
              && DocumentedOf(events, k + 1, ip, w) == (if w.Has(c.ts) then doc + [c] else doc)
            else EmittedOf(ttl, events, k + 1, ip, w) == was && DocumentedOf(events, k + 1, ip, w) == doc
  {
    var e := events[k];
    assert events[..k + 1][..k] == events[..k] && events[..k + 1][k] == e;
    if IsCommandOf(e, ip) {
      var c := Cmd(e.ts.value, e.kind.text);
      SinceAppend(Staying(ttl, events, k, ip), c, w.lo);
    }
  }

  lemma {:induction false} DueMeansEqual(ttl: real, events: seq<Event>, k: nat, ip: string, w: Window)
    requires k <= |events| && w.lo <= w.start && AllKeptAsDue(ttl, events, k, ip, w)
    ensures EmittedOf(ttl, events, k, ip, w) == DocumentedOf(events, k, ip, w)
  {
    if k > 0 {
      assert KeptAsDue(ttl, events, k - 1, ip, w);
      DueMeansEqual(ttl, events, k - 1, ip, w);
      var was, doc := EmittedOf(ttl, events, k - 1, ip, w), DocumentedOf(events, k - 1, ip, w);
      assert was == doc;
      WindowStep(ttl, events, k - 1, ip, w);
    }
  }

  /** What is emitted inside the window is never more than what is documented. */
  predicate Counted(was: seq<Cmd>, doc: seq<Cmd>, w: Window) {
    |Between(was, w.start, w.now)| <= |doc| && forall c | c in doc :: w.Has(c.ts)
  }

  /** Something of the window is not emitted, or something outside it is. */
  predicate Differs(was: seq<Cmd>, doc: seq<Cmd>, w: Window) {
    |Between(was, w.start, w.now)| < |doc| || exists c | c in was :: !w.Has(c.ts)
  }

  lemma {:induction false} WindowCounts(ttl: real, events: seq<Event>, k: nat, ip: string, w: Window)
    requires k <= |events| && w.lo <= w.start
    ensures Counted(EmittedOf(ttl, events, k, ip, w), DocumentedOf(events, k, ip, w), w)
    ensures !AllKeptAsDue(ttl, events, k, ip, w) ==>
              Differs(EmittedOf(ttl, events, k, ip, w), DocumentedOf(events, k, ip, w), w)
  {
    if k > 0 {
      var m, e := k - 1, events[k - 1];
      WindowCounts(ttl, events, m, ip, w);
      WindowStep(ttl, events, m, ip, w);
      assert AllKeptAsDue(ttl, events, k, ip, w) <==>
          AllKeptAsDue(ttl, events, m, ip, w) && KeptAsDue(ttl, events, m, ip, w);
    }
  }

  lemma {:induction false} BetweenAll(cmds: seq<Cmd>, lo: real, hi: real)
    requires forall c | c in cmds :: lo <= c.ts <= hi
    ensures Between(cmds, lo, hi) == cmds
  {
    if cmds != [] {
      var m := |cmds| - 1;
      BetweenAll(cmds[..m], lo, hi);
      assert cmds == cmds[..m] + [cmds[m]] && cmds[m] in cmds;
    }
  }

  /** Timestamps in any order: the envelope is as documented exactly when every command of the
      address that the code would list is still indexed if and only if it lies in the window. */
  lemma DocumentedIffKeptAsDue(ttl: real, events: seq<Event>)
    requires EndsSession(events)
    ensures var e := events[|events| - 1];
            Commands(Emitted(ttl, events)) == Documented(events) <==>
              AllKeptAsDue(ttl, events, |events| - 1, e.ip, WindowOf(e))
  {
    var k, e := |events| - 1, events[|events| - 1];
    var w := WindowOf(e);
    EnvelopeInAnyOrder(ttl, events);
    WindowCounts(ttl, events, k, e.ip, w);
    var was, doc := EmittedOf(ttl, events, k, e.ip, w), DocumentedOf(events, k, e.ip, w);
    assert Commands(Emitted(ttl, events)) == was && Documented(events) == doc;
    if was == doc {
      BetweenAll(doc, w.start, w.now);
      assert !Differs(was, doc, w);
    } else if AllKeptAsDue(ttl, events, k, e.ip, w) {
      DueMeansEqual(ttl, events, k, e.ip, w);
    }
  }

  // ---------- runs that are not as documented ----------

  /** A command and a session's end, in this order. */
  function CommandThenEnd(ip: string, text: string, sid: string, at: real, end: real, duration: real): seq<Event> {
    [Event(ip, Some(at), Command(text)), Event(ip, Some(end), SessionRecorded(sid, duration))]
  }

  /** For every TTL: a session that lasted longer loses its first command. */
  lemma LongSessionIsCut(ttl: real, ip: string, text: string, sid: string)
    requires ttl >= 0.0 && ip != "" && ip != "Unknown"
    ensures var events := CommandThenEnd(ip, text, sid, 0.0, ttl + 1.0, ttl + 1.0);
            Monotone(events) && Commands(Emitted(ttl, events)) != Documented(events)
  {
    var events := CommandThenEnd(ip, text, sid, 0.0, ttl + 1.0, ttl + 1.0);
    DocumentedIffKeptAsDue(ttl, events);
    assert !Stays(ttl, events, 0) by { assert Indexed(events[1]); }
    assert !KeptAsDue(ttl, events, 0, ip, WindowOf(events[1]));
  }

  /** For every TTL: a command stamped after the session's end that arrived before it is listed. */
  lemma LateCommandIsListed(ttl: real, ip: string, text: string, sid: string)
    requires ttl >= 0.0 && ip != "" && ip != "Unknown"
    ensures var events := CommandThenEnd(ip, text, sid, 1.0, 0.0, 0.0);
            Commands(Emitted(ttl, events)) != Documented(events)
  {
    var events := CommandThenEnd(ip, text, sid, 1.0, 0.0, 0.0);
    DocumentedIffKeptAsDue(ttl, events);
    assert Stays(ttl, events, 0);
    assert !KeptAsDue(ttl, events, 0, ip, WindowOf(events[1]));
  }

  /** For every TTL: a negative duration still lists a command stamped at the session's end. */
  lemma NegativeDurationLists(ttl: real, ip: string, text: string, sid: string)
    requires ttl >= 0.0 && ip != "" && ip != "Unknown"
    ensures var events := CommandThenEnd(ip, text, sid, 0.0, 0.0, -1.0);
            Monotone(events) && Commands(Emitted(ttl, events)) != Documented(events)
  {
    var events := CommandThenEnd(ip, text, sid, 0.0, 0.0, -1.0);
    DocumentedIffKeptAsDue(ttl, events);
    assert Stays(ttl, events, 0);
    assert !KeptAsDue(ttl, events, 0, ip, WindowOf(events[1]));
  }

  // ---------- what changes nothing, and ids ----------

  /** An event without a known address or a timestamp changes nothing. */
  lemma UnusableIgnored(ttl: real, events: seq<Event>)
    requires events != []
    requires var e := events[|events| - 1]; e.ip == "" || e.ip == "Unknown" || e.ts.None?
    ensures Run(ttl, events) == Run(ttl, events[..|events| - 1])
  {
  }

  /** Only a `session_recorded` publishes, and only one envelope. */
  lemma OnlySessionsPublish(ttl: real, events: seq<Event>)
    requires events != [] && !EndsSession(events)
    ensures Run(ttl, events).published == Run(ttl, events[..|events| - 1]).published
  {
  }

  predicate IsDigit(c: char) { '0' <= c <= '9' }

  /** The number that digits spell. */
  function ValueOf(digits: string): int {
    if digits == [] then 0
    else 10 * ValueOf(digits[..|digits| - 1]) + (digits[|digits| - 1] as int - '0' as int)
  }

  /** An index is written in decimal, without leading zeros. */
  lemma {:induction false} DecimalMeans(n: nat)
    ensures Decimal(n) != "" && ValueOf(Decimal(n)) == n
    ensures forall c | c in Decimal(n) :: IsDigit(c)
    ensures n > 0 ==> Decimal(n)[0] != '0'
  {
    var last := [(n % 10 + '0' as int) as char];
    if n < 10 {
      assert Decimal(n) == last && last[..0] == [];
      assert ValueOf(last) == 10 * ValueOf([]) + n;
    } else {
      DecimalMeans(n / 10);
      var head := Decimal(n / 10);
      assert Decimal(n) == head + last && (head + last)[..|head|] == head;
    }
  }

  /** Where the text splits: everything behind the last `#` is digits. */
  lemma LastHash(a: string, x: string, b: string, y: string)
    requires a + "#" + x == b + "#" + y && '#' !in x && '#' !in y
    ensures a == b && x == y
  {
    var whole := a + "#" + x;
    assert whole[|a|] == '#' && whole[|b|] == '#';
    assert forall k | |a| < k < |whole| :: whole[k] == x[k - |a| - 1] && whole[k] in x;
    assert forall k | |b| < k < |whole| :: whole[k] == y[k - |b| - 1] && whole[k] in y;
    assert whole[..|a|] == a && whole[..|b|] == b;
    assert whole[|a| + 1..] == x && whole[|b| + 1..] == y;
  }

  /** Ids of sessions with a name tell the session and the position apart; without one they are
      the address and the time. */
  lemma IdsTell(ip: string, sid: string, i: nat, t: real, ip': string, sid': string, j: nat, t': real)
    requires IdFor(ip, sid, i, t) == IdFor(ip', sid', j, t')
    ensures sid != "" ==> sid' == sid && i == j
    ensures sid == "" ==> sid' == "" && ip == ip' && t == t'
  {
    if sid != "" {
      DecimalMeans(i);
      DecimalMeans(j);
      LastHash(sid, Decimal(i), sid', Decimal(j));
      DecimalInjective(i, j);
    }
  }
}
