/** The collector's ingestion rate limiter with garbage collection (decnet/collector/worker.py). */
module RateLimiter {

  /** The four fields of a parsed event that the limiter reads; they are also its dedup key. */
  datatype Event = Event(attackerIp: string, decky: string, service: string, eventType: string)

  datatype Config = Config(window: real, limited: set<string>, dropApps: set<string>, maxEntries: nat)

  datatype Call = Call(event: Event, now: real)

  predicate Limited(cfg: Config, e: Event) {
    cfg.window > 0.0 && e.eventType in cfg.limited
  }

  function Last(last: map<Event, real>, e: Event): real {
    if e in last then last[e] else 0.0
  }

  /** The table after entries older than sixty windows were dropped, if it has outgrown the cap. */
  function Collected(cfg: Config, last: map<Event, real>, now: real): map<Event, real> {
    if |last| > cfg.maxEntries
    then map k | k in last && !(last[k] < now - cfg.window * 60.0) :: last[k]
    else last
  }

  predicate Accepts(cfg: Config, last: map<Event, real>, c: Call) {
    && c.event.service !in cfg.dropApps
    && (Limited(cfg, c.event) ==> !(c.now - Last(last, c.event) < cfg.window))
  }

  function Next(cfg: Config, last: map<Event, real>, c: Call): map<Event, real> {
    if Limited(cfg, c.event) && Accepts(cfg, last, c) then Collected(cfg, last[c.event := c.now], c.now) else last
  }

  class Limiter {
    const cfg: Config
    var last: map<Event, real>

    constructor (cfg: Config)
      ensures this.cfg == cfg && last == map[]
    {
      this.cfg := cfg;
      last := map[];
    }

    /** `_should_ingest`. */
    method ShouldIngest(event: Event, now: real) returns (ok: bool)
      modifies this
      ensures ok <==> Accepts(cfg, old(last), Call(event, now))
      ensures last == Next(cfg, old(last), Call(event, now))
    {
      if event.service in cfg.dropApps { return false; }
      if cfg.window <= 0.0 || event.eventType !in cfg.limited { return true; }
      if now - Last(last, event) < cfg.window { return false; }
      last := last[event := now];
      if |last| > cfg.maxEntries {
        var cutoff := now - cfg.window * 60.0;
        var grown := last;
        var stale := set k | k in last && last[k] < cutoff;
        while stale != {}
          invariant stale <= grown.Keys && forall k | k in stale :: grown[k] < cutoff
          invariant last == map k | k in grown && (k in stale || !(grown[k] < cutoff)) :: grown[k]
          decreases stale
        {
          var k :| k in stale;
          last := last - {k};
          stale := stale - {k};
        }
      }
      return true;
    }
  }

  // ---------- runs ----------

  /** The clock is read before the lock is taken, so in lock order readings can step back; none
      is more than 59 windows behind an earlier one. */
  predicate Steady(cfg: Config, calls: seq<Call>) {
    && (forall i | 0 <= i < |calls| :: calls[i].now >= 0.0)
    && (cfg.window > 0.0 ==>
          forall i, j | 0 <= i < j < |calls| :: calls[j].now >= calls[i].now - cfg.window * 59.0)
  }

  /** The evicting limiter's table after `calls`. */
  function Table(cfg: Config, calls: seq<Call>): map<Event, real> {
    if calls == [] then map[] else Next(cfg, Table(cfg, calls[..|calls| - 1]), calls[|calls| - 1])
  }

  /** The evicting limiter's decision on the last of `calls`. */
  predicate Decision(cfg: Config, calls: seq<Call>)
    requires calls != []
  {
    Accepts(cfg, Table(cfg, calls[..|calls| - 1]), calls[|calls| - 1])
  }

  /** The reference never forgets: when was `e` last accepted in the whole history, or 0? */
  function LastAccepted(cfg: Config, calls: seq<Call>, e: Event): real
    decreases |calls|, 1
  {
    if calls == [] then 0.0
    else if calls[|calls| - 1].event == e && Reference(cfg, calls) then calls[|calls| - 1].now
    else LastAccepted(cfg, calls[..|calls| - 1], e)
  }

  /** The reference's decision on the last of `calls`. */
  predicate Reference(cfg: Config, calls: seq<Call>)
    requires calls != []
    decreases |calls|, 0
  {
    var c := calls[|calls| - 1];
    && c.event.service !in cfg.dropApps
    && (cfg.window > 0.0 && c.event.eventType in cfg.limited ==>
          c.now - LastAccepted(cfg, calls[..|calls| - 1], c.event) >= cfg.window)
  }

  /** Some reading so far is more than sixty windows after `t`. */
  predicate LongAgo(cfg: Config, calls: seq<Call>, t: real) {
    exists i | 0 <= i < |calls| :: t < calls[i].now - cfg.window * 60.0
  }

  /** The table holds what the reference remembers, except where forgetting cannot matter. */
  ghost predicate Agrees(cfg: Config, calls: seq<Call>) {
    forall e: Event | Limited(cfg, e) :: AgreesOn(cfg, calls, e)
  }

  ghost predicate AgreesOn(cfg: Config, calls: seq<Call>, e: Event) {
    var table, t := Table(cfg, calls), LastAccepted(cfg, calls, e);
    && 0.0 <= t
    && (e in table ==> table[e] == t)
    && (e !in table ==> t == 0.0 || LongAgo(cfg, calls, t))
  }

  /** One more call: what is forgotten now was accepted long before this reading. */
  lemma AgreesNext(cfg: Config, calls: seq<Call>, e: Event)
    requires calls != [] && Steady(cfg, calls) && Limited(cfg, e)
    requires Agrees(cfg, calls[..|calls| - 1]) && (Decision(cfg, calls) <==> Reference(cfg, calls))
    ensures AgreesOn(cfg, calls, e)
  {
    var m := |calls| - 1;
    var before, c := calls[..m], calls[m];
    var t, t' := LastAccepted(cfg, before, e), LastAccepted(cfg, calls, e);
    assert AgreesOn(cfg, before, e);
    if LongAgo(cfg, before, t) {
      var i :| 0 <= i < |before| && t < before[i].now - cfg.window * 60.0;
      assert t < calls[i].now - cfg.window * 60.0;
    }
    if e !in Table(cfg, calls) && e in Table(cfg, before) {
      assert t' == t && t < calls[m].now - cfg.window * 60.0;
    }
  }

  lemma {:induction false} TableAgrees(cfg: Config, calls: seq<Call>)
    requires Steady(cfg, calls)
    ensures Agrees(cfg, calls)
  {
    if calls != [] {
      TableAgrees(cfg, calls[..|calls| - 1]);
      forall e: Event | Limited(cfg, e) ensures AgreesOn(cfg, calls, e) { AgreesNext(cfg, calls, e); }
    }
  }

  /** Garbage collection is invisible: every decision is the one an unbounded table would give. */
  lemma CollectionInvisible(cfg: Config, calls: seq<Call>)
    requires calls != [] && Steady(cfg, calls)
    ensures Decision(cfg, calls) <==> Reference(cfg, calls)
  {
    TableAgrees(cfg, calls[..|calls| - 1]);
  }

  lemma {:induction false} LastAcceptedAfter(cfg: Config, calls: seq<Call>, i: nat)
    requires i < |calls| && Limited(cfg, calls[i].event) && Reference(cfg, calls[..i + 1])
    ensures LastAccepted(cfg, calls, calls[i].event) >= calls[i].now
  {
    var m := |calls| - 1;
    if i == m {
      assert calls[..i + 1] == calls;
    } else {
      assert calls[..m][..i + 1] == calls[..i + 1];
      LastAcceptedAfter(cfg, calls[..m], i);
    }
  }

  lemma ReferenceApart(cfg: Config, calls: seq<Call>, i: nat)
    requires calls != [] && i < |calls| - 1 && calls[i].event == calls[|calls| - 1].event
    requires cfg.window > 0.0 && calls[i].event.eventType in cfg.limited
    requires Reference(cfg, calls[..i + 1]) && Reference(cfg, calls)
    ensures calls[|calls| - 1].now - calls[i].now >= cfg.window
  {
    var before := calls[..|calls| - 1];
    assert before[..i + 1] == calls[..i + 1] && before[i] == calls[i];
    LastAcceptedAfter(cfg, before, i);
  }

  /** Two accepted events of one rate-limited key are at least a window apart. */
  lemma AcceptedApart(cfg: Config, calls: seq<Call>, i: nat, j: nat)
    requires Steady(cfg, calls) && i < j < |calls|
    requires calls[i].event == calls[j].event && cfg.window > 0.0 && calls[i].event.eventType in cfg.limited
    requires Decision(cfg, calls[..i + 1]) && Decision(cfg, calls[..j + 1])
    ensures calls[j].now - calls[i].now >= cfg.window
  {
    CollectionInvisible(cfg, calls[..i + 1]);
    CollectionInvisible(cfg, calls[..j + 1]);
    var run := calls[..j + 1];
    assert run[..i + 1] == calls[..i + 1] && run[i] == calls[i] && run[j] == calls[j];
    ReferenceApart(cfg, run, i);
  }

  /** No earlier call for this key was accepted. */
  predicate FirstOfKey(cfg: Config, calls: seq<Call>)
    requires calls != []
  {
    forall i | 0 <= i < |calls| - 1 && calls[i].event == calls[|calls| - 1].event :: !Decision(cfg, calls[..i + 1])
  }

  lemma {:induction false} NeverAcceptedIsZero(cfg: Config, calls: seq<Call>, e: Event)
    requires forall i | 0 <= i < |calls| && calls[i].event == e :: !Reference(cfg, calls[..i + 1])
    ensures LastAccepted(cfg, calls, e) == 0.0
  {
    if calls != [] {
      var m := |calls| - 1;
      assert calls[..m + 1] == calls;
      forall i | 0 <= i < m && calls[..m][i].event == e ensures !Reference(cfg, calls[..m][..i + 1]) {
        assert calls[..m][..i + 1] == calls[..i + 1] && calls[i].event == e;
      }
      NeverAcceptedIsZero(cfg, calls[..m], e);
    }
  }

  /** A rate-limited event with no accepted predecessor of its key, which a dedup window has no
      reason to drop, passes exactly when the clock has reached one window. */
  lemma FirstOfKeyPassesIff(cfg: Config, calls: seq<Call>)
    requires calls != [] && Steady(cfg, calls) && FirstOfKey(cfg, calls)
    requires cfg.window > 0.0 && calls[|calls| - 1].event.eventType in cfg.limited
    requires calls[|calls| - 1].event.service !in cfg.dropApps
    ensures Decision(cfg, calls) <==> calls[|calls| - 1].now >= cfg.window
  {
    var before, c := calls[..|calls| - 1], calls[|calls| - 1];
    CollectionInvisible(cfg, calls);
    forall i | 0 <= i < |before| && before[i].event == c.event ensures !Reference(cfg, before[..i + 1]) {
      assert before[..i + 1] == calls[..i + 1];
      CollectionInvisible(cfg, calls[..i + 1]);
    }
    NeverAcceptedIsZero(cfg, before, c.event);
  }

  /** A first event that is dropped: any limited one at a clock below one window. */
  lemma EarlyFirstDropped(cfg: Config, e: Event, now: real)
    requires e.eventType in cfg.limited && 0.0 < cfg.window && now < cfg.window
    ensures FirstOfKey(cfg, [Call(e, now)]) && !Decision(cfg, [Call(e, now)])
  {
    assert [Call(e, now)][..0] == [];
  }

  /** Beyond that lag forgetting shows: a key accepted at two windows and forgotten at a hundred is
      accepted again by a call that read the clock half a window after the first. */
  lemma FarBehindForgets(cfg: Config, e: Event, f: Event)
    requires cfg.window > 0.0 && e.eventType in cfg.limited && f.eventType in cfg.limited
    requires e != f && cfg.maxEntries == 0
    requires e.service !in cfg.dropApps && f.service !in cfg.dropApps
    ensures var w := cfg.window;
            var calls := [Call(e, w * 2.0)] + [Call(f, w * 100.0)] + [Call(e, w * 2.5)];
            Decision(cfg, calls) && !Reference(cfg, calls)
  {
    var w := cfg.window;
    var a, b, c := Call(e, w * 2.0), Call(f, w * 100.0), Call(e, w * 2.5);
    var one, two, calls := [a], [a] + [b], [a] + [b] + [c];
    assert one[..0] == [] && two[..1] == one && calls[..2] == two;
    assert Table(cfg, one) == map[e := a.now];
    assert Table(cfg, two) == map[f := b.now];
    assert LastAccepted(cfg, one, e) == a.now;
    assert LastAccepted(cfg, two, e) == a.now;
  }

  /** An event that is not rate-limited: it is accepted whatever the history, unless its service is
      dropped outright, and leaves no trace. */
  lemma UnlimitedPasses(cfg: Config, calls: seq<Call>)
    requires calls != [] && (cfg.window <= 0.0 || calls[|calls| - 1].event.eventType !in cfg.limited)
    ensures Decision(cfg, calls) <==> calls[|calls| - 1].event.service !in cfg.dropApps
    ensures Table(cfg, calls) == Table(cfg, calls[..|calls| - 1])
  {
  }

  /** An event of a dropped service is refused whatever the history, and leaves no trace. */
  lemma DroppedService(cfg: Config, calls: seq<Call>)
    requires calls != [] && calls[|calls| - 1].event.service in cfg.dropApps
    ensures !Decision(cfg, calls) && Table(cfg, calls) == Table(cfg, calls[..|calls| - 1])
  {
  }

  /** What the table holds after an accepted event of a limited type: this event's time, no time
      that was not there before, and, when it is over the cap, nothing older than sixty windows. */
  lemma TableAfterAccept(cfg: Config, calls: seq<Call>)
    requires calls != [] && Decision(cfg, calls)
    requires cfg.window > 0.0 && calls[|calls| - 1].event.eventType in cfg.limited
    ensures var before, now, c := Table(cfg, calls[..|calls| - 1]), Table(cfg, calls), calls[|calls| - 1];
            && c.event in now && now[c.event] == c.now
            && (forall e | e in now && e != c.event :: e in before && now[e] == before[e])
            && (|now| > cfg.maxEntries ==> forall e | e in now :: now[e] >= c.now - cfg.window * 60.0)
            && (forall e | e in before && before[e] >= c.now - cfg.window * 60.0 :: e in now)
  {
    var before, now, c := Table(cfg, calls[..|calls| - 1]), Table(cfg, calls), calls[|calls| - 1];
    var grown := before[c.event := c.now];
    if |grown| <= cfg.maxEntries { assert now == grown; }
  }
}
