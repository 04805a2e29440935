/** The sliding-window limiter for fingerprint posts (decnet/canary/worker.py). */
module FingerprintLimiter {

  const WINDOW := 60.0
  const LIMIT := 30

  datatype Key = Key(token: string, ip: string)
  datatype Call = Call(key: Key, now: real)

  /** The times of `ts` strictly after `cutoff`, in order. */
  function After(ts: seq<real>, cutoff: real): seq<real> {
    if ts == [] then []
    else
      var kept := After(ts[..|ts| - 1], cutoff);
      if ts[|ts| - 1] > cutoff then kept + [ts[|ts| - 1]] else kept
  }

  function Bucket(buckets: map<Key, seq<real>>, k: Key): seq<real> {
    if k in buckets then buckets[k] else []
  }

  predicate Allows(buckets: map<Key, seq<real>>, c: Call) {
    |After(Bucket(buckets, c.key), c.now - WINDOW)| < LIMIT
  }

  function Next(buckets: map<Key, seq<real>>, c: Call): map<Key, seq<real>> {
    var kept := After(Bucket(buckets, c.key), c.now - WINDOW);
    buckets[c.key := if Allows(buckets, c) then kept + [c.now] else kept]
  }

  class Limiter {
    var buckets: map<Key, seq<real>>

    constructor ()
      ensures buckets == map[]
    {
      buckets := map[];
    }

    /** `_fp_rate_allowed`. */
    method Allowed(key: Key, now: real) returns (ok: bool)
      modifies this
      ensures ok <==> Allows(old(buckets), Call(key, now))
      ensures buckets == Next(old(buckets), Call(key, now))
    {
      var cutoff := now - WINDOW;
      var previous := Bucket(buckets, key);
      var bucket: seq<real> := [];
      for i := 0 to |previous|
        invariant bucket == After(previous[..i], cutoff)
      {
        assert previous[..i + 1][..i] == previous[..i];
        if previous[i] > cutoff { bucket := bucket + [previous[i]]; }
      }
      assert previous[..|previous|] == previous;
      if |bucket| >= LIMIT {
        buckets := buckets[key := bucket];
        return false;
      }
      bucket := bucket + [now];
      buckets := buckets[key := bucket];
      return true;
    }
  }

  // ---------- runs ----------

  predicate Monotone(calls: seq<Call>) {
    forall i, j | 0 <= i < j < |calls| :: calls[i].now <= calls[j].now
  }

  function Buckets(calls: seq<Call>): map<Key, seq<real>> {
    if calls == [] then map[] else Next(Buckets(calls[..|calls| - 1]), calls[|calls| - 1])
  }

  predicate Decision(calls: seq<Call>)
    requires calls != []
  {
    Allows(Buckets(calls[..|calls| - 1]), calls[|calls| - 1])
  }

  /** Every time at which a call for `k` was allowed, over the whole history. */
  function AllowedTimes(calls: seq<Call>, k: Key): seq<real> {
    if calls == [] then []
    else
      var before := AllowedTimes(calls[..|calls| - 1], k);
      if calls[|calls| - 1].key == k && Decision(calls) then before + [calls[|calls| - 1].now] else before
  }

  predicate Ascending(ts: seq<real>) {
    forall i, j | 0 <= i < j < |ts| :: ts[i] <= ts[j]
  }

  lemma {:induction false} AfterTwice(ts: seq<real>, early: real, late: real)
    requires early <= late
    ensures After(After(ts, early), late) == After(ts, late)
  {
    if ts != [] {
      var m := |ts| - 1;
      AfterTwice(ts[..m], early, late);
    }
  }

  /** Each bucket is a recent part of the whole history: nothing later than its cutoff is missing. */
  ghost predicate Recent(bucket: seq<real>, all: seq<real>, now: real) {
    forall cutoff: real | cutoff >= now - WINDOW :: After(bucket, cutoff) == After(all, cutoff)
  }

  /** One call for the key keeps its bucket recent, allowed or not. */
  lemma RecentStep(was: seq<real>, all: seq<real>, now: real, cutoff: real)
    requires Recent(was, all, now) && cutoff >= now - WINDOW
    ensures After(After(was, now - WINDOW), cutoff) == After(all, cutoff)
    ensures After(After(was, now - WINDOW) + [now], cutoff) == After(all + [now], cutoff)
  {
    AfterTwice(was, now - WINDOW, cutoff);
  }

  lemma RecentLater(bucket: seq<real>, all: seq<real>, t: real, now: real)
    requires Recent(bucket, all, t) && t <= now
    ensures Recent(bucket, all, now)
  {
  }

  lemma RecentKept(was: seq<real>, all: seq<real>, t: real)
    requires Recent(was, all, t)
    ensures Recent(After(was, t - WINDOW), all, t)
    ensures Recent(After(was, t - WINDOW) + [t], all + [t], t)
  {
    forall cutoff: real | cutoff >= t - WINDOW
      ensures After(After(was, t - WINDOW), cutoff) == After(all, cutoff)
      ensures After(After(was, t - WINDOW) + [t], cutoff) == After(all + [t], cutoff)
    {
      RecentStep(was, all, t, cutoff);
    }
  }

  lemma RecentNext(buckets: map<Key, seq<real>>, c: Call, k: Key, before: seq<real>)
    requires Recent(Bucket(buckets, k), before, c.now)
    ensures Recent(Bucket(Next(buckets, c), k),
                   if c.key == k && Allows(buckets, c) then before + [c.now] else before, c.now)
  {
    RecentKept(Bucket(buckets, k), before, c.now);
  }

  lemma {:induction false} BucketsRecent(calls: seq<Call>, k: Key, now: real)
    requires Monotone(calls) && (calls != [] ==> calls[|calls| - 1].now <= now)
    ensures Recent(Bucket(Buckets(calls), k), AllowedTimes(calls, k), now)
  {
    if calls != [] {
      var before, c := calls[..|calls| - 1], calls[|calls| - 1];
      BucketsRecent(before, k, c.now);
      RecentNext(Buckets(before), c, k, AllowedTimes(before, k));
      RecentLater(Bucket(Buckets(calls), k), AllowedTimes(calls, k), c.now, now);
    }
  }

  /** Which of the times lie strictly after `cutoff`. */
  function Later(ts: seq<real>, cutoff: real): set<nat> {
    set i: nat | i < |ts| && ts[i] > cutoff
  }

  lemma {:induction false} AfterSize(ts: seq<real>, cutoff: real)
    ensures |After(ts, cutoff)| == |Later(ts, cutoff)|
  {
    if ts != [] {
      var m := |ts| - 1;
      AfterSize(ts[..m], cutoff);
      var before := Later(ts[..m], cutoff);
      assert Later(ts, cutoff) == if ts[m] > cutoff then before + {m} else before;
    }
  }

  /** A call is refused exactly when thirty allowed times of its key lie strictly within the last
      sixty seconds of the whole history. */
  lemma RefusedExactly(calls: seq<Call>)
    requires calls != [] && Monotone(calls)
    ensures var before, c := calls[..|calls| - 1], calls[|calls| - 1];
            !Decision(calls) <==> |Later(AllowedTimes(before, c.key), c.now - 60.0)| >= 30
  {
    var before, c := calls[..|calls| - 1], calls[|calls| - 1];
    BucketsRecent(before, c.key, c.now);
    AfterSize(AllowedTimes(before, c.key), c.now - 60.0);
  }

  lemma {:induction false} AllowedAscending(calls: seq<Call>, k: Key)
    requires Monotone(calls)
    ensures Ascending(AllowedTimes(calls, k))
    ensures calls != [] ==> forall t | t in AllowedTimes(calls, k) :: t <= calls[|calls| - 1].now
  {
    if calls != [] {
      var before := calls[..|calls| - 1];
      AllowedAscending(before, k);
      var earlier := AllowedTimes(before, k);
      assert forall i | 0 <= i < |earlier| :: earlier[i] in earlier;
      if before != [] { assert before[|before| - 1].now <= calls[|calls| - 1].now; }
    }
  }

  /** In an ascending list, all of a tail that starts after the cutoff is kept. */
  lemma {:induction false} AfterCounts(ts: seq<real>, i: nat, cutoff: real)
    requires Ascending(ts) && i < |ts| && ts[i] > cutoff
    ensures |After(ts, cutoff)| >= |ts| - i
  {
    if i < |ts| - 1 { AfterCounts(ts[..|ts| - 1], i, cutoff); }
  }

  lemma ManyLater(ts: seq<real>, i: nat, cutoff: real)
    requires Ascending(ts) && i < |ts| && ts[i] > cutoff
    ensures |Later(ts, cutoff)| >= |ts| - i
  {
    AfterCounts(ts, i, cutoff);
    AfterSize(ts, cutoff);
  }

  /** Thirty allowed times within the last sixty seconds refuse the call. */
  lemma ThirtyRefuse(calls: seq<Call>, earlier: seq<real>, i: nat)
    requires calls != [] && Monotone(calls) && earlier == AllowedTimes(calls[..|calls| - 1], calls[|calls| - 1].key)
    requires i + 30 <= |earlier| && earlier[i] > calls[|calls| - 1].now - 60.0
    ensures !Decision(calls)
  {
    assert Ascending(earlier) by { AllowedAscending(calls[..|calls| - 1], calls[|calls| - 1].key); }
    ManyLater(earlier, i, calls[|calls| - 1].now - 60.0);
    RefusedExactly(calls);
  }

  /** Any thirty-one consecutive allowed times of a key span at least sixty seconds. */
  lemma {:induction false} WindowBound(calls: seq<Call>, k: Key, i: nat)
    requires Monotone(calls) && i + 30 < |AllowedTimes(calls, k)|
    ensures AllowedTimes(calls, k)[i + 30] - AllowedTimes(calls, k)[i] >= 60.0
  {
    var before, c := calls[..|calls| - 1], calls[|calls| - 1];
    var earlier := AllowedTimes(before, k);
    if i + 30 < |earlier| {
      WindowBound(before, k, i);
    } else if c.now - earlier[i] < 60.0 {
      ThirtyRefuse(calls, earlier, i);
    }
  }
}
