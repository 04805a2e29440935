/** The prefork master's supervision loop (decnet/prefork.py). */
module PreforkSupervisor {
  import opened Common

  /** What happened to a worker, in order; the log records history only. */
  datatype Happening = Spawned(name: string, at: real) | Died(name: string, at: real)

  datatype State = State(
    children: map<int, string>, due: map<string, real>, backoff: map<string, real>, log: seq<Happening>)

  /** The backoff of a worker that died `k` times, as the loop computes it. */
  function Backoff(k: nat, maxBackoff: real): real {
    if k == 0 then 1.0 else MinReal(Backoff(k - 1, maxBackoff) * 2.0, maxBackoff)
  }

  function PowerOfTwo(k: nat): (p: real)
    ensures p >= 1.0
  {
    if k == 0 then 1.0 else PowerOfTwo(k - 1) * 2.0
  }

  lemma {:induction false} BackoffClosedForm(k: nat, maxBackoff: real)
    requires maxBackoff >= 1.0
    ensures Backoff(k, maxBackoff) == MinReal(PowerOfTwo(k), maxBackoff)
  {
    if k > 0 { BackoffClosedForm(k - 1, maxBackoff); }
  }

  /** The closed form holds for every number of deaths exactly when the cap is at least one. */
  lemma BackoffClosedFormIff(maxBackoff: real)
    ensures (forall k: nat :: Backoff(k, maxBackoff) == MinReal(PowerOfTwo(k), maxBackoff)) <==> maxBackoff >= 1.0
  {
    if maxBackoff >= 1.0 {
      forall k: nat ensures Backoff(k, maxBackoff) == MinReal(PowerOfTwo(k), maxBackoff) {
        BackoffClosedForm(k, maxBackoff);
      }
    } else {
      assert Backoff(0, maxBackoff) != MinReal(PowerOfTwo(0), maxBackoff);
    }
  }

  // ---------- history ----------

  function Spawns(log: seq<Happening>, n: string): nat {
    if log == [] then 0
    else Spawns(log[..|log| - 1], n) + if log[|log| - 1].Spawned? && log[|log| - 1].name == n then 1 else 0
  }

  function Deaths(log: seq<Happening>, n: string): nat {
    if log == [] then 0
    else Deaths(log[..|log| - 1], n) + if log[|log| - 1].Died? && log[|log| - 1].name == n then 1 else 0
  }

  function LastDeath(log: seq<Happening>, n: string): real
    requires Deaths(log, n) > 0
  {
    var last := log[|log| - 1];
    if last.Died? && last.name == n then last.at else LastDeath(log[..|log| - 1], n)
  }

  /** The earliest time at which a worker that is down may come back. */
  function Earliest(log: seq<Happening>, n: string, maxBackoff: real): real
    requires Deaths(log, n) > 0
  {
    LastDeath(log, n) + Backoff(Deaths(log, n) - 1, maxBackoff)
  }

  /** No respawn in the log came before the last death plus the backoff then in force. */
  ghost predicate RespawnsWait(log: seq<Happening>, maxBackoff: real) {
    forall i | 0 <= i < |log| && log[i].Spawned? && Deaths(log[..i], log[i].name) > 0 ::
      log[i].at >= Earliest(log[..i], log[i].name, maxBackoff)
  }

  lemma LogAppend(log: seq<Happening>, h: Happening, n: string)
    ensures Spawns(log + [h], n) == Spawns(log, n) + if h.Spawned? && h.name == n then 1 else 0
    ensures Deaths(log + [h], n) == Deaths(log, n) + if h.Died? && h.name == n then 1 else 0
    ensures Deaths(log + [h], n) > 0 ==>
              LastDeath(log + [h], n) == if h.Died? && h.name == n then h.at else LastDeath(log, n)
  {
    assert (log + [h])[..|log|] == log;
  }

  lemma RespawnsWaitAppend(log: seq<Happening>, h: Happening, maxBackoff: real)
    requires RespawnsWait(log, maxBackoff)
    requires h.Spawned? && Deaths(log, h.name) > 0 ==> h.at >= Earliest(log, h.name, maxBackoff)
    ensures RespawnsWait(log + [h], maxBackoff)
  {
    var all := log + [h];
    assert all[..|log|] == log;
    assert forall i | 0 <= i < |log| :: all[..i] == log[..i] && all[i] == log[i];
  }

  // ---------- the loop body ----------

  function Spawn(s: State, n: string, pid: int, at: real): State {
    s.(children := s.children[pid := n], log := s.log + [Spawned(n, at)])
  }

  /** A `fork` for worker `name` that returned `pid` in the master. */
  datatype Fork = Fork(name: string, pid: int)

  /** Respawn the listed workers, whose backoff has elapsed, each under a fresh pid. */
  function Respawn(s: State, forks: seq<Fork>, now: real): State {
    if forks == [] then s
    else
      var m := |forks| - 1;
      var before := Respawn(s, forks[..m], now);
      Spawn(before.(due := before.due - {forks[m].name}), forks[m].name, forks[m].pid, now)
  }

  /** `waitpid` reported `pid`; zero and unknown pids change nothing. */
  function Reap(s: State, pid: int, at: real, maxBackoff: real): State {
    if pid !in s.children then s
    else
      var n := s.children[pid];
      if n !in s.backoff then s
      else
        State(s.children - {pid}, s.due[n := at + s.backoff[n]],
              s.backoff[n := MinReal(s.backoff[n] * 2.0, maxBackoff)], s.log + [Died(n, at)])
  }

  // ---------- the invariant ----------

  ghost predicate Up(s: State, n: string) {
    exists pid :: pid in s.children && s.children[pid] == n
  }

  /** Every worker is running under exactly one pid or waiting in the due table, never both. */
  ghost predicate Partition(s: State, specs: set<string>) {
    && (forall n | n in specs :: Up(s, n) <==> n !in s.due)
    && (forall n | n in s.due :: n in specs)
    && (forall p | p in s.children :: s.children[p] in specs)
    && (forall p, q | p in s.children && q in s.children && s.children[p] == s.children[q] :: p == q)
  }

  /** The counters and the delays, worker by worker. */
  ghost predicate Accounts(s: State, specs: set<string>, maxBackoff: real) {
    && s.backoff.Keys == specs
    && (forall n | n in specs :: AccountOf(s, n, maxBackoff))
    && RespawnsWait(s.log, maxBackoff)
  }

  /** Spawns are one more than deaths, less one while the worker waits; the backoff is the one for
      its number of deaths; and it waits until its last death plus the backoff of then. */
  ghost predicate AccountOf(s: State, n: string, maxBackoff: real) {
    && n in s.backoff
    && Spawns(s.log, n) + (if n in s.due then 1 else 0) == 1 + Deaths(s.log, n)
    && s.backoff[n] == Backoff(Deaths(s.log, n), maxBackoff)
    && (n in s.due ==> Deaths(s.log, n) > 0 && s.due[n] == Earliest(s.log, n, maxBackoff))
  }

  ghost predicate Inv(s: State, specs: set<string>, maxBackoff: real) {
    Partition(s, specs) && Accounts(s, specs, maxBackoff)
  }

  lemma SpawnPartition(s: State, specs: set<string>, n: string, pid: int, at: real)
    requires Partition(s, specs) && n in s.due && pid !in s.children
    ensures Partition(Spawn(s.(due := s.due - {n}), n, pid, at), specs)
  {
    var s' := Spawn(s.(due := s.due - {n}), n, pid, at);
    assert !Up(s, n);
    assert s'.children[pid] == n;
    forall x | x in specs ensures Up(s', x) <==> x !in s'.due {
      if p :| p in s.children && s.children[p] == x { assert s'.children[p] == x; }
    }
  }

  lemma SpawnAccounts(s: State, specs: set<string>, maxBackoff: real, n: string, pid: int, at: real)
    requires Accounts(s, specs, maxBackoff) && n in specs && n in s.due && at >= s.due[n]
    ensures Accounts(Spawn(s.(due := s.due - {n}), n, pid, at), specs, maxBackoff)
  {
    assert AccountOf(s, n, maxBackoff);
    RespawnsWaitAppend(s.log, Spawned(n, at), maxBackoff);
    var s' := Spawn(s.(due := s.due - {n}), n, pid, at);
    forall x | x in specs ensures AccountOf(s', x, maxBackoff) {
      assert AccountOf(s, x, maxBackoff);
      LogAppend(s.log, Spawned(n, at), x);
    }
  }

  /** The pids that `fork` returned belong to no child and differ from one another. */
  predicate FreshPids(s: State, forks: seq<Fork>) {
    && (forall i | 0 <= i < |forks| :: forks[i].pid !in s.children)
    && (forall i, j | 0 <= i < j < |forks| :: forks[i].pid != forks[j].pid)
  }

  predicate Listed(forks: seq<Fork>, n: string) {
    exists i | 0 <= i < |forks| :: forks[i].name == n
  }

  /** The forks are for due workers, each listed once, whose time has come. */
  predicate Elapsed(s: State, forks: seq<Fork>, now: real) {
    && (forall i | 0 <= i < |forks| :: forks[i].name in s.due && now >= s.due[forks[i].name])
    && (forall i, j | 0 <= i < j < |forks| :: forks[i].name != forks[j].name)
  }

  lemma {:induction false} RespawnShape(s: State, forks: seq<Fork>, now: real)
    ensures var s' := Respawn(s, forks, now);
            && (forall x :: x in s'.due <==> x in s.due && forall i | 0 <= i < |forks| :: forks[i].name != x)
            && (forall x | x in s'.due :: s'.due[x] == s.due[x])
            && (forall p | p in s'.children :: p in s.children || exists i | 0 <= i < |forks| :: forks[i].pid == p)
            && s'.backoff == s.backoff
  {
    if forks != [] { RespawnShape(s, forks[..|forks| - 1], now); }
  }

  /** The last fork is still for a due worker, under a pid that is still fresh. */
  lemma LastForkReady(s: State, forks: seq<Fork>, now: real)
    requires forks != [] && FreshPids(s, forks) && Elapsed(s, forks, now)
    ensures var before, f := Respawn(s, forks[..|forks| - 1], now), forks[|forks| - 1];
            && f.pid !in before.children
            && f.name in before.due && now >= before.due[f.name]
  {
    RespawnShape(s, forks[..|forks| - 1], now);
  }

  lemma {:induction false} RespawnKeeps(s: State, specs: set<string>, maxBackoff: real, forks: seq<Fork>, now: real)
    requires Inv(s, specs, maxBackoff) && FreshPids(s, forks) && Elapsed(s, forks, now)
    ensures Inv(Respawn(s, forks, now), specs, maxBackoff)
  {
    if forks != [] {
      var m := |forks| - 1;
      RespawnKeeps(s, specs, maxBackoff, forks[..m], now);
      LastForkReady(s, forks, now);
      SpawnKeeps(Respawn(s, forks[..m], now), specs, maxBackoff, forks[m], now);
    }
  }

  lemma SpawnKeeps(s: State, specs: set<string>, maxBackoff: real, f: Fork, now: real)
    requires Inv(s, specs, maxBackoff) && f.pid !in s.children && f.name in s.due && now >= s.due[f.name]
    ensures Inv(Spawn(s.(due := s.due - {f.name}), f.name, f.pid, now), specs, maxBackoff)
  {
    SpawnPartition(s, specs, f.name, f.pid, now);
    SpawnAccounts(s, specs, maxBackoff, f.name, f.pid, now);
  }

  lemma ReapPartition(s: State, specs: set<string>, maxBackoff: real, pid: int, at: real)
    requires Partition(s, specs)
    ensures Partition(Reap(s, pid, at, maxBackoff), specs)
  {
    if pid in s.children && s.children[pid] in s.backoff {
      var s' := Reap(s, pid, at, maxBackoff);
      var n := s.children[pid];
      assert Up(s, n);
      forall x | x in specs ensures Up(s', x) <==> x !in s'.due {
        if x != n && Up(s, x) {
          var p :| p in s.children && s.children[p] == x;
          assert s'.children[p] == x;
        }
      }
    }
  }

  lemma ReapAccountOf(s: State, pid: int, at: real, maxBackoff: real, x: string)
    requires pid in s.children && s.children[pid] in s.backoff && s.children[pid] !in s.due
    requires AccountOf(s, x, maxBackoff)
    ensures AccountOf(Reap(s, pid, at, maxBackoff), x, maxBackoff)
  {
    LogAppend(s.log, Died(s.children[pid], at), x);
  }

  lemma ReapAccounts(s: State, specs: set<string>, maxBackoff: real, pid: int, at: real)
    requires Inv(s, specs, maxBackoff)
    ensures Accounts(Reap(s, pid, at, maxBackoff), specs, maxBackoff)
  {
    if pid in s.children {
      var n := s.children[pid];
      assert Up(s, n) && n in specs && n !in s.due && n in s.backoff;
      RespawnsWaitAppend(s.log, Died(n, at), maxBackoff);
      var s' := Reap(s, pid, at, maxBackoff);
      forall x | x in specs ensures AccountOf(s', x, maxBackoff) {
        ReapAccountOf(s, pid, at, maxBackoff, x);
      }
    }
  }

  // ---------- runs ----------

  /** One turn of the loop: its clock reading, the forks for due workers in the order the table
      gave them, the pid reaped (or zero) and the clock reading for that. */
  datatype Turn = Turn(now: real, forks: seq<Fork>, pid: int, at: real)

  /** The turn respawns exactly the workers whose time has come, and the pids are fresh. */
  ghost predicate Possible(s: State, t: Turn) {
    && FreshPids(s, t.forks) && Elapsed(s, t.forks, t.now)
    && (forall n | n in s.due && t.now >= s.due[n] :: Listed(t.forks, n))
  }

  function TakeTurn(s: State, t: Turn, maxBackoff: real): State {
    Reap(Respawn(s, t.forks, t.now), t.pid, t.at, maxBackoff)
  }

  /** The state at the loop head after `turns`. */
  function LoopHead(first: State, turns: seq<Turn>, maxBackoff: real): State {
    if turns == [] then first
    else TakeTurn(LoopHead(first, turns[..|turns| - 1], maxBackoff), turns[|turns| - 1], maxBackoff)
  }

  ghost predicate PossibleRun(first: State, turns: seq<Turn>, maxBackoff: real) {
    forall i | 0 <= i < |turns| :: Possible(LoopHead(first, turns[..i], maxBackoff), turns[i])
  }

  /** The state after `for name in specs: spawn(name)`. */
  function Started(forks: seq<Fork>, at: real): State {
    if forks == [] then State(map[], map[], map[], [])
    else
      var m := |forks| - 1;
      var s := Started(forks[..m], at);
      Spawn(s.(backoff := s.backoff[forks[m].name := 1.0]), forks[m].name, forks[m].pid, at)
  }

  function Workers(forks: seq<Fork>): set<string> {
    set f | f in forks :: f.name
  }

  /** One fork per worker, under different pids. */
  predicate OnePerWorker(forks: seq<Fork>) {
    forall i, j | 0 <= i < j < |forks| :: forks[i].name != forks[j].name && forks[i].pid != forks[j].pid
  }

  lemma {:induction false} StartedShape(forks: seq<Fork>, at: real)
    ensures var s := Started(forks, at);
            && s.due == map[]
            && (forall p | p in s.children :: exists i | 0 <= i < |forks| :: forks[i] == Fork(s.children[p], p))
            && s.backoff.Keys == Workers(forks)
            && (forall n | n in s.backoff :: s.backoff[n] == 1.0)
            && (forall n :: Deaths(s.log, n) == 0)
            && (forall n | n !in Workers(forks) :: Spawns(s.log, n) == 0)
  {
    if forks != [] {
      var m := |forks| - 1;
      StartedShape(forks[..m], at);
      var s := Started(forks[..m], at);
      forall n { LogAppend(s.log, Spawned(forks[m].name, at), n); }
      assert forks[m] == Fork(forks[m].name, forks[m].pid);
    }
  }

  /** A first spawn of a new worker under a new pid. */
  lemma FirstSpawnPartition(s: State, specs: set<string>, n: string, pid: int, at: real)
    requires Partition(s, specs) && s.due == map[] && n !in specs && pid !in s.children
    ensures Partition(Spawn(s.(backoff := s.backoff[n := 1.0]), n, pid, at), specs + {n})
  {
    var s' := Spawn(s.(backoff := s.backoff[n := 1.0]), n, pid, at);
    assert s'.children[pid] == n;
    forall x | x in specs + {n} ensures Up(s', x) {
      if x != n {
        assert Up(s, x);
        var p :| p in s.children && s.children[p] == x;
        assert s'.children[p] == x;
      }
    }
  }

  lemma {:induction false} StartedPartition(forks: seq<Fork>, at: real)
    requires OnePerWorker(forks)
    ensures Partition(Started(forks, at), Workers(forks))
  {
    if forks != [] {
      var m := |forks| - 1;
      StartedPartition(forks[..m], at);
      StartedShape(forks[..m], at);
      FirstSpawnPartition(Started(forks[..m], at), Workers(forks[..m]), forks[m].name, forks[m].pid, at);
    }
  }

  lemma FirstSpawnAccountOf(s: State, maxBackoff: real, n: string, pid: int, at: real, x: string)
    requires s.due == map[]
    requires if x == n then Spawns(s.log, n) == 0 && Deaths(s.log, n) == 0 else AccountOf(s, x, maxBackoff)
    ensures AccountOf(Spawn(s.(backoff := s.backoff[n := 1.0]), n, pid, at), x, maxBackoff)
  {
    var s' := Spawn(s.(backoff := s.backoff[n := 1.0]), n, pid, at);
    LogAppend(s.log, Spawned(n, at), x);
    assert s'.log == s.log + [Spawned(n, at)] && s'.due == map[];
    assert Deaths(s'.log, x) == Deaths(s.log, x);
    assert Backoff(0, maxBackoff) == 1.0;
  }

  lemma FirstSpawnAccounts(s: State, specs: set<string>, maxBackoff: real, n: string, pid: int, at: real)
    requires Accounts(s, specs, maxBackoff) && s.due == map[] && n !in specs
    requires Spawns(s.log, n) == 0 && Deaths(s.log, n) == 0
    ensures Accounts(Spawn(s.(backoff := s.backoff[n := 1.0]), n, pid, at), specs + {n}, maxBackoff)
  {
    RespawnsWaitAppend(s.log, Spawned(n, at), maxBackoff);
    var s' := Spawn(s.(backoff := s.backoff[n := 1.0]), n, pid, at);
    forall x | x in specs + {n} ensures AccountOf(s', x, maxBackoff) {
      FirstSpawnAccountOf(s, maxBackoff, n, pid, at, x);
    }
  }

  lemma {:induction false} StartedAccounts(forks: seq<Fork>, at: real, maxBackoff: real)
    requires OnePerWorker(forks)
    ensures Accounts(Started(forks, at), Workers(forks), maxBackoff)
  {
    if forks != [] {
      var m := |forks| - 1;
      StartedAccounts(forks[..m], at, maxBackoff);
      StartedShape(forks[..m], at);
      FirstSpawnAccounts(Started(forks[..m], at), Workers(forks[..m]), maxBackoff, forks[m].name, forks[m].pid, at);
    }
  }

  lemma PossiblePrefix(first: State, turns: seq<Turn>, maxBackoff: real)
    requires turns != [] && PossibleRun(first, turns, maxBackoff)
    ensures PossibleRun(first, turns[..|turns| - 1], maxBackoff)
    ensures Possible(LoopHead(first, turns[..|turns| - 1], maxBackoff), turns[|turns| - 1])
  {
    var before := turns[..|turns| - 1];
    forall i | 0 <= i < |before| ensures Possible(LoopHead(first, before[..i], maxBackoff), before[i]) {
      assert before[..i] == turns[..i];
    }
  }

  /** At every loop head the workers are partitioned, and the accounts and delays are right. */
  lemma {:induction false} SupervisionInvariant(forks: seq<Fork>, at: real, maxBackoff: real, turns: seq<Turn>)
    requires OnePerWorker(forks) && PossibleRun(Started(forks, at), turns, maxBackoff)
    ensures Inv(LoopHead(Started(forks, at), turns, maxBackoff), Workers(forks), maxBackoff)
    decreases |turns|
  {
    if turns == [] {
      StartedPartition(forks, at);
      StartedAccounts(forks, at, maxBackoff);
    } else {
      var before, t := turns[..|turns| - 1], turns[|turns| - 1];
      PossiblePrefix(Started(forks, at), turns, maxBackoff);
      SupervisionInvariant(forks, at, maxBackoff, before);
      TurnKeeps(LoopHead(Started(forks, at), before, maxBackoff), Workers(forks), maxBackoff, t);
    }
  }

  lemma TurnKeeps(s: State, specs: set<string>, maxBackoff: real, t: Turn)
    requires Inv(s, specs, maxBackoff) && Possible(s, t)
    ensures Inv(TakeTurn(s, t, maxBackoff), specs, maxBackoff)
  {
    RespawnKeeps(s, specs, maxBackoff, t.forks, t.now);
    var mid := Respawn(s, t.forks, t.now);
    ReapPartition(mid, specs, maxBackoff, t.pid, t.at);
    ReapAccounts(mid, specs, maxBackoff, t.pid, t.at);
  }

  // ---------- told from the turns alone ----------

  /** A reaped child, of a supervisor whose books are in order: its pid is gone, its worker waits
      from the reading `at` for the backoff of its earlier deaths, this death is counted, and
      nothing changes for the others. An unknown pid changes nothing at all. */
  lemma ReapMeans(s: State, specs: set<string>, maxBackoff: real, pid: int, at: real)
    requires Inv(s, specs, maxBackoff)
    ensures pid !in s.children ==> Reap(s, pid, at, maxBackoff) == s
    ensures pid in s.children ==>
              var s', n := Reap(s, pid, at, maxBackoff), s.children[pid];
              && s'.children == s.children - {pid}
              && n !in s.due && s'.due == s.due[n := at + Backoff(Deaths(s.log, n), maxBackoff)]
              && n in s'.backoff && s'.backoff[n] == Backoff(Deaths(s.log, n) + 1, maxBackoff)
              && (forall x :: Deaths(s'.log, x) == Deaths(s.log, x) + if x == n then 1 else 0)
              && (forall x | x != n :: (x in s'.backoff <==> x in s.backoff) && Spawns(s'.log, x) == Spawns(s.log, x))
              && (forall x | x != n && x in s.backoff :: s'.backoff[x] == s.backoff[x])
  {
    if pid in s.children {
      var n := s.children[pid];
      assert Up(s, n) && AccountOf(s, n, maxBackoff);
      forall x ensures Deaths(s.log + [Died(n, at)], x) == Deaths(s.log, x) + (if x == n then 1 else 0)
               ensures Spawns(s.log + [Died(n, at)], x) == Spawns(s.log, x) {
        LogAppend(s.log, Died(n, at), x);
      }
    }
  }

  /** The worker for which the forks returned `pid`, if they did. */
  function ForkOf(forks: seq<Fork>, pid: int): Option<string> {
    if forks == [] then None
    else if forks[|forks| - 1].pid == pid then Some(forks[|forks| - 1].name)
    else ForkOf(forks[..|forks| - 1], pid)
  }

  function ForksFor(forks: seq<Fork>, n: string): nat {
    if forks == [] then 0 else ForksFor(forks[..|forks| - 1], n) + if forks[|forks| - 1].name == n then 1 else 0
  }

  /** Whose pid it is after `turns`: that of the last fork that returned it, unless reaped since. */
  function Owner(first: seq<Fork>, turns: seq<Turn>, pid: int): Option<string>
    decreases |turns|, 1
  {
    if turns == [] then ForkOf(first, pid)
    else if turns[|turns| - 1].pid == pid then None
    else AtReap(first, turns, pid)
  }

  /** The same within the last turn, before it reaps. */
  function AtReap(first: seq<Fork>, turns: seq<Turn>, pid: int): Option<string>
    requires turns != []
    decreases |turns|, 0
  {
    var forked := ForkOf(turns[|turns| - 1].forks, pid);
    if forked.Some? then forked else Owner(first, turns[..|turns| - 1], pid)
  }

  /** How many turns reaped a pid that was `n`'s at that moment. */
  function Reaped(first: seq<Fork>, turns: seq<Turn>, n: string): nat {
    if turns == [] then 0
    else
      Reaped(first, turns[..|turns| - 1], n) + if AtReap(first, turns, turns[|turns| - 1].pid) == Some(n) then 1 else 0
  }

  /** How many forks there were for `n`. */
  function Forked(first: seq<Fork>, turns: seq<Turn>, n: string): nat {
    if turns == [] then ForksFor(first, n)
    else Forked(first, turns[..|turns| - 1], n) + ForksFor(turns[|turns| - 1].forks, n)
  }

  function ChildOf(s: State, pid: int): Option<string> {
    if pid in s.children then Some(s.children[pid]) else None
  }

  lemma {:induction false} StartedTells(forks: seq<Fork>, at: real, pid: int, n: string)
    ensures ChildOf(Started(forks, at), pid) == ForkOf(forks, pid)
    ensures Spawns(Started(forks, at).log, n) == ForksFor(forks, n) && Deaths(Started(forks, at).log, n) == 0
  {
    if forks != [] {
      var m := |forks| - 1;
      StartedTells(forks[..m], at, pid, n);
      LogAppend(Started(forks[..m], at).log, Spawned(forks[m].name, at), n);
    }
  }

  lemma {:induction false} RespawnTells(s: State, forks: seq<Fork>, now: real, pid: int, n: string)
    ensures var s', forked := Respawn(s, forks, now), ForkOf(forks, pid);
            && ChildOf(s', pid) == (if forked.Some? then forked else ChildOf(s, pid))
            && Spawns(s'.log, n) == Spawns(s.log, n) + ForksFor(forks, n) && Deaths(s'.log, n) == Deaths(s.log, n)
  {
    if forks != [] {
      var m := |forks| - 1;
      RespawnTells(s, forks[..m], now, pid, n);
      LogAppend(Respawn(s, forks[..m], now).log, Spawned(forks[m].name, now), n);
    }
  }

  lemma ReapTells(s: State, specs: set<string>, maxBackoff: real, reaped: int, at: real, pid: int, n: string)
    requires Inv(s, specs, maxBackoff)
    ensures var s' := Reap(s, reaped, at, maxBackoff);
            && ChildOf(s', pid) == (if pid == reaped then None else ChildOf(s, pid))
            && Spawns(s'.log, n) == Spawns(s.log, n)
            && Deaths(s'.log, n) == Deaths(s.log, n) + if ChildOf(s, reaped) == Some(n) then 1 else 0
  {
    if reaped in s.children {
      var worker := s.children[reaped];
      assert Up(s, worker) && AccountOf(s, worker, maxBackoff);
      LogAppend(s.log, Died(worker, at), n);
    }
  }

  /** What the supervisor knows is what happened: its children are the pids that were forked and
      not reaped since, each under the name it was forked for, and its counts of spawns and deaths
      are those of the forks and of the reaped pids. */
  lemma {:induction false} TurnsTell(forks: seq<Fork>, at: real, maxBackoff: real, turns: seq<Turn>, pid: int,
                                     n: string)
    requires OnePerWorker(forks) && PossibleRun(Started(forks, at), turns, maxBackoff)
    ensures var s := LoopHead(Started(forks, at), turns, maxBackoff);
            && ChildOf(s, pid) == Owner(forks, turns, pid)
            && Spawns(s.log, n) == Forked(forks, turns, n)
            && Deaths(s.log, n) == Reaped(forks, turns, n)
    decreases |turns|
  {
    if turns == [] {
      StartedTells(forks, at, pid, n);
    } else {
      var before, t := turns[..|turns| - 1], turns[|turns| - 1];
      PossiblePrefix(Started(forks, at), turns, maxBackoff);
      SupervisionInvariant(forks, at, maxBackoff, before);
      TurnsTell(forks, at, maxBackoff, before, pid, n);
      TurnsTell(forks, at, maxBackoff, before, t.pid, n);
      TurnTells(LoopHead(Started(forks, at), before, maxBackoff), Workers(forks), maxBackoff, t, pid, n);
      TurnTells(LoopHead(Started(forks, at), before, maxBackoff), Workers(forks), maxBackoff, t, t.pid, n);
    }
  }

  lemma TurnTells(s: State, specs: set<string>, maxBackoff: real, t: Turn, pid: int, n: string)
    requires Inv(s, specs, maxBackoff) && Possible(s, t)
    ensures var s', forked := TakeTurn(s, t, maxBackoff), ForkOf(t.forks, pid);
            var reaped := if ForkOf(t.forks, t.pid).Some? then ForkOf(t.forks, t.pid) else ChildOf(s, t.pid);
            && ChildOf(s', pid) == (if pid == t.pid then None else if forked.Some? then forked else ChildOf(s, pid))
            && Spawns(s'.log, n) == Spawns(s.log, n) + ForksFor(t.forks, n)
            && Deaths(s'.log, n) == Deaths(s.log, n) + if reaped == Some(n) then 1 else 0
  {
    var mid := Respawn(s, t.forks, t.now);
    RespawnKeeps(s, specs, maxBackoff, t.forks, t.now);
    RespawnTells(s, t.forks, t.now, pid, n);
    RespawnTells(s, t.forks, t.now, t.pid, n);
    ReapTells(mid, specs, maxBackoff, t.pid, t.at, pid, n);
  }

  /** The books in terms of what happened: every worker was forked once more than it was reaped,
      or as often while it waits; and after `k` deaths its backoff is that of `k`. */
  lemma ForksAndDeathsBalance(forks: seq<Fork>, at: real, maxBackoff: real, turns: seq<Turn>, n: string)
    requires OnePerWorker(forks) && PossibleRun(Started(forks, at), turns, maxBackoff) && n in Workers(forks)
    ensures var s := LoopHead(Started(forks, at), turns, maxBackoff);
            && Forked(forks, turns, n) + (if n in s.due then 1 else 0) == 1 + Reaped(forks, turns, n)
            && n in s.backoff && s.backoff[n] == Backoff(Reaped(forks, turns, n), maxBackoff)
  {
    SupervisionInvariant(forks, at, maxBackoff, turns);
    TurnsTell(forks, at, maxBackoff, turns, 0, n);
    assert AccountOf(LoopHead(Started(forks, at), turns, maxBackoff), n, maxBackoff);
  }

  // ---------- the master ----------

  class Supervisor {
    var children: map<int, string>
    var due: map<string, real>
    var backoff: map<string, real>
    ghost var log: seq<Happening>
    const maxBackoff: real

    ghost function Abs(): State
      reads this
    {
      State(children, due, backoff, log)
    }

    /** Fork one child per worker. */
    constructor (forks: seq<Fork>, at: real, maxBackoff: real)
      ensures this.maxBackoff == maxBackoff && Abs() == Started(forks, at)
    {
      this.maxBackoff := maxBackoff;
      children, due, backoff, log := map[], map[], map[], [];
      new;
      for i := 0 to |forks|
        invariant Abs() == Started(forks[..i], at)
      {
        assert forks[..i + 1][..i] == forks[..i];
        backoff := backoff[forks[i].name := 1.0];
        SpawnChild(forks[i].name, forks[i].pid, at);
      }
      assert forks[..|forks|] == forks;
    }

    method SpawnChild(n: string, pid: int, at: real)
      modifies this
      ensures Abs() == Spawn(old(Abs()), n, pid, at)
    {
      children := children[pid := n];
      log := log + [Spawned(n, at)];
    }

    /** `[n for n, t in due.items() if now >= t]`, in no particular order. */
    method ElapsedNames(now: real) returns (names: seq<string>)
      ensures forall n :: n in names <==> n in due && now >= due[n]
      ensures forall i, j | 0 <= i < j < |names| :: names[i] != names[j]
      ensures |names| <= |due|
    {
      names := [];
      var todo := set n | n in due && now >= due[n];
      ghost var all := todo;
      while todo != {}
        invariant todo <= all && |names| + |todo| == |all|
        invariant forall n :: n in names <==> n in all && n !in todo
        invariant forall i, j | 0 <= i < j < |names| :: names[i] != names[j]
        decreases todo
      {
        var n :| n in todo;
        names := names + [n];
        todo := todo - {n};
      }
      SubsetBound(all, due.Keys);
      assert |due| == |due.Keys|;
    }

    /** The restart loop; `pids` are the ones that the coming forks return. */
    method RespawnElapsed(now: real, pids: seq<int>) returns (ghost forks: seq<Fork>)
      requires |due| <= |pids|
      requires forall i | 0 <= i < |pids| :: pids[i] !in children
      requires forall i, j | 0 <= i < j < |pids| :: pids[i] != pids[j]
      modifies this
      ensures Abs() == Respawn(old(Abs()), forks, now)
      ensures FreshPids(old(Abs()), forks) && Elapsed(old(Abs()), forks, now)
      ensures forall n | n in old(due) && now >= old(due)[n] :: Listed(forks, n)
    {
      var names := ElapsedNames(now);
      forks := seq(|names|, i requires 0 <= i < |names| && |names| <= |pids| => Fork(names[i], pids[i]));
      assert forall i | 0 <= i < |names| :: names[i] in names;
      forall n | n in names ensures Listed(forks, n) {
        var i :| 0 <= i < |names| && names[i] == n;
        assert forks[i].name == n;
      }
      RespawnAll(names, pids, now, forks);
    }

    method RespawnAll(names: seq<string>, pids: seq<int>, now: real, ghost forks: seq<Fork>)
      requires |names| == |forks| <= |pids| && forall i | 0 <= i < |names| :: forks[i] == Fork(names[i], pids[i])
      modifies this
      ensures Abs() == Respawn(old(Abs()), forks, now)
    {
      for i := 0 to |names|
        invariant Abs() == Respawn(old(Abs()), forks[..i], now)
      {
        assert forks[..i + 1][..i] == forks[..i];
        due := due - {names[i]};
        SpawnChild(names[i], pids[i], now);
      }
      assert forks[..|names|] == forks;
    }

    /** The rest of the loop body, after `waitpid` returned `pid`. */
    method ReapChild(pid: int, at: real)
      requires forall p | p in children :: children[p] in backoff
      modifies this
      ensures Abs() == Reap(old(Abs()), pid, at, maxBackoff)
      ensures pid !in old(children) ==> Abs() == old(Abs())
      ensures pid in old(children) ==>
                var n := old(children)[pid];
                && children == old(children) - {pid}
                && due == old(due)[n := at + old(backoff)[n]]
                && backoff == old(backoff)[n := MinReal(old(backoff)[n] * 2.0, maxBackoff)]
      ensures forall specs | Inv(old(Abs()), specs, maxBackoff) :: Inv(Abs(), specs, maxBackoff)
    {
      forall specs | Inv(Abs(), specs, maxBackoff) ensures Inv(Reap(Abs(), pid, at, maxBackoff), specs, maxBackoff) {
        ReapPartition(Abs(), specs, maxBackoff, pid, at);
        ReapAccounts(Abs(), specs, maxBackoff, pid, at);
      }
      if pid !in children { return; }
      var n := children[pid];
      children := children - {pid};
      due := due[n := at + backoff[n]];
      backoff := backoff[n := MinReal(backoff[n] * 2.0, maxBackoff)];
      log := log + [Died(n, at)];
    }
  }
}
