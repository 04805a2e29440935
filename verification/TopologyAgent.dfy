/** The agent's topology store and the apply and teardown requests on it
    (decnet/agent/topology_store.py, decnet/agent/topology_ops.py, decnet/agent/app.py). */
module TopologyAgent {
  import opened Common

  /** A hydrated topology; `id` is empty when `topology.id` is missing. */
  datatype Hydrated = Hydrated(id: string, body: string)

  /** The stored JSON: `{}` or a hydrated topology. */
  datatype Blob = EmptyBlob | Blob(hydrated: Hydrated)
  datatype Row = Row(hash: string, blob: Blob, appliedAt: int, lastError: Option<string>)
  type Rows = map<string, Row>

  /** What structural validation does: it can also raise, as on a topology without `lans`. */
  datatype Verdict = Clean | Errors | Raises

  /** `canonical_hash` and the validator, about which nothing else is assumed. */
  datatype Rules = Rules(hash: Hydrated -> string, verdict: Hydrated -> Verdict)

  /** What docker and the clock do during a request. */
  datatype Env = Env(teardownFails: bool, materialiseFails: bool, clock: int, message: string)

  datatype Outcome = HashMismatch | Invalid | AlreadyApplied | Failed | Applied | TornDown

  // ---------- the store ----------

  /** `SELECT ... LIMIT 1`: some row, when there is one. */
  predicate Picked(rows: Rows, pick: Option<string>) {
    if rows == map[] then pick == None else pick.Some? && pick.value in rows
  }

  predicate PutConflicts(pick: Option<string>, id: string) {
    pick.Some? && pick.value != id
  }

  function PutRow(rows: Rows, id: string, hash: string, h: Hydrated, clock: int): Rows {
    rows[id := Row(hash, Blob(h), clock, None)]
  }

  function ErrorRow(rows: Rows, id: string, message: string, h: Hydrated): Rows {
    if id in rows then
      var row := rows[id];
      rows[id := row.(lastError := Some(message), blob := if row.blob == EmptyBlob then Blob(h) else row.blob)]
    else rows[id := Row("", Blob(h), 0, Some(message))]
  }

  class TopologyStore {
    var rows: Rows

    constructor ()
      ensures rows == map[]
    {
      rows := map[];
    }

    method Current() returns (pick: Option<string>)
      ensures Picked(rows, pick)
    {
      if rows == map[] { return None; }
      var k :| k in rows.Keys;
      return Some(k);
    }

    /** False stands for AlreadyApplied. */
    method Put(id: string, hash: string, h: Hydrated, clock: int) returns (ok: bool, ghost pick: Option<string>)
      modifies this
      ensures Picked(old(rows), pick) && ok == !PutConflicts(pick, id)
      ensures rows == if ok then PutRow(old(rows), id, hash, h, clock) else old(rows)
    {
      var existing := Current();
      pick := existing;
      ok := existing.None? || existing.value == id;
      if ok { rows := PutRow(rows, id, hash, h, clock); }
    }

    /** Whatever was recorded, there is afterwards a row to tear down from, with the error. */
    method RecordError(id: string, message: string, h: Hydrated)
      modifies this
      ensures rows == ErrorRow(old(rows), id, message, h)
      ensures rows.Keys == old(rows).Keys + {id} && rows[id].lastError == Some(message) && rows[id].blob.Blob?
      ensures forall other | other in old(rows) && other != id :: rows[other] == old(rows)[other]
    {
      if id !in rows {
        rows := rows[id := Row("", Blob(h), 0, Some(message))];
        return;
      }
      rows := rows[id := rows[id].(lastError := Some(message))];
      if rows[id].blob == EmptyBlob { rows := rows[id := rows[id].(blob := Blob(h))]; }
    }

    method Clear(id: string)
      modifies this
      ensures rows == old(rows) - {id}
    {
      rows := rows - {id};
    }
  }

  // ---------- requests ----------

  /** After `_teardown_superseded`: a different current topology is gone, torn down or not. */
  function Superseded(rows: Rows, id: string, pick: Option<string>): Rows {
    if pick.Some? && pick.value != id then rows - {pick.value} else rows
  }

  /** A topology that passed the hash check, validation and the id check. */
  function Materialised(rows: Rows, h: Hydrated, version: string, env: Env, pick: Option<string>): (Rows, Outcome) {
    if env.materialiseFails then (ErrorRow(rows, h.id, env.message, h), Failed)
    else if PutConflicts(pick, h.id) then (rows, AlreadyApplied)
    else (PutRow(rows, h.id, version, h, env.clock), Applied)
  }

  /** The apply endpoint. `first` and `second` are what the two reads of the current row gave. */
  function Apply(rules: Rules, rows: Rows, h: Hydrated, version: string, env: Env, first: Option<string>,
                 second: Option<string>): (Rows, Outcome) {
    if rules.hash(h) != version then (rows, HashMismatch)
    else if rules.verdict(h) == Errors then (rows, Invalid)
    else if h.id == "" then (rows, Failed)
    else if rules.verdict(h) == Raises then (ErrorRow(rows, h.id, env.message, h), Failed)
    else Materialised(Superseded(rows, h.id, first), h, version, env, second)
  }

  predicate ReadsOk(rows: Rows, h: Hydrated, first: Option<string>, second: Option<string>) {
    Picked(rows, first) && Picked(Superseded(rows, h.id, first), second)
  }

  function Teardown(rows: Rows, id: string, env: Env): (Rows, Outcome) {
    if env.teardownFails then (rows, Failed) else (rows - {id}, TornDown)
  }

  /** `teardown`: the docker part may raise before the row is cleared. */
  method TeardownTopology(store: TopologyStore, id: string, env: Env) returns (ok: bool)
    modifies store
    ensures (store.rows, if ok then TornDown else Failed) == Teardown(old(store.rows), id, env)
  {
    if env.teardownFails { return false; }
    store.Clear(id);
    return true;
  }

  method TeardownSuperseded(store: TopologyStore, id: string, env: Env) returns (ghost first: Option<string>)
    modifies store
    ensures Picked(old(store.rows), first) && store.rows == Superseded(old(store.rows), id, first)
  {
    var existing := store.Current();
    first := existing;
    if existing.None? || existing.value == id { return; }
    var ok := TeardownTopology(store, existing.value, env);
    if !ok { store.Clear(existing.value); }
  }

  /** The apply endpoint, with the error handler of `topology_apply`. */
  method ApplyTopology(rules: Rules, store: TopologyStore, h: Hydrated, version: string, env: Env)
    returns (outcome: Outcome, ghost first: Option<string>, ghost second: Option<string>)
    modifies store
    ensures ReadsOk(old(store.rows), h, first, second)
    ensures (store.rows, outcome) == Apply(rules, old(store.rows), h, version, env, first, second)
  {
    first := if store.rows == map[] then None else Some(var k :| k in store.rows.Keys; k);
    ghost var rest := Superseded(store.rows, h.id, first);
    second := if rest == map[] then None else Some(var k :| k in rest.Keys; k);
    if rules.hash(h) != version { return HashMismatch, first, second; }
    var verdict := rules.verdict(h);
    if verdict == Errors { return Invalid, first, second; }
    if verdict == Raises || h.id == "" {
      if h.id != "" { store.RecordError(h.id, env.message, h); }
      return Failed, first, second;
    }
    first := TeardownSuperseded(store, h.id, env);
    if env.materialiseFails {
      second := if store.rows == map[] then None else Some(var k :| k in store.rows.Keys; k);
      store.RecordError(h.id, env.message, h);
      return Failed, first, second;
    }
    var ok;
    ok, second := store.Put(h.id, version, h, env.clock);
    return if ok then Applied else AlreadyApplied, first, second;
  }

  // ---------- runs ----------

  datatype Request =
    | ApplyRequest(h: Hydrated, version: string, env: Env, first: Option<string>, second: Option<string>)
    | TeardownRequest(id: string, env: Env)

  function Serve(rules: Rules, rows: Rows, r: Request): (Rows, Outcome) {
    match r
    case ApplyRequest(h, version, env, first, second) => Apply(rules, rows, h, version, env, first, second)
    case TeardownRequest(id, env) => Teardown(rows, id, env)
  }

  /** The reads recorded in the request are ones the store could have given. */
  predicate Possible(rows: Rows, r: Request) {
    r.ApplyRequest? ==> ReadsOk(rows, r.h, r.first, r.second)
  }

  function After(rules: Rules, rs: seq<Request>): Rows {
    if rs == [] then map[] else Serve(rules, After(rules, rs[..|rs| - 1]), rs[|rs| - 1]).0
  }

  ghost predicate PossibleRun(rules: Rules, rs: seq<Request>) {
    forall i | 0 <= i < |rs| :: Possible(After(rules, rs[..i]), rs[i])
  }

  predicate SingleRow(rows: Rows) {
    forall a, b | a in rows && b in rows :: a == b
  }

  /** Every recorded hash is empty or the canonical hash of the blob stored beside it. */
  predicate HashesMatch(rules: Rules, rows: Rows) {
    forall id | id in rows ::
      rows[id].blob.Blob? && (rows[id].hash == "" || rows[id].hash == rules.hash(rows[id].blob.hydrated))
  }

  lemma ServeKeepsHashes(rules: Rules, rows: Rows, r: Request)
    requires HashesMatch(rules, rows)
    ensures HashesMatch(rules, Serve(rules, rows, r).0)
  {
  }

  lemma {:induction false} HashesAlwaysMatch(rules: Rules, rs: seq<Request>)
    ensures HashesMatch(rules, After(rules, rs))
  {
    if rs != [] {
      HashesAlwaysMatch(rules, rs[..|rs| - 1]);
      ServeKeepsHashes(rules, After(rules, rs[..|rs| - 1]), rs[|rs| - 1]);
    }
  }

  /** A request whose validation raises while a different topology is recorded. */
  predicate ForeignCrash(rules: Rules, rows: Rows, r: Request) {
    && r.ApplyRequest? && rules.hash(r.h) == r.version && rules.verdict(r.h) == Raises
    && r.h.id != "" && exists id :: id in rows && id != r.h.id
  }

  /** One request keeps a single row exactly when it is not such a crash, and then never conflicts. */
  lemma SingleRowKeptIff(rules: Rules, rows: Rows, r: Request)
    requires SingleRow(rows) && Possible(rows, r)
    ensures SingleRow(Serve(rules, rows, r).0) <==> !ForeignCrash(rules, rows, r)
    ensures Serve(rules, rows, r).1 != AlreadyApplied
  {
    var rows' := Serve(rules, rows, r).0;
    if r.ApplyRequest? {
      var rest := Superseded(rows, r.h.id, r.first);
      assert forall id | id in rest :: id == r.h.id;
      if ForeignCrash(rules, rows, r) {
        var id :| id in rows && id != r.h.id;
        assert id in rows' && r.h.id in rows';
      }
    }
  }

  /** What an apply leaves in a store that held at most one row: on success exactly the applied
      topology with its hash; after a failed materialisation only this topology, with the error
      and a blob to tear down from; a refused request changes nothing. */
  lemma ApplyLeaves(rules: Rules, rows: Rows, r: Request)
    requires r.ApplyRequest? && SingleRow(rows) && Possible(rows, r)
    ensures var (rows', outcome) := Serve(rules, rows, r);
            && (outcome == Applied ==>
                  rows' == map[r.h.id := Row(rules.hash(r.h), Blob(r.h), r.env.clock, None)])
            && (outcome == HashMismatch || outcome == Invalid ==> rows' == rows)
            && (outcome == Failed && r.h.id != "" && !ForeignCrash(rules, rows, r) ==>
                  rows'.Keys == {r.h.id} && rows'[r.h.id].lastError == Some(r.env.message) && rows'[r.h.id].blob.Blob?)
  {
    var rest := Superseded(rows, r.h.id, r.first);
    assert forall id | id in rest :: id == r.h.id;
    assert rules.hash(r.h) == r.version && rules.verdict(r.h) == Raises && r.h.id != "" && !ForeignCrash(rules, rows, r)
        ==> forall id | id in rows :: id == r.h.id;
  }

  ghost predicate NoForeignCrash(rules: Rules, rs: seq<Request>) {
    forall i | 0 <= i < |rs| :: !ForeignCrash(rules, After(rules, rs[..i]), rs[i])
  }

  ghost predicate AlwaysSingle(rules: Rules, rs: seq<Request>) {
    forall i | 0 <= i <= |rs| :: SingleRow(After(rules, rs[..i]))
  }

  lemma {:induction false} SafeRunIsSingle(rules: Rules, rs: seq<Request>)
    requires PossibleRun(rules, rs) && NoForeignCrash(rules, rs)
    ensures AlwaysSingle(rules, rs)
  {
    if rs != [] {
      var m := |rs| - 1;
      var before := rs[..m];
      assert forall i | 0 <= i <= m :: before[..i] == rs[..i];
      SafeRunIsSingle(rules, before);
      assert rs[..m + 1] == rs && before[..m] == before;
      assert SingleRow(After(rules, before));
      SingleRowKeptIff(rules, After(rules, before), rs[m]);
    }
  }

  lemma SafeRunNeverConflicts(rules: Rules, rs: seq<Request>)
    requires PossibleRun(rules, rs) && NoForeignCrash(rules, rs)
    ensures forall i | 0 <= i < |rs| :: Serve(rules, After(rules, rs[..i]), rs[i]).1 != AlreadyApplied
  {
    SafeRunIsSingle(rules, rs);
    forall i | 0 <= i < |rs| ensures Serve(rules, After(rules, rs[..i]), rs[i]).1 != AlreadyApplied {
      SingleRowKeptIff(rules, After(rules, rs[..i]), rs[i]);
    }
  }

  lemma AfterStep(rules: Rules, rs: seq<Request>, i: nat)
    requires i < |rs|
    ensures After(rules, rs[..i + 1]) == Serve(rules, After(rules, rs[..i]), rs[i]).0
  {
    assert rs[..i + 1][..i] == rs[..i];
  }

  lemma CrashBreaksSingle(rules: Rules, rs: seq<Request>, i: nat)
    requires PossibleRun(rules, rs) && i < |rs| && ForeignCrash(rules, After(rules, rs[..i]), rs[i])
    ensures !AlwaysSingle(rules, rs)
  {
    var rows := After(rules, rs[..i]);
    AfterStep(rules, rs, i);
    assert Possible(rows, rs[i]);
    if SingleRow(rows) {
      SingleRowKeptIff(rules, rows, rs[i]);
      assert !SingleRow(After(rules, rs[..i + 1]));
    }
  }

  /** Over every run: at most one row at all times exactly when no request crashes validation
      while another topology is recorded; and then no apply is answered with a conflict. */
  lemma SingleTopologyIff(rules: Rules, rs: seq<Request>)
    requires PossibleRun(rules, rs)
    ensures AlwaysSingle(rules, rs) <==> NoForeignCrash(rules, rs)
    ensures NoForeignCrash(rules, rs) ==>
              forall i | 0 <= i < |rs| :: Serve(rules, After(rules, rs[..i]), rs[i]).1 != AlreadyApplied
  {
    if NoForeignCrash(rules, rs) {
      SafeRunIsSingle(rules, rs);
      SafeRunNeverConflicts(rules, rs);
    } else {
      var i: nat :| i < |rs| && ForeignCrash(rules, After(rules, rs[..i]), rs[i]);
      CrashBreaksSingle(rules, rs, i);
    }
  }

  /** A request that reaches `put`: right hash, valid, with an id, and docker willing. */
  predicate Good(rules: Rules, h: Hydrated, version: string, env: Env) {
    rules.hash(h) == version && rules.verdict(h) == Clean && h.id != "" && !env.materialiseFails
  }

  /** Some order in which the table can list its rows makes `put` refuse the request. */
  ghost predicate CanConflict(rules: Rules, rows: Rows, h: Hydrated, version: string, env: Env) {
    exists first, second :: ReadsOk(rows, h, first, second)
                            && Apply(rules, rows, h, version, env, first, second).1 == AlreadyApplied
  }

  /** A good request can be refused exactly when there is more than one row. */
  lemma RefusedIffSeveralRows(rules: Rules, rows: Rows, h: Hydrated, version: string, env: Env)
    requires Good(rules, h, version, env)
    ensures CanConflict(rules, rows, h, version, env) <==> !SingleRow(rows)
  {
    if a, b :| a in rows && b in rows && a != b {
      var foreign, rest := if a != h.id then a else b, if a != h.id then b else a;
      var first, second := if rest == h.id then rest else foreign, if rest == h.id then foreign else rest;
      assert second in Superseded(rows, h.id, Some(first));
      assert ReadsOk(rows, h, Some(first), Some(second));
      assert Apply(rules, rows, h, version, env, Some(first), Some(second)).1 == AlreadyApplied;
    }
    if SingleRow(rows) {
      forall first, second | ReadsOk(rows, h, first, second)
        ensures Apply(rules, rows, h, version, env, first, second).1 != AlreadyApplied
      {
        SingleRowKeptIff(rules, rows, ApplyRequest(h, version, env, first, second));
      }
    }
  }

  /** Over every run: at no point could a good request be refused exactly when no request crashes
      validation while another topology is recorded. */
  lemma NeverRefusedIff(rules: Rules, rs: seq<Request>, h: Hydrated, version: string, env: Env)
    requires PossibleRun(rules, rs) && Good(rules, h, version, env)
    ensures (forall i | 0 <= i <= |rs| :: !CanConflict(rules, After(rules, rs[..i]), h, version, env))
            <==> NoForeignCrash(rules, rs)
  {
    SingleTopologyIff(rules, rs);
    forall i | 0 <= i <= |rs|
      ensures CanConflict(rules, After(rules, rs[..i]), h, version, env) <==> !SingleRow(After(rules, rs[..i]))
    {
      RefusedIffSeveralRows(rules, After(rules, rs[..i]), h, version, env);
    }
  }

  /** Such a run: `b` crashes validation while `a` is applied, and a later apply of `c` conflicts. */
  lemma CrashThenConflict(rules: Rules, a: Hydrated, b: Hydrated, c: Hydrated, env: Env) returns (rs: seq<Request>)
    requires a.id != b.id && b.id != c.id && a.id != c.id && a.id != "" && b.id != "" && c.id != ""
    requires rules.verdict(a) == Clean && rules.verdict(b) == Raises && rules.verdict(c) == Clean
    requires !env.materialiseFails
    ensures |rs| == 3 && PossibleRun(rules, rs)
    ensures !SingleRow(After(rules, rs[..2])) && Serve(rules, After(rules, rs[..2]), rs[2]).1 == AlreadyApplied
  {
    var applyA := ApplyRequest(a, rules.hash(a), env, None, None);
    var applyB := ApplyRequest(b, rules.hash(b), env, Some(a.id), None);
    var applyC := ApplyRequest(c, rules.hash(c), env, Some(a.id), Some(b.id));
    rs := [applyA, applyB, applyC];
    var rowsA := PutRow(map[], a.id, rules.hash(a), a, env.clock);
    var rowsAB := ErrorRow(rowsA, b.id, env.message, b);
    assert rs[..1] == [applyA] && rs[..2] == [applyA, applyB];
    assert [applyA][..0] == [] && [applyA, applyB][..1] == [applyA];
    assert After(rules, []) == map[];
    assert After(rules, [applyA]) == rowsA;
    assert After(rules, [applyA, applyB]) == rowsAB;
    assert a.id in rowsAB && b.id in rowsAB;
    assert Superseded(rowsA, b.id, Some(a.id)) == map[];
    assert b.id in Superseded(rowsAB, c.id, Some(a.id));
    assert Possible(rowsAB, applyC) && Possible(rowsA, applyB) && Possible(map[], applyA);
  }

  /** Which answer a request gets, for every store. */
  lemma ApplyAnswers(rules: Rules, rows: Rows, h: Hydrated, version: string, env: Env, first: Option<string>,
                     second: Option<string>)
    requires ReadsOk(rows, h, first, second)
    ensures var outcome := Apply(rules, rows, h, version, env, first, second).1;
            var checked := rules.hash(h) == version && rules.verdict(h) != Errors;
            && (outcome == HashMismatch <==> rules.hash(h) != version)
            && (outcome == Invalid <==> rules.hash(h) == version && rules.verdict(h) == Errors)
            && (outcome == Failed <==> checked && (h.id == "" || rules.verdict(h) == Raises || env.materialiseFails))
            && (SingleRow(rows) ==> (outcome == Applied <==> Good(rules, h, version, env)))
            && outcome != TornDown
  {
    if SingleRow(rows) { SingleRowKeptIff(rules, rows, ApplyRequest(h, version, env, first, second)); }
  }

  /** What a teardown leaves: every other row, and this one exactly when docker failed. */
  lemma TeardownLeaves(rows: Rows, id: string, env: Env)
    ensures var (rows', outcome) := Teardown(rows, id, env);
            && (outcome == Failed <==> env.teardownFails) && (outcome == TornDown <==> !env.teardownFails)
            && (forall k | k != id :: (k in rows' <==> k in rows) && (k in rows ==> rows'[k] == rows[k]))
            && (if env.teardownFails then rows' == rows else id !in rows')
  {
  }

  /** What a refused or failed request does to the row of another topology: nothing, unless the
      failure came after it was superseded. */
  lemma OtherRowKept(rules: Rules, rows: Rows, r: Request, id: string)
    requires r.ApplyRequest? && Possible(rows, r) && id in rows && id != r.h.id
    ensures var rows' := Serve(rules, rows, r).0;
            if Good(rules, r.h, r.version, r.env.(materialiseFails := false)) && r.first == Some(id) then id !in rows'
            else id in rows' && rows'[id] == rows[id]
  {
  }

  /** What recording an error means for the row: it carries the error and something to tear down
      from; a row that was there keeps its hash, its time and its blob, unless that was empty; a new
      one is a marker with no hash and no time. Every other row stays. */
  lemma ErrorRecorded(rows: Rows, id: string, message: string, h: Hydrated)
    ensures var rows' := ErrorRow(rows, id, message, h);
            && rows'.Keys == rows.Keys + {id} && (forall k | k in rows && k != id :: rows'[k] == rows[k])
            && rows'[id].lastError == Some(message)
            && (id in rows ==> rows'[id].hash == rows[id].hash && rows'[id].appliedAt == rows[id].appliedAt)
            && (id in rows && rows[id].blob != EmptyBlob ==> rows'[id].blob == rows[id].blob)
            && (id !in rows || rows[id].blob == EmptyBlob ==> rows'[id].blob == Blob(h))
            && (id !in rows ==> rows'[id].hash == "" && rows'[id].appliedAt == 0)
  {
  }
}
