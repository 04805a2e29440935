/** The pass that converges state file, database and docker (decnet/fleet/reconciler.py). */
module FleetReconciler {
  import opened Common
  import opened Text

  /** A decky of the state file; `host` is empty when it names none. */
  datatype Decky = Decky(name: string, services: seq<string>, host: string, config: string)

  datatype Key = Key(host: string, name: string)
  datatype Row = Row(services: seq<string>, config: string, state: string)
  type Db = map<Key, Row>

  /** A write to the repository; a bus event about it names the key and the states. */
  datatype Write =
    | Inserted(key: Key, row: Row)
    | Deleted(key: Key)
    | Changed(key: Key, state: string, previous: string)

  datatype Entry = Entry(key: Key, row: Row)

  /** What a pass looked at before it wrote anything. */
  datatype View = View(host: string, snapshot: map<string, Entry>, docker: Option<map<string, string>>)

  datatype World = World(rows: Db, writes: seq<Write>)

  // ---------- docker ----------

  function Dashed(service: string): (s: string)
    ensures |s| == |service|
  {
    seq(|service|, i requires 0 <= i < |service| => if service[i] == '_' then '-' else service[i])
  }

  function Expected(name: string, services: seq<string>): set<string> {
    set s | s in services :: name + "-" + Dashed(s)
  }

  /** The container of a service of a decky: both names with a dash between them, and the
      underscores of the service as dashes. */
  predicate IsContainer(name: string, service: string, container: string) {
    && |container| == |name| + 1 + |service|
    && container[..|name|] == name && container[|name|] == '-'
    && forall i | 0 <= i < |service| ::
         container[|name| + 1 + i] == if service[i] == '_' then '-' else service[i]
  }

  lemma ExpectedMeans(name: string, services: seq<string>, container: string)
    ensures container in Expected(name, services) <==> exists s | s in services :: IsContainer(name, s, container)
  {
    if s :| s in services && IsContainer(name, s, container) {
      assert container == name + "-" + Dashed(s);
    }
    if s :| s in services && container == name + "-" + Dashed(s) {
      assert IsContainer(name, s, container);
    }
  }

  /** `_aggregate_decky_state`. */
  function Aggregate(name: string, services: seq<string>, containers: map<string, string>): string {
    var seen := Seen(name, services, containers);
    if |seen| == 0 then "torn_down"
    else if seen.Values == {"running"} && |seen| == |Expected(name, services)| then "running"
    else if "running" !in seen.Values then "failed"
    else "degraded"
  }

  predicate Observed(containers: map<string, string>, n: string) { n in containers }
  predicate Running(containers: map<string, string>, n: string) { n in containers && containers[n] == "running" }

  lemma SubsetSize(a: set<string>, b: set<string>)
    requires a <= b && |a| == |b|
    ensures a == b
  {
    if x :| x in b && x !in a {
      SubsetBound(a, b - {x});
    }
  }

  /** The expected containers that docker reported, with their statuses. */
  function Seen(name: string, services: seq<string>, containers: map<string, string>): map<string, string> {
    map n | n in containers && n in Expected(name, services) :: containers[n]
  }

  ghost predicate SomeSeen(name: string, services: seq<string>, containers: map<string, string>) {
    exists n :: n in Expected(name, services) && Observed(containers, n)
  }

  ghost predicate SomeRunning(name: string, services: seq<string>, containers: map<string, string>) {
    exists n :: n in Expected(name, services) && Running(containers, n)
  }

  predicate AllRunning(name: string, services: seq<string>, containers: map<string, string>) {
    forall n | n in Expected(name, services) :: Running(containers, n)
  }

  lemma SeenSize(name: string, services: seq<string>, containers: map<string, string>)
    ensures |Seen(name, services, containers)| > 0 <==> SomeSeen(name, services, containers)
  {
    var seen := Seen(name, services, containers);
    assert |seen| == |seen.Keys|;
    if n :| n in Expected(name, services) && Observed(containers, n) { assert n in seen.Keys; }
    if |seen| > 0 {
      var n :| n in seen.Keys;
      assert n in Expected(name, services) && Observed(containers, n);
    }
  }

  lemma SeenRunning(name: string, services: seq<string>, containers: map<string, string>)
    ensures "running" in Seen(name, services, containers).Values <==> SomeRunning(name, services, containers)
  {
    var seen := Seen(name, services, containers);
    if "running" in seen.Values {
      var n :| n in seen && seen[n] == "running";
      assert n in Expected(name, services) && Running(containers, n);
    }
    if n :| n in Expected(name, services) && Running(containers, n) { assert n in seen && seen[n] == "running"; }
  }

  lemma SeenAllRunning(name: string, services: seq<string>, containers: map<string, string>)
    requires |Seen(name, services, containers)| > 0
    ensures var seen := Seen(name, services, containers);
            seen.Values == {"running"} && |seen| == |Expected(name, services)|
            <==> AllRunning(name, services, containers)
  {
    var seen, expected := Seen(name, services, containers), Expected(name, services);
    assert |seen| == |seen.Keys| && seen.Keys <= expected;
    if AllRunning(name, services, containers) {
      assert seen.Keys == expected;
      assert forall v | v in seen.Values :: v == "running";
      var n :| n in seen.Keys;
      assert seen[n] in seen.Values;
    }
    if seen.Values == {"running"} && |seen| == |expected| {
      SubsetSize(seen.Keys, expected);
      forall n | n in expected ensures Running(containers, n) { assert seen[n] in seen.Values; }
    }
  }

  /** The four states mean what their documentation says, and nothing else is ever answered. */
  lemma AggregateMeaning(name: string, services: seq<string>, containers: map<string, string>)
    ensures var r := Aggregate(name, services, containers);
            var some, someRun, allRun := SomeSeen(name, services, containers),
                SomeRunning(name, services, containers), AllRunning(name, services, containers);
            && (r == "torn_down" <==> !some)
            && (r == "running" <==> some && allRun)
            && (r == "failed" <==> some && !someRun)
            && (r == "degraded" <==> someRun && !allRun)
  {
    SeenSize(name, services, containers);
    SeenRunning(name, services, containers);
    if |Seen(name, services, containers)| > 0 { SeenAllRunning(name, services, containers); }
    if SomeRunning(name, services, containers) {
      var n :| n in Expected(name, services) && Running(containers, n);
      assert Observed(containers, n);
    }
    if SomeSeen(name, services, containers) && AllRunning(name, services, containers) {
      var n :| n in Expected(name, services) && Observed(containers, n);
      assert Running(containers, n);
    }
  }

  // ---------- one pass ----------

  /** The rows that the repository lists for a host: for the empty host those of every host. */
  predicate InScope(host: string, k: Key) {
    host == "" || k.host == host
  }

  /** `{r["name"]: r for r in db_rows}`: of rows with one name the last one listed stays. */
  function Snapshot(rows: Db, listed: seq<Key>): map<string, Entry> {
    if listed == [] then map[]
    else
      var before, k := Snapshot(rows, listed[..|listed| - 1]), listed[|listed| - 1];
      if k in rows then before[k.name := Entry(k, rows[k])] else before
  }

  function Target(v: View, d: Decky): string
    requires v.docker.Some?
  {
    Aggregate(d.name, d.services, v.docker.value)
  }

  function RowHost(v: View, d: Decky): string {
    if d.host != "" then d.host else v.host
  }

  function NewState(v: View, d: Decky): string {
    if v.docker.Some? then Target(v, d) else "running"
  }

  function InsertOne(w: World, v: View, d: Decky): World {
    if d.name in v.snapshot then w
    else
      var key, row := Key(RowHost(v, d), d.name), Row(d.services, d.config, NewState(v, d));
      World(w.rows[key := row], w.writes + [Inserted(key, row)])
  }

  function DeleteOne(w: World, names: set<string>, k: Key): World {
    if k.name in names then w else World(w.rows - {k}, w.writes + [Deleted(k)])
  }

  /** An SQL update: no effect on a row that is not there. */
  function SetState(rows: Db, key: Key, state: string): Db {
    if key in rows then rows[key := rows[key].(state := state)] else rows
  }

  function ChangeOne(w: World, v: View, d: Decky): World {
    if v.docker.None? || d.name !in v.snapshot || v.snapshot[d.name].row.state == Target(v, d) then w
    else
      var Entry(key, row) := v.snapshot[d.name];
      World(SetState(w.rows, key, Target(v, d)), w.writes + [Changed(key, Target(v, d), row.state)])
  }

  function InsertAll(w: World, v: View, json: seq<Decky>): World {
    if json == [] then w else InsertOne(InsertAll(w, v, json[..|json| - 1]), v, json[|json| - 1])
  }

  function DeleteAll(w: World, names: set<string>, listed: seq<Key>): World {
    if listed == [] then w
    else DeleteOne(DeleteAll(w, names, listed[..|listed| - 1]), names, listed[|listed| - 1])
  }

  function ChangeAll(w: World, v: View, json: seq<Decky>): World {
    if json == [] then w else ChangeOne(ChangeAll(w, v, json[..|json| - 1]), v, json[|json| - 1])
  }

  function Names(json: seq<Decky>): set<string> {
    set d | d in json :: d.name
  }

  /** `listed` is the rows in scope, each once, in the order the repository gave them. */
  ghost predicate Lists(listed: seq<Key>, rows: Db, host: string) {
    && (forall k :: k in listed <==> k in rows && InScope(host, k))
    && (forall i, j | 0 <= i < j < |listed| :: listed[i] != listed[j])
  }

  function ViewOf(rows: Db, host: string, docker: Option<map<string, string>>, listed: seq<Key>): View {
    View(host, Snapshot(rows, listed), docker)
  }

  /** Rows and writes after a whole pass. */
  function Pass(rows: Db, host: string, json: seq<Decky>, docker: Option<map<string, string>>,
                listed: seq<Key>): World {
    var v := ViewOf(rows, host, docker, listed);
    ChangeAll(DeleteAll(InsertAll(World(rows, []), v, json), Names(json), listed), v, json)
  }

  function CountInserted(ws: seq<Write>): nat {
    if ws == [] then 0 else CountInserted(ws[..|ws| - 1]) + if ws[|ws| - 1].Inserted? then 1 else 0
  }
  function CountDeleted(ws: seq<Write>): nat {
    if ws == [] then 0 else CountDeleted(ws[..|ws| - 1]) + if ws[|ws| - 1].Deleted? then 1 else 0
  }
  function CountChanged(ws: seq<Write>): nat {
    if ws == [] then 0 else CountChanged(ws[..|ws| - 1]) + if ws[|ws| - 1].Changed? then 1 else 0
  }

  class Repo {
    var rows: Db

    constructor (rows: Db)
      ensures this.rows == rows
    {
      this.rows := rows;
    }

    /** `list_fleet_deckies(host_uuid=host)`, in no particular order. */
    method ListFleetDeckies(host: string) returns (listed: seq<Key>)
      ensures Lists(listed, rows, host)
    {
      listed := [];
      var todo := set k | k in rows && InScope(host, k);
      ghost var all := todo;
      while todo != {}
        invariant todo <= all
        invariant forall k :: k in listed <==> k in all && k !in todo
        invariant forall i, j | 0 <= i < j < |listed| :: listed[i] != listed[j]
        decreases todo
      {
        var k :| k in todo;
        listed := listed + [k];
        todo := todo - {k};
      }
    }
  }

  // ---------- topics ----------

  /** What `_reject_tokens` lets through as one topic segment. */
  predicate TokenSafe(part: string) {
    part != "" && forall c | c in part :: c != '.' && c != '*' && c != '>' && !IsSpace(c)
  }

  /** An event about this row can be given a topic: its segment is `host:name`. */
  predicate TopicSafe(k: Key) {
    TokenSafe(k.host + ":" + k.name)
  }

  predicate AllSafe(writes: seq<Write>) {
    forall x | x in writes :: TopicSafe(x.key)
  }

  /** Letters, digits, dashes, underscores and colons are safe. */
  lemma OrdinaryTokenSafe(part: string)
    requires part != ""
    requires forall c | c in part ::
               'a' <= c <= 'z' || 'A' <= c <= 'Z' || '0' <= c <= '9' || c == '-' || c == '_' || c == ':'
    ensures TokenSafe(part)
  {
  }

  /** A dot, a wildcard or a space anywhere is not, nor is nothing at all. */
  lemma UnsafeToken(part: string, i: nat)
    requires part == "" || (i < |part| && part[i] in {'.', '*', '>', ' ', '\t', '\n', '\r'})
    ensures !TokenSafe(part)
  {
    if part != "" { assert part[i] in part; }
  }

  /** The separator is harmless, so the two halves decide. */
  lemma TopicSafeIff(k: Key)
    ensures TopicSafe(k) <==> (k.host == "" || TokenSafe(k.host)) && (k.name == "" || TokenSafe(k.name))
  {
    var id := k.host + ":" + k.name;
    assert forall c | c in id :: c in k.host || c == ':' || c in k.name;
    assert id[|k.host|] == ':';
    assert forall c | c in k.host :: c in id;
    assert forall c | c in k.name :: c in id;
  }

  // ---------- the pass, step by step ----------

  datatype Counts = Counts(inserted: nat, deleted: nat, updated: nat)

  /** `Raised` is the ValueError of the topic builder, which nothing in a pass catches. */
  datatype Outcome = Finished(counts: Counts) | Raised

  /** The table after the writes, in order. */
  function Replay(rows: Db, writes: seq<Write>): Db {
    if writes == [] then rows else ApplyWrite(Replay(rows, writes[..|writes| - 1]), writes[|writes| - 1])
  }

  function ApplyWrite(rows: Db, w: Write): Db {
    match w
    case Inserted(k, row) => rows[k := row]
    case Deleted(k) => rows - {k}
    case Changed(k, state, _) => SetState(rows, k, state)
  }

  function Tally(writes: seq<Write>): Counts {
    Counts(CountInserted(writes), CountDeleted(writes), CountChanged(writes))
  }

  /** Where the writes of each kind stand. */
  function Insertions(writes: seq<Write>): set<nat> {
    set i: nat | i < |writes| && writes[i].Inserted?
  }

  lemma {:induction false} CountInsertedIs(writes: seq<Write>)
    ensures CountInserted(writes) == |Insertions(writes)|
  {
    if writes != [] {
      var m := |writes| - 1;
      CountInsertedIs(writes[..m]);
      var before := Insertions(writes[..m]);
      assert Insertions(writes) == if writes[m].Inserted? then before + {m} else before;
    }
  }

  function Deletions(writes: seq<Write>): set<nat> {
    set i: nat | i < |writes| && writes[i].Deleted?
  }

  lemma {:induction false} CountDeletedIs(writes: seq<Write>)
    ensures CountDeleted(writes) == |Deletions(writes)|
  {
    if writes != [] {
      var m := |writes| - 1;
      CountDeletedIs(writes[..m]);
      var before := Deletions(writes[..m]);
      assert Deletions(writes) == if writes[m].Deleted? then before + {m} else before;
    }
  }

  function StateChanges(writes: seq<Write>): set<nat> {
    set i: nat | i < |writes| && writes[i].Changed?
  }

  lemma {:induction false} CountChangedIs(writes: seq<Write>)
    ensures CountChanged(writes) == |StateChanges(writes)|
  {
    if writes != [] {
      var m := |writes| - 1;
      CountChangedIs(writes[..m]);
      var before := StateChanges(writes[..m]);
      assert StateChanges(writes) == if writes[m].Changed? then before + {m} else before;
    }
  }

  /** The counters tell how many writes of each kind there were. */
  lemma TallyMeans(writes: seq<Write>)
    ensures Tally(writes) == Counts(|Insertions(writes)|, |Deletions(writes)|, |StateChanges(writes)|)
  {
    CountInsertedIs(writes);
    CountDeletedIs(writes);
    CountChangedIs(writes);
  }

  /** A pass that was not stopped: every write was counted, and with a bus every one was safe to
      announce and was announced. */
  ghost predicate Complete(rows0: Db, rows: Db, counts: Counts, events: seq<Write>, bus: bool, w: World) {
    && rows == w.rows == Replay(rows0, w.writes)
    && counts == Tally(w.writes)
    && events == (if bus then w.writes else [])
    && AllSafe(events)
  }

  /** A pass that was stopped on the way through `writes`: it did them up to and including the
      first that no topic can announce, and announced those before it. */
  ghost predicate Stopped(rows0: Db, rows: Db, events: seq<Write>, writes: seq<Write>) {
    && events < writes && AllSafe(events) && !TopicSafe(writes[|events|].key)
    && rows == Replay(rows0, writes[..|events| + 1])
  }

  ghost predicate Tracks(rows0: Db, rows: Db, outcome: Outcome, events: seq<Write>, bus: bool, w: World) {
    match outcome
    case Finished(counts) => Complete(rows0, rows, counts, events, bus, w)
    case Raised => bus && Stopped(rows0, rows, events, w.writes)
  }

  lemma StoppedExtends(rows0: Db, rows: Db, events: seq<Write>, part: seq<Write>, writes: seq<Write>)
    requires Stopped(rows0, rows, events, part) && part <= writes
    ensures Stopped(rows0, rows, events, writes)
  {
    assert writes[..|events| + 1] == part[..|events| + 1];
  }

  /** `reconcile_once`. */
  method ReconcileOnce(repo: Repo, host: string, json: seq<Decky>, docker: Option<map<string, string>>, bus: bool)
    returns (outcome: Outcome, events: seq<Write>, ghost listed: seq<Key>)
    modifies repo
    ensures Lists(listed, old(repo.rows), host)
    ensures Tracks(old(repo.rows), repo.rows, outcome, events, bus, Pass(old(repo.rows), host, json, docker, listed))
  {
    var rows := repo.rows;
    var dbRows := repo.ListFleetDeckies(host);
    listed := dbRows;
    var v := ViewOf(rows, host, docker, dbRows);
    ghost var w0, names := World(rows, []), Names(json);
    ghost var w1 := InsertAll(w0, v, json);
    ghost var w2 := DeleteAll(w1, names, dbRows);
    ghost var w3 := ChangeAll(w2, v, json);
    WritesOnlyGrow(w1, v, names, dbRows, []);
    WritesOnlyGrow(w2, v, names, [], json);
    outcome, events := InsertLoop(repo, v, json, bus, rows);
    if outcome.Raised? { StoppedExtends(rows, repo.rows, events, w1.writes, w3.writes); return; }
    outcome, events := DeleteLoop(repo, Names(json), dbRows, bus, outcome.counts, events, rows, w1);
    if outcome.Raised? { StoppedExtends(rows, repo.rows, events, w2.writes, w3.writes); return; }
    outcome, events := ChangeLoop(repo, v, json, bus, outcome.counts, events, rows, w2);
  }

  lemma {:induction false} WritesOnlyGrow(w: World, v: View, names: set<string>, listed: seq<Key>, json: seq<Decky>)
    ensures w.writes <= InsertAll(w, v, json).writes
    ensures w.writes <= DeleteAll(w, names, listed).writes
    ensures w.writes <= ChangeAll(w, v, json).writes
    decreases |listed| + |json|
  {
    if listed != [] { WritesOnlyGrow(w, v, names, listed[..|listed| - 1], []); }
    if json != [] { WritesOnlyGrow(w, v, names, [], json[..|json| - 1]); }
  }

  lemma {:induction false} InsertGrows(w: World, v: View, json: seq<Decky>, i: nat)
    requires i <= |json|
    ensures InsertAll(w, v, json[..i]).writes <= InsertAll(w, v, json).writes
    decreases |json| - i
  {
    if i < |json| {
      assert json[..i + 1][..i] == json[..i];
      InsertGrows(w, v, json, i + 1);
    } else {
      assert json[..i] == json;
    }
  }

  lemma {:induction false} DeleteGrows(w: World, names: set<string>, listed: seq<Key>, i: nat)
    requires i <= |listed|
    ensures DeleteAll(w, names, listed[..i]).writes <= DeleteAll(w, names, listed).writes
    decreases |listed| - i
  {
    if i < |listed| {
      assert listed[..i + 1][..i] == listed[..i];
      DeleteGrows(w, names, listed, i + 1);
    } else {
      assert listed[..i] == listed;
    }
  }

  lemma {:induction false} ChangeGrows(w: World, v: View, json: seq<Decky>, i: nat)
    requires i <= |json|
    ensures ChangeAll(w, v, json[..i]).writes <= ChangeAll(w, v, json).writes
    decreases |json| - i
  {
    if i < |json| {
      assert json[..i + 1][..i] == json[..i];
      ChangeGrows(w, v, json, i + 1);
    } else {
      assert json[..i] == json;
    }
  }

  method InsertLoop(repo: Repo, v: View, json: seq<Decky>, bus: bool, ghost rows0: Db)
    returns (outcome: Outcome, events: seq<Write>)
    requires repo.rows == rows0
    modifies repo
    ensures Tracks(rows0, repo.rows, outcome, events, bus, InsertAll(World(rows0, []), v, json))
  {
    ghost var w0 := World(rows0, []);
    var counts := Counts(0, 0, 0);
    events := [];
    for i := 0 to |json|
      invariant Complete(rows0, repo.rows, counts, events, bus, InsertAll(w0, v, json[..i]))
    {
      assert json[..i + 1][..i] == json[..i];
      outcome, events := InsertDecky(repo, v, json[i], bus, counts, events, rows0, InsertAll(w0, v, json[..i]));
      if outcome.Raised? {
        InsertGrows(w0, v, json, i + 1);
        StoppedExtends(rows0, repo.rows, events, InsertAll(w0, v, json[..i + 1]).writes, InsertAll(w0, v, json).writes);
        return;
      }
      counts := outcome.counts;
    }
    assert json[..|json|] == json;
    outcome := Finished(counts);
  }

  method DeleteLoop(repo: Repo, names: set<string>, dbRows: seq<Key>, bus: bool,
                    counts0: Counts, events0: seq<Write>, ghost rows0: Db, ghost w1: World)
    returns (outcome: Outcome, events: seq<Write>)
    requires Complete(rows0, repo.rows, counts0, events0, bus, w1)
    modifies repo
    ensures Tracks(rows0, repo.rows, outcome, events, bus, DeleteAll(w1, names, dbRows))
  {
    var counts := counts0;
    events := events0;
    for i := 0 to |dbRows|
      invariant Complete(rows0, repo.rows, counts, events, bus, DeleteAll(w1, names, dbRows[..i]))
    {
      assert dbRows[..i + 1][..i] == dbRows[..i];
      outcome, events := DeleteRow(repo, names, dbRows[i], bus, counts, events, rows0,
                                   DeleteAll(w1, names, dbRows[..i]));
      if outcome.Raised? {
        DeleteGrows(w1, names, dbRows, i + 1);
        StoppedExtends(rows0, repo.rows, events, DeleteAll(w1, names, dbRows[..i + 1]).writes,
                       DeleteAll(w1, names, dbRows).writes);
        return;
      }
      counts := outcome.counts;
    }
    assert dbRows[..|dbRows|] == dbRows;
    outcome := Finished(counts);
  }

  method ChangeLoop(repo: Repo, v: View, json: seq<Decky>, bus: bool,
                    counts0: Counts, events0: seq<Write>, ghost rows0: Db, ghost w2: World)
    returns (outcome: Outcome, events: seq<Write>)
    requires Complete(rows0, repo.rows, counts0, events0, bus, w2)
    modifies repo
    ensures Tracks(rows0, repo.rows, outcome, events, bus, ChangeAll(w2, v, json))
  {
    var counts := counts0;
    events := events0;
    for i := 0 to |json|
      invariant Complete(rows0, repo.rows, counts, events, bus, ChangeAll(w2, v, json[..i]))
    {
      assert json[..i + 1][..i] == json[..i];
      outcome, events := ChangeDecky(repo, v, json[i], bus, counts, events, rows0, ChangeAll(w2, v, json[..i]));
      if outcome.Raised? {
        ChangeGrows(w2, v, json, i + 1);
        StoppedExtends(rows0, repo.rows, events, ChangeAll(w2, v, json[..i + 1]).writes, ChangeAll(w2, v, json).writes);
        return;
      }
      counts := outcome.counts;
    }
    assert json[..|json|] == json;
    outcome := Finished(counts);
  }

  /** `_emit_state` after the write `x`, which is done and counted. */
  method EmitState(bus: bool, x: Write, rows: Db, counts: Counts, events: seq<Write>, ghost rows0: Db, ghost w: World)
    returns (outcome: Outcome, events': seq<Write>)
    requires rows == w.rows && w.writes != [] && w.writes[|w.writes| - 1] == x && counts == Tally(w.writes)
    requires var before := w.writes[..|w.writes| - 1];
             events == (if bus then before else []) && AllSafe(events)
    requires w.rows == Replay(rows0, w.writes)
    ensures Tracks(rows0, rows, outcome, events', bus, w)
  {
    events' := events;
    if !bus { return Finished(counts), events; }
    assert w.writes == events + [x] && w.writes[..|events| + 1] == w.writes;
    if !TopicSafe(x.key) { return Raised, events; }
    return Finished(counts), events + [x];
  }

  lemma TallyAppend(rows0: Db, writes: seq<Write>, w: Write)
    ensures Replay(rows0, writes + [w]) == ApplyWrite(Replay(rows0, writes), w)
    ensures var t, t' := Tally(writes), Tally(writes + [w]);
            && t'.inserted == t.inserted + (if w.Inserted? then 1 else 0)
            && t'.deleted == t.deleted + (if w.Deleted? then 1 else 0)
            && t'.updated == t.updated + (if w.Changed? then 1 else 0)
  {
    assert (writes + [w])[..|writes|] == writes;
  }

  method InsertDecky(repo: Repo, v: View, d: Decky, bus: bool, counts: Counts, events: seq<Write>, ghost rows0: Db,
                     ghost w: World)
    returns (outcome: Outcome, events': seq<Write>)
    requires Complete(rows0, repo.rows, counts, events, bus, w)
    modifies repo
    ensures Tracks(rows0, repo.rows, outcome, events', bus, InsertOne(w, v, d))
  {
    if d.name in v.snapshot { return Finished(counts), events; }
    var row := Row(d.services, d.config, NewState(v, d));
    var x := Inserted(Key(RowHost(v, d), d.name), row);
    TallyAppend(rows0, w.writes, x);
    assert (w.writes + [x])[..|w.writes|] == w.writes;
    repo.rows := repo.rows[x.key := row];
    var counts' := counts.(inserted := counts.inserted + 1);
    outcome, events' := EmitState(bus, x, repo.rows, counts', events, rows0, InsertOne(w, v, d));
  }

  method DeleteRow(repo: Repo, names: set<string>, k: Key, bus: bool, counts: Counts, events: seq<Write>,
                   ghost rows0: Db, ghost w: World)
    returns (outcome: Outcome, events': seq<Write>)
    requires Complete(rows0, repo.rows, counts, events, bus, w)
    modifies repo
    ensures Tracks(rows0, repo.rows, outcome, events', bus, DeleteOne(w, names, k))
  {
    if k.name in names { return Finished(counts), events; }
    var x := Deleted(k);
    TallyAppend(rows0, w.writes, x);
    assert (w.writes + [x])[..|w.writes|] == w.writes;
    repo.rows := repo.rows - {x.key};
    var counts' := counts.(deleted := counts.deleted + 1);
    outcome, events' := EmitState(bus, x, repo.rows, counts', events, rows0, DeleteOne(w, names, k));
  }

  method ChangeDecky(repo: Repo, v: View, d: Decky, bus: bool, counts: Counts, events: seq<Write>, ghost rows0: Db,
                     ghost w: World)
    returns (outcome: Outcome, events': seq<Write>)
    requires Complete(rows0, repo.rows, counts, events, bus, w)
    modifies repo
    ensures Tracks(rows0, repo.rows, outcome, events', bus, ChangeOne(w, v, d))
  {
    if v.docker.None? || d.name !in v.snapshot { return Finished(counts), events; }
    var Entry(key, row) := v.snapshot[d.name];
    var state, previous := Target(v, d), row.state;
    if previous == state { return Finished(counts), events; }
    var x := Changed(key, state, previous);
    TallyAppend(rows0, w.writes, x);
    assert (w.writes + [x])[..|w.writes|] == w.writes;
    repo.rows := SetState(repo.rows, x.key, state);
    var counts' := counts.(updated := counts.updated + 1);
    outcome, events' := EmitState(bus, x, repo.rows, counts', events, rows0, ChangeOne(w, v, d));
  }
}
