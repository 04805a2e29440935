/** What a reconciliation pass leaves behind, and when the next one has nothing to do. */
module FleetConvergence {
  import opened Common
  import opened FleetReconciler

  predicate Same(a: Db, b: Db, k: Key) {
    (k in a <==> k in b) && (k in a ==> a[k] == b[k])
  }

  // ---------- effect of each phase on one row ----------

  predicate Inserts(v: View, d: Decky, k: Key) {
    d.name !in v.snapshot && Key(RowHost(v, d), d.name) == k
  }

  function EntryRow(v: View, d: Decky): Row {
    Row(d.services, d.config, NewState(v, d))
  }

  predicate Stale(v: View, d: Decky) {
    v.docker.Some? && d.name in v.snapshot && v.snapshot[d.name].row.state != Target(v, d)
  }

  predicate Changes(v: View, d: Decky, k: Key) {
    Stale(v, d) && k == v.snapshot[d.name].key
  }

  lemma {:induction false} InsertEffect(w: World, v: View, json: seq<Decky>, k: Key)
    ensures var rows' := InsertAll(w, v, json).rows;
            || ((forall d | d in json :: !Inserts(v, d, k)) && Same(w.rows, rows', k))
            || (exists d | d in json :: Inserts(v, d, k) && k in rows' && rows'[k] == EntryRow(v, d))
  {
    if json != [] {
      var m := |json| - 1;
      InsertEffect(w, v, json[..m], k);
      assert json[m] in json && forall d | d in json :: d in json[..m] || d == json[m];
      assert forall d | d in json[..m] :: d in json;
    }
  }

  lemma {:induction false} DeleteEffect(w: World, names: set<string>, listed: seq<Key>, k: Key)
    ensures var rows' := DeleteAll(w, names, listed).rows;
            if k in listed && k.name !in names then k !in rows' else Same(w.rows, rows', k)
  {
    if listed != [] { DeleteEffect(w, names, listed[..|listed| - 1], k); }
  }

  lemma {:induction false} ChangeEffect(w: World, v: View, json: seq<Decky>, k: Key)
    ensures var rows' := ChangeAll(w, v, json).rows;
            && (k in rows' <==> k in w.rows)
            && (k in w.rows ==>
                  || ((forall d | d in json :: !Changes(v, d, k)) && rows'[k] == w.rows[k])
                  || (exists d | d in json :: Changes(v, d, k) && rows'[k] == w.rows[k].(state := Target(v, d))))
  {
    if json != [] {
      var m := |json| - 1;
      ChangeEffect(w, v, json[..m], k);
      assert json[m] in json && forall d | d in json :: d in json[..m] || d == json[m];
      assert forall d | d in json[..m] :: d in json;
    }
  }

  // ---------- effect of a pass on one row ----------

  /** What the snapshot holds under a name: a listed row of that name. */
  lemma {:induction false} SnapshotIs(rows: Db, listed: seq<Key>, n: string)
    ensures n in Snapshot(rows, listed) <==> exists k | k in listed :: k in rows && k.name == n
    ensures n in Snapshot(rows, listed) ==>
              var e := Snapshot(rows, listed)[n];
              e.key in listed && e.key in rows && e.key.name == n && e.row == rows[e.key]
  {
    if listed != [] {
      var m := |listed| - 1;
      SnapshotIs(rows, listed[..m], n);
      assert listed == listed[..m] + [listed[m]];
    }
  }

  /** Of listed rows with one name the last one stands in the snapshot. */
  lemma {:induction false} LastListedStays(rows: Db, listed: seq<Key>, i: nat)
    requires i < |listed| && listed[i] in rows
    requires forall j | i < j < |listed| :: listed[j].name != listed[i].name
    ensures listed[i].name in Snapshot(rows, listed)
    ensures Snapshot(rows, listed)[listed[i].name] == Entry(listed[i], rows[listed[i]])
  {
    if i < |listed| - 1 { LastListedStays(rows, listed[..|listed| - 1], i); }
  }

  /** For a host with a name the snapshot is that host's rows. */
  lemma LocalIs(rows: Db, host: string, listed: seq<Key>, n: string)
    requires host != "" && Lists(listed, rows, host)
    ensures n in Snapshot(rows, listed) <==> Key(host, n) in rows
    ensures n in Snapshot(rows, listed) ==> Snapshot(rows, listed)[n] == Entry(Key(host, n), rows[Key(host, n)])
  {
    SnapshotIs(rows, listed, n);
    if Key(host, n) in rows { assert Key(host, n) in listed; }
  }

  /** Every name of the snapshot stands for this host's row of that name. */
  predicate LocalView(v: View) {
    forall n | n in v.snapshot :: v.snapshot[n].key == Key(v.host, n)
  }

  lemma ViewIsLocal(rows: Db, host: string, docker: Option<map<string, string>>, listed: seq<Key>)
    requires host != "" && Lists(listed, rows, host)
    ensures LocalView(ViewOf(rows, host, docker, listed))
  {
    forall n | n in Snapshot(rows, listed) ensures Snapshot(rows, listed)[n].key == Key(host, n) {
      LocalIs(rows, host, listed, n);
    }
  }

  predicate ForHost(d: Decky, host: string) {
    d.host == "" || d.host == host
  }

  /** This host has, or is about to get, a row for `n`. */
  predicate Claimed(rows: Db, host: string, json: seq<Decky>, n: string) {
    Key(host, n) in rows || exists d | d in json :: d.name == n && ForHost(d, host)
  }

  predicate Named(json: seq<Decky>, n: string) {
    exists d | d in json :: d.name == n
  }

  /** Some entry named as `k` has that docker aggregate. */
  predicate HasTarget(docker: map<string, string>, json: seq<Decky>, n: string, state: string) {
    exists d | d in json :: d.name == n && state == Aggregate(d.name, d.services, docker)
  }

  /** The row is the one an entry of the state file gives. */
  predicate FromEntry(v: View, json: seq<Decky>, k: Key, row: Row) {
    exists d | d in json :: Inserts(v, d, k) && row == EntryRow(v, d)
  }

  lemma ExistingRow(w: World, v: View, json: seq<Decky>, listed: seq<Key>, n: string)
    requires LocalView(v) && v.docker.Some? && Key(v.host, n) in w.rows && Key(v.host, n) in listed
    requires n in v.snapshot && v.snapshot[n] == Entry(Key(v.host, n), w.rows[Key(v.host, n)])
    ensures var k := Key(v.host, n);
            var rows' := ChangeAll(DeleteAll(InsertAll(w, v, json), Names(json), listed), v, json).rows;
            && (k in rows' <==> Named(json, n))
            && (k in rows' ==>
                  && HasTarget(v.docker.value, json, n, rows'[k].state)
                  && rows'[k] == w.rows[k].(state := rows'[k].state))
  {
    var k := Key(v.host, n);
    var w1 := InsertAll(w, v, json);
    var w2 := DeleteAll(w1, Names(json), listed);
    InsertEffect(w, v, json, k);
    DeleteEffect(w1, Names(json), listed, k);
    ChangeEffect(w2, v, json, k);
    var rows' := ChangeAll(w2, v, json).rows;
    if k in rows' {
      var d :| d in json && d.name == n;
      if !Changes(v, d, k) && rows'[k] == w2.rows[k] { assert rows'[k].state == Target(v, d); }
    }
  }

  lemma AbsentRow(w: World, v: View, json: seq<Decky>, listed: seq<Key>, n: string)
    requires LocalView(v) && v.docker.Some? && v.host != "" && Key(v.host, n) !in w.rows && n !in v.snapshot
    requires Key(v.host, n) !in listed
    ensures var k := Key(v.host, n);
            var rows' := ChangeAll(DeleteAll(InsertAll(w, v, json), Names(json), listed), v, json).rows;
            && (k in rows' <==> exists d | d in json :: d.name == n && ForHost(d, v.host))
            && (k in rows' ==> HasTarget(v.docker.value, json, n, rows'[k].state) && FromEntry(v, json, k, rows'[k]))
  {
    var k := Key(v.host, n);
    var w1 := InsertAll(w, v, json);
    var w2 := DeleteAll(w1, Names(json), listed);
    InsertEffect(w, v, json, k);
    DeleteEffect(w1, Names(json), listed, k);
    ChangeEffect(w2, v, json, k);
    assert forall d | d in json :: !Changes(v, d, k);
    assert forall d | d in json :: Inserts(v, d, k) <==> d.name == n && ForHost(d, v.host);
  }

  /** After a pass with docker readable, this host has a row for exactly the claimed names of the
      state file, and each row's state is the docker aggregate of a decky of that name. */
  lemma PassOnLocalRow(rows: Db, host: string, json: seq<Decky>, docker: map<string, string>, listed: seq<Key>,
                       n: string)
    requires host != "" && Lists(listed, rows, host)
    ensures var rows' := Pass(rows, host, json, Some(docker), listed).rows;
            && (Key(host, n) in rows' <==> Named(json, n) && Claimed(rows, host, json, n))
            && (Key(host, n) in rows' ==>
                  var v, row := ViewOf(rows, host, Some(docker), listed), rows'[Key(host, n)];
                  && HasTarget(docker, json, n, row.state)
                  && if Key(host, n) in rows then row == rows[Key(host, n)].(state := row.state)
                     else FromEntry(v, json, Key(host, n), row))
  {
    var v := ViewOf(rows, host, Some(docker), listed);
    ViewIsLocal(rows, host, Some(docker), listed);
    LocalIs(rows, host, listed, n);
    if Key(host, n) in rows {
      ExistingRow(World(rows, []), v, json, listed, n);
    } else {
      AbsentRow(World(rows, []), v, json, listed, n);
    }
  }

  /** Rows of other hosts are untouched, unless the state file puts a decky there itself. */
  lemma PassOnPeerRow(rows: Db, host: string, json: seq<Decky>, docker: Option<map<string, string>>, listed: seq<Key>,
                      k: Key)
    requires host != "" && Lists(listed, rows, host) && k.host != host
    requires forall d | d in json && d.host == k.host && d.host != "" :: d.name != k.name
    ensures Same(rows, Pass(rows, host, json, docker, listed).rows, k)
  {
    var v := ViewOf(rows, host, docker, listed);
    ViewIsLocal(rows, host, docker, listed);
    var w1 := InsertAll(World(rows, []), v, json);
    var w2 := DeleteAll(w1, Names(json), listed);
    InsertEffect(World(rows, []), v, json, k);
    DeleteEffect(w1, Names(json), listed, k);
    ChangeEffect(w2, v, json, k);
  }

  /** Whatever host it is run for: every row in scope whose name the state file lacks is deleted.
      For the empty host every row of every host is in scope. */
  lemma UnnamedRowDeleted(rows: Db, host: string, json: seq<Decky>, docker: Option<map<string, string>>,
                          listed: seq<Key>, k: Key)
    requires Lists(listed, rows, host) && k in rows && (host == "" || k.host == host) && !Named(json, k.name)
    ensures k !in Pass(rows, host, json, docker, listed).rows
  {
    var v := ViewOf(rows, host, docker, listed);
    var w1 := InsertAll(World(rows, []), v, json);
    DeleteEffect(w1, Names(json), listed, k);
    ChangeEffect(DeleteAll(w1, Names(json), listed), v, json, k);
  }

  /** With docker unreadable: the same rows as with docker, none of the surviving ones changed, and
      a new one as its entry has it, running. */
  lemma PassWithoutDocker(rows: Db, host: string, json: seq<Decky>, listed: seq<Key>, n: string)
    requires host != "" && Lists(listed, rows, host)
    ensures var rows', k := Pass(rows, host, json, None, listed).rows, Key(host, n);
            && (k in rows' <==> Named(json, n) && Claimed(rows, host, json, n))
            && (k in rows' && k in rows ==> rows'[k] == rows[k])
            && (k in rows' && k !in rows ==>
                  exists d | d in json :: d.name == n && ForHost(d, host)
                                          && rows'[k] == Row(d.services, d.config, "running"))
  {
    var v, k := ViewOf(rows, host, None, listed), Key(host, n);
    ViewIsLocal(rows, host, None, listed);
    var w1 := InsertAll(World(rows, []), v, json);
    var w2 := DeleteAll(w1, Names(json), listed);
    InsertEffect(World(rows, []), v, json, k);
    DeleteEffect(w1, Names(json), listed, k);
    ChangeEffect(w2, v, json, k);
    LocalIs(rows, host, listed, n);
    assert forall d | d in json && k !in rows :: Inserts(v, d, k) <==> d.name == n && ForHost(d, host);
  }

  // ---------- what the writes, and so the events, say ----------

  predicate Truthful(v: View, json: seq<Decky>, w: Write) {
    match w
    case Inserted(k, row) => exists d | d in json :: Inserts(v, d, k) && row == EntryRow(v, d)
    case Deleted(k) => InScope(v.host, k) && k.name in v.snapshot && !Named(json, k.name)
    case Changed(k, state, previous) =>
      exists d | d in json :: Changes(v, d, k) && state == Target(v, d) && previous == v.snapshot[d.name].row.state
  }

  lemma {:induction false} InsertTruthful(w: World, v: View, json: seq<Decky>, part: seq<Decky>)
    requires (forall x | x in w.writes :: Truthful(v, json, x)) && forall d | d in part :: d in json
    ensures forall x | x in InsertAll(w, v, part).writes :: Truthful(v, json, x)
  {
    if part != [] {
      InsertTruthful(w, v, json, part[..|part| - 1]);
      var d := part[|part| - 1];
      assert d.name !in v.snapshot ==> Inserts(v, d, Key(RowHost(v, d), d.name));
    }
  }

  lemma {:induction false} DeleteTruthful(w: World, v: View, json: seq<Decky>, listed: seq<Key>)
    requires forall x | x in w.writes :: Truthful(v, json, x)
    requires forall k | k in listed :: InScope(v.host, k) && k.name in v.snapshot
    ensures forall x | x in DeleteAll(w, Names(json), listed).writes :: Truthful(v, json, x)
  {
    if listed != [] {
      DeleteTruthful(w, v, json, listed[..|listed| - 1]);
    }
  }

  lemma {:induction false} ChangeTruthful(w: World, v: View, json: seq<Decky>, part: seq<Decky>)
    requires (forall x | x in w.writes :: Truthful(v, json, x)) && forall d | d in part :: d in json
    ensures forall x | x in ChangeAll(w, v, part).writes :: Truthful(v, json, x)
  {
    if part != [] {
      ChangeTruthful(w, v, json, part[..|part| - 1]);
      assert part[|part| - 1] in json;
    }
  }

  /** Every write of a pass, and so every event, reports a difference that was really there. */
  lemma WritesTruthful(rows: Db, host: string, json: seq<Decky>, docker: Option<map<string, string>>, listed: seq<Key>)
    requires Lists(listed, rows, host)
    ensures forall x | x in Pass(rows, host, json, docker, listed).writes ::
              Truthful(ViewOf(rows, host, docker, listed), json, x)
  {
    var v := ViewOf(rows, host, docker, listed);
    var w1 := InsertAll(World(rows, []), v, json);
    InsertTruthful(World(rows, []), v, json, json);
    forall k | k in listed ensures InScope(host, k) && k.name in v.snapshot { SnapshotIs(rows, listed, k.name); }
    DeleteTruthful(w1, v, json, listed);
    ChangeTruthful(DeleteAll(w1, Names(json), listed), v, json, json);
  }

  // ---------- when a pass writes nothing ----------

  lemma {:induction false} InsertQuiet(w: World, v: View, json: seq<Decky>)
    ensures |w.writes| <= |InsertAll(w, v, json).writes|
    ensures InsertAll(w, v, json).writes == w.writes <==> forall d | d in json :: d.name in v.snapshot
  {
    if json != [] {
      var m := |json| - 1;
      InsertQuiet(w, v, json[..m]);
      assert json[m] in json && forall d | d in json :: d in json[..m] || d == json[m];
      assert forall d | d in json[..m] :: d in json;
    }
  }

  lemma {:induction false} DeleteQuiet(w: World, names: set<string>, listed: seq<Key>)
    ensures |w.writes| <= |DeleteAll(w, names, listed).writes|
    ensures DeleteAll(w, names, listed).writes == w.writes <==> forall k | k in listed :: k.name in names
  {
    if listed != [] {
      var m := |listed| - 1;
      DeleteQuiet(w, names, listed[..m]);
      assert listed[m] in listed && forall k | k in listed :: k in listed[..m] || k == listed[m];
      assert forall k | k in listed[..m] :: k in listed;
    }
  }

  lemma {:induction false} ChangeQuiet(w: World, v: View, json: seq<Decky>)
    ensures |w.writes| <= |ChangeAll(w, v, json).writes|
    ensures ChangeAll(w, v, json).writes == w.writes <==> forall d | d in json :: !Stale(v, d)
  {
    if json != [] {
      var m := |json| - 1;
      ChangeQuiet(w, v, json[..m]);
      assert json[m] in json && forall d | d in json :: d in json[..m] || d == json[m];
      assert forall d | d in json[..m] :: d in json;
    }
  }

  /** The state file, this host's rows and docker agree already. */
  predicate Converged(rows: Db, host: string, json: seq<Decky>, docker: map<string, string>, listed: seq<Key>) {
    && (forall d | d in json :: Key(host, d.name) in rows
                                && rows[Key(host, d.name)].state == Aggregate(d.name, d.services, docker))
    && (forall k | k in listed :: Named(json, k.name))
  }

  /** No phase of the pass has anything to do. */
  predicate NothingToDo(v: View, json: seq<Decky>, listed: seq<Key>) {
    && (forall d | d in json :: d.name in v.snapshot)
    && (forall k | k in listed :: k.name in Names(json))
    && (forall d | d in json :: !Stale(v, d))
  }

  lemma NothingToDoIffConverged(rows: Db, host: string, json: seq<Decky>, docker: map<string, string>, listed: seq<Key>)
    requires host != "" && Lists(listed, rows, host)
    ensures NothingToDo(ViewOf(rows, host, Some(docker), listed), json, listed)
            <==> Converged(rows, host, json, docker, listed)
  {
    var v := ViewOf(rows, host, Some(docker), listed);
    forall n ensures n in v.snapshot <==> Key(host, n) in rows
             ensures n in v.snapshot ==> v.snapshot[n].row == rows[Key(host, n)]
             ensures Named(json, n) <==> n in Names(json) {
      LocalIs(rows, host, listed, n);
    }
  }

  /** A pass writes nothing exactly when everything has converged. */
  lemma QuietIffConverged(rows: Db, host: string, json: seq<Decky>, docker: map<string, string>, listed: seq<Key>)
    requires host != "" && Lists(listed, rows, host)
    ensures Pass(rows, host, json, Some(docker), listed).writes == [] <==> Converged(rows, host, json, docker, listed)
  {
    var v := ViewOf(rows, host, Some(docker), listed);
    var w0 := World(rows, []);
    var w1 := InsertAll(w0, v, json);
    var w2 := DeleteAll(w1, Names(json), listed);
    InsertQuiet(w0, v, json);
    DeleteQuiet(w1, Names(json), listed);
    ChangeQuiet(w2, v, json);
    NothingToDoIffConverged(rows, host, json, docker, listed);
  }

  /** What makes the pass settle: every name of the state file gets a row on this host, and
      entries that share a name agree about its docker aggregate. */
  predicate Settles(rows: Db, host: string, json: seq<Decky>, docker: map<string, string>) {
    && (forall d | d in json :: Claimed(rows, host, json, d.name))
    && (forall d, e | d in json && e in json && d.name == e.name ::
          Aggregate(d.name, d.services, docker) == Aggregate(e.name, e.services, docker))
  }

  /** What `PassOnLocalRow` says, for every name. */
  ghost predicate LeftBy(rows': Db, rows: Db, host: string, json: seq<Decky>, docker: map<string, string>) {
    && (forall n :: Key(host, n) in rows' <==> Named(json, n) && Claimed(rows, host, json, n))
    && (forall n | Key(host, n) in rows' ::
          HasTarget(docker, json, n, rows'[Key(host, n)].state))
  }

  lemma PassLeaves(rows: Db, host: string, json: seq<Decky>, docker: map<string, string>, listed: seq<Key>)
    requires host != "" && Lists(listed, rows, host)
    ensures LeftBy(Pass(rows, host, json, Some(docker), listed).rows, rows, host, json, docker)
  {
    var rows' := Pass(rows, host, json, Some(docker), listed).rows;
    forall n
      ensures Key(host, n) in rows' <==> Named(json, n) && Claimed(rows, host, json, n)
      ensures Key(host, n) in rows' ==> HasTarget(docker, json, n, rows'[Key(host, n)].state)
    {
      PassOnLocalRow(rows, host, json, docker, listed, n);
    }
  }

  lemma {:induction false} InsertWritten(w: World, v: View, json: seq<Decky>, d: Decky)
    requires d in json && d.name !in v.snapshot
    ensures Inserted(Key(RowHost(v, d), d.name), EntryRow(v, d)) in InsertAll(w, v, json).writes
  {
    var m := |json| - 1;
    if json[m] != d { InsertWritten(w, v, json[..m], d); }
  }

  /** A decky pinned to another host, while nothing here claims its name, is inserted by this pass
      and its name is still unclaimed afterwards: every later pass inserts it again. */
  lemma PinnedElsewhereReinserted(rows: Db, host: string, json: seq<Decky>, docker: Option<map<string, string>>,
                                  listed: seq<Key>, d: Decky)
    requires host != "" && Lists(listed, rows, host) && d in json && !Claimed(rows, host, json, d.name)
    ensures var after := Pass(rows, host, json, docker, listed);
            && !Claimed(after.rows, host, json, d.name)
            && Inserted(Key(d.host, d.name), EntryRow(ViewOf(rows, host, docker, listed), d)) in after.writes
  {
    var v, k := ViewOf(rows, host, docker, listed), Key(host, d.name);
    ViewIsLocal(rows, host, docker, listed);
    var w0 := World(rows, []);
    var w1 := InsertAll(w0, v, json);
    var w2 := DeleteAll(w1, Names(json), listed);
    LocalIs(rows, host, listed, d.name);
    InsertWritten(w0, v, json, d);
    WritesOnlyGrow(w1, v, Names(json), listed, []);
    WritesOnlyGrow(w2, v, Names(json), [], json);
    InsertEffect(w0, v, json, k);
    DeleteEffect(w1, Names(json), listed, k);
    ChangeEffect(w2, v, json, k);
  }

  // ---------- passes with a bus ----------

  /** What a pass would write, by key, before it starts. */
  ghost predicate WillWrite(v: View, json: seq<Decky>, listed: seq<Key>, k: Key) {
    || (exists d | d in json :: Inserts(v, d, k))
    || (k in listed && k.name !in Names(json))
    || (exists d | d in json :: Changes(v, d, k))
  }

  ghost predicate KeyWritten(writes: seq<Write>, k: Key) {
    exists x | x in writes :: x.key == k
  }

  lemma {:induction false} InsertKeys(w: World, v: View, json: seq<Decky>, k: Key)
    ensures KeyWritten(InsertAll(w, v, json).writes, k)
            <==> KeyWritten(w.writes, k) || exists d | d in json :: Inserts(v, d, k)
  {
    if json != [] {
      var m := |json| - 1;
      InsertKeys(w, v, json[..m], k);
      assert json[m] in json && forall d | d in json :: d in json[..m] || d == json[m];
      assert forall d | d in json[..m] :: d in json;
      var d := json[m];
    }
  }

  lemma {:induction false} DeleteKeys(w: World, names: set<string>, listed: seq<Key>, k: Key)
    ensures KeyWritten(DeleteAll(w, names, listed).writes, k) <==>
              KeyWritten(w.writes, k) || (k in listed && k.name !in names)
  {
    if listed != [] {
      var m := |listed| - 1;
      DeleteKeys(w, names, listed[..m], k);
      assert listed == listed[..m] + [listed[m]];
    }
  }

  lemma {:induction false} ChangeKeys(w: World, v: View, json: seq<Decky>, k: Key)
    ensures KeyWritten(ChangeAll(w, v, json).writes, k)
            <==> KeyWritten(w.writes, k) || exists d | d in json :: Changes(v, d, k)
  {
    if json != [] {
      var m := |json| - 1;
      ChangeKeys(w, v, json[..m], k);
      assert json[m] in json && forall d | d in json :: d in json[..m] || d == json[m];
      assert forall d | d in json[..m] :: d in json;
      var d := json[m];
      if Stale(v, d) {
        var Entry(key, row) := v.snapshot[d.name];
      }
    }
  }

  lemma PassKeys(rows: Db, host: string, json: seq<Decky>, docker: Option<map<string, string>>, listed: seq<Key>,
                 k: Key)
    ensures KeyWritten(Pass(rows, host, json, docker, listed).writes, k) <==>
              WillWrite(ViewOf(rows, host, docker, listed), json, listed, k)
  {
    var v, w0 := ViewOf(rows, host, docker, listed), World(rows, []);
    var w1 := InsertAll(w0, v, json);
    InsertKeys(w0, v, json, k);
    DeleteKeys(w1, Names(json), listed, k);
    ChangeKeys(DeleteAll(w1, Names(json), listed), v, json, k);
  }

  /** A pass runs to its end exactly when there is no bus or every row it is going to write has a
      name that fits into a topic, and then it has done all of `Pass`. */
  lemma RunsToEndIff(rows: Db, host: string, json: seq<Decky>, docker: Option<map<string, string>>, listed: seq<Key>,
                     bus: bool, rows': Db, outcome: Outcome, events: seq<Write>)
    requires Tracks(rows, rows', outcome, events, bus, Pass(rows, host, json, docker, listed))
    ensures outcome.Finished? <==>
              !bus || forall k | WillWrite(ViewOf(rows, host, docker, listed), json, listed, k) :: TopicSafe(k)
    ensures outcome.Finished? ==> rows' == Pass(rows, host, json, docker, listed).rows
  {
    var v, writes := ViewOf(rows, host, docker, listed), Pass(rows, host, json, docker, listed).writes;
    forall k ensures KeyWritten(writes, k) <==> WillWrite(v, json, listed, k) {
      PassKeys(rows, host, json, docker, listed, k);
    }
    if outcome.Raised? {
      var x := writes[|events|];
      assert x in writes && KeyWritten(writes, x.key);
    }
  }

  /** After a pass that ran to its end, a second one on the same inputs writes and announces
      nothing exactly when the inputs settle. */
  lemma SecondPassQuietIff(rows: Db, host: string, json: seq<Decky>, docker: map<string, string>, listed: seq<Key>,
                           again: seq<Key>,
                           bus: bool, rows': Db, counts: Counts, events: seq<Write>)
    requires host != "" && Lists(listed, rows, host) && Lists(again, rows', host)
    requires Complete(rows, rows', counts, events, bus, Pass(rows, host, json, Some(docker), listed))
    ensures Pass(rows', host, json, Some(docker), again).writes == [] <==> Settles(rows, host, json, docker)
  {
    PassLeaves(rows, host, json, docker, listed);
    QuietIffConverged(rows', host, json, docker, again);
    assert Settles(rows, host, json, docker) <==> Converged(rows', host, json, docker, again);
  }

  /** One pass with docker readable, without a bus or with one and no row to write whose name does
      not fit into a topic: it finishes, and this host's rows are the state file's names, in
      docker's states. */
  lemma OnePassConverges(rows: Db, host: string, json: seq<Decky>, docker: map<string, string>, listed: seq<Key>,
                         bus: bool, rows': Db, outcome: Outcome, events: seq<Write>)
    requires Plain(host, json) && Lists(listed, rows, host)
    requires Tracks(rows, rows', outcome, events, bus, Pass(rows, host, json, Some(docker), listed))
    requires !bus || forall k | WillWrite(ViewOf(rows, host, Some(docker), listed), json, listed, k) :: TopicSafe(k)
    ensures outcome.Finished?
    ensures forall n :: Key(host, n) in rows' <==> Named(json, n)
    ensures forall d | d in json :: Key(host, d.name) in rows'
                                    && rows'[Key(host, d.name)].state == Aggregate(d.name, d.services, docker)
    ensures forall k: Key | k.host != host :: Same(rows, rows', k)
    ensures Settles(rows, host, json, docker)
  {
    RunsToEndIff(rows, host, json, Some(docker), listed, bus, rows', outcome, events);
    PassLeaves(rows, host, json, docker, listed);
    forall d, e | d in json && e in json && d.name == e.name ensures d == e { PlainUnique(host, json, d, e); }
    forall d | d in json
      ensures Key(host, d.name) in rows' && rows'[Key(host, d.name)].state == Aggregate(d.name, d.services, docker)
    {
      assert Named(json, d.name);
    }
    forall k: Key | k.host != host ensures Same(rows, rows', k) {
      PassOnPeerRow(rows, host, json, Some(docker), listed, k);
    }
  }

  /** The row of `n` is as the state file and docker want it. */
  ghost predicate Settled(rows: Db, host: string, json: seq<Decky>, docker: map<string, string>, n: string) {
    if Named(json, n) then
      && Key(host, n) in rows
      && forall d | d in json && d.name == n :: rows[Key(host, n)].state == Aggregate(d.name, d.services, docker)
    else Key(host, n) !in rows
  }

  ghost predicate AllSettled(rows: Db, host: string, json: seq<Decky>, docker: map<string, string>) {
    forall n :: Settled(rows, host, json, docker, n)
  }

  /** The inputs for which one pass is documented to converge. */
  predicate Plain(host: string, json: seq<Decky>) {
    && host != ""
    && (forall d | d in json :: ForHost(d, host))
    && (forall i, j | 0 <= i < j < |json| :: json[i].name != json[j].name)
  }

  lemma PlainUnique(host: string, json: seq<Decky>, d: Decky, e: Decky)
    requires Plain(host, json) && d in json && e in json && d.name == e.name
    ensures d == e
  {
  }

  /** Doing truthful writes settles the rows they are about and leaves all others as they were. */
  lemma {:induction false} WritesSettle(rows: Db, host: string, json: seq<Decky>, docker: map<string, string>,
                                        listed: seq<Key>, writes: seq<Write>, n: string)
    requires Plain(host, json) && Lists(listed, rows, host)
    requires forall x | x in writes :: Truthful(ViewOf(rows, host, Some(docker), listed), json, x)
    ensures var rows' := Replay(rows, writes);
            if KeyWritten(writes, Key(host, n)) then Settled(rows', host, json, docker, n)
            else Same(rows, rows', Key(host, n))
  {
    if writes != [] {
      var m := |writes| - 1;
      var x := writes[m];
      assert writes == writes[..m] + [x];
      WritesSettle(rows, host, json, docker, listed, writes[..m], n);
      if x.key == Key(host, n) { SettlingWrite(rows, host, json, docker, listed, Replay(rows, writes[..m]), x, n); }
    }
  }

  lemma SettlingWrite(rows: Db, host: string, json: seq<Decky>, docker: map<string, string>, listed: seq<Key>,
                      was: Db, x: Write, n: string)
    requires Plain(host, json) && Lists(listed, rows, host)
    requires Truthful(ViewOf(rows, host, Some(docker), listed), json, x) && x.key == Key(host, n)
    requires Settled(was, host, json, docker, n) || Same(rows, was, Key(host, n))
    ensures Settled(ApplyWrite(was, x), host, json, docker, n)
  {
    var v := ViewOf(rows, host, Some(docker), listed);
    ViewIsLocal(rows, host, Some(docker), listed);
    LocalIs(rows, host, listed, n);
    match x {
      case Inserted(k, row) =>
        var d :| d in json && Inserts(v, d, k) && row == EntryRow(v, d);
        forall e | e in json && e.name == n ensures e == d { PlainUnique(host, json, d, e); }
      case Deleted(_) =>
      case Changed(k, state, previous) =>
        var d :| d in json && Changes(v, d, k) && state == Target(v, d);
        forall e | e in json && e.name == n ensures e == d { PlainUnique(host, json, d, e); }
    }
  }

  /** A pass is going to write exactly the rows that are not settled. */
  lemma WritesIffUnsettled(rows: Db, host: string, json: seq<Decky>, docker: map<string, string>, listed: seq<Key>,
                           n: string)
    requires Plain(host, json) && Lists(listed, rows, host)
    ensures KeyWritten(Pass(rows, host, json, Some(docker), listed).writes, Key(host, n))
            <==> !Settled(rows, host, json, docker, n)
  {
    var v, k := ViewOf(rows, host, Some(docker), listed), Key(host, n);
    ViewIsLocal(rows, host, Some(docker), listed);
    PassKeys(rows, host, json, Some(docker), listed, k);
    LocalIs(rows, host, listed, n);
    if Named(json, n) {
      var d :| d in json && d.name == n;
      forall e | e in json && e.name == n ensures e == d { PlainUnique(host, json, d, e); }
      assert Inserts(v, d, k) <==> n !in v.snapshot;
      assert Changes(v, d, k) <==> n in v.snapshot && v.snapshot[n].row.state != Target(v, d);
    }
  }

  /** A tick of the worker with a bus: a pass that finished or was stopped. */
  ghost predicate Tick(rows: Db, rows': Db, host: string, json: seq<Decky>, docker: map<string, string>) {
    exists listed, outcome, events :: Ticked(rows, rows', host, json, docker, listed, outcome, events)
  }

  ghost predicate Ticked(rows: Db, rows': Db, host: string, json: seq<Decky>, docker: map<string, string>,
                         listed: seq<Key>, outcome: Outcome, events: seq<Write>) {
    && Lists(listed, rows, host)
    && Tracks(rows, rows', outcome, events, true, Pass(rows, host, json, Some(docker), listed))
  }

  /** The names that still stop a pass. */
  ghost function Obstacles(rows: Db, host: string, json: seq<Decky>, docker: map<string, string>): set<string> {
    var local := set k | k in rows && k.host == host :: k.name;
    set n | n in Names(json) + local && !TopicSafe(Key(host, n)) && !Settled(rows, host, json, docker, n)
  }

  /** What a tick has done of the writes it set out to do. */
  lemma TickDoes(rows: Db, rows': Db, host: string, json: seq<Decky>, docker: map<string, string>,
                 listed: seq<Key>, outcome: Outcome, events: seq<Write>) returns (done: seq<Write>)
    requires Ticked(rows, rows', host, json, docker, listed, outcome, events)
    ensures var writes := Pass(rows, host, json, Some(docker), listed).writes;
            && done <= writes && rows' == Replay(rows, done)
            && (outcome.Finished? ==> done == writes)
            && (outcome.Raised? ==> done != [] && !TopicSafe(done[|done| - 1].key))
    ensures forall x | x in done :: Truthful(ViewOf(rows, host, Some(docker), listed), json, x)
  {
    var writes := Pass(rows, host, json, Some(docker), listed).writes;
    done := if outcome.Finished? then writes else writes[..|events| + 1];
    WritesTruthful(rows, host, json, Some(docker), listed);
    assert forall x | x in done :: x in writes;
  }

  /** A tick unsettles nothing and touches no other host; a finished one settles every row of this
      host, and a stopped one at least the row it stopped at. */
  lemma TickSettles(rows: Db, rows': Db, host: string, json: seq<Decky>, docker: map<string, string>,
                    listed: seq<Key>, outcome: Outcome, events: seq<Write>)
    requires Plain(host, json) && Ticked(rows, rows', host, json, docker, listed, outcome, events)
    ensures forall n | Settled(rows, host, json, docker, n) :: Settled(rows', host, json, docker, n)
    ensures outcome.Finished? ==> AllSettled(rows', host, json, docker)
    ensures forall k: Key | k.host != host :: Same(rows, rows', k)
    ensures outcome.Raised? ==>
              exists n :: n in Obstacles(rows, host, json, docker) && Settled(rows', host, json, docker, n)
  {
    var done := TickDoes(rows, rows', host, json, docker, listed, outcome, events);
    var writes := Pass(rows, host, json, Some(docker), listed).writes;
    forall n
      ensures Settled(rows, host, json, docker, n) ==> Settled(rows', host, json, docker, n)
      ensures KeyWritten(done, Key(host, n)) ==> Settled(rows', host, json, docker, n)
      ensures KeyWritten(writes, Key(host, n)) <==> !Settled(rows, host, json, docker, n)
    {
      WritesSettle(rows, host, json, docker, listed, done, n);
      WritesIffUnsettled(rows, host, json, docker, listed, n);
      assert KeyWritten(done, Key(host, n)) ==> KeyWritten(writes, Key(host, n));
    }
    forall k: Key | k.host != host ensures Same(rows, rows', k) {
      forall x | x in done ensures x.key != k { WriteIsLocal(rows, host, json, docker, listed, x); }
      UnwrittenKept(rows, done, k);
    }
    if outcome.Raised? {
      var x := done[|done| - 1];
      WriteIsLocal(rows, host, json, docker, listed, x);
      assert x in done && x in writes && KeyWritten(done, Key(host, x.key.name));
      assert KeyWritten(writes, Key(host, x.key.name));
    }
  }

  lemma {:induction false} UnwrittenKept(rows: Db, writes: seq<Write>, k: Key)
    requires !KeyWritten(writes, k)
    ensures Same(rows, Replay(rows, writes), k)
  {
    if writes != [] {
      var m := |writes| - 1;
      assert writes == writes[..m] + [writes[m]];
      UnwrittenKept(rows, writes[..m], k);
    }
  }

  lemma WriteIsLocal(rows: Db, host: string, json: seq<Decky>, docker: map<string, string>, listed: seq<Key>, x: Write)
    requires Plain(host, json) && Lists(listed, rows, host)
    requires Truthful(ViewOf(rows, host, Some(docker), listed), json, x)
    ensures x.key.host == host
  {
    if x.Changed? {
      var v := ViewOf(rows, host, Some(docker), listed);
      var d :| d in json && Changes(v, d, x.key);
      SnapshotIs(rows, listed, d.name);
    }
  }

  lemma ObstaclesShrink(rows: Db, rows': Db, host: string, json: seq<Decky>, docker: map<string, string>, n: string)
    requires forall m | Settled(rows, host, json, docker, m) :: Settled(rows', host, json, docker, m)
    requires n in Obstacles(rows, host, json, docker) && Settled(rows', host, json, docker, n)
    ensures |Obstacles(rows', host, json, docker)| < |Obstacles(rows, host, json, docker)|
  {
    var now, before := Obstacles(rows', host, json, docker), Obstacles(rows, host, json, docker);
    assert now <= before - {n};
    SubsetBound(now, before - {n});
  }

  /** A tick settles everything, or leaves fewer names that can stop the next one. */
  lemma TickProgress(rows: Db, rows': Db, host: string, json: seq<Decky>, docker: map<string, string>)
    requires Plain(host, json) && Tick(rows, rows', host, json, docker)
    ensures AllSettled(rows, host, json, docker) ==> AllSettled(rows', host, json, docker)
    ensures AllSettled(rows', host, json, docker)
            || |Obstacles(rows', host, json, docker)| < |Obstacles(rows, host, json, docker)|
  {
    var listed, outcome, events :| Ticked(rows, rows', host, json, docker, listed, outcome, events);
    TickSettles(rows, rows', host, json, docker, listed, outcome, events);
    if outcome.Raised? {
      var n :| n in Obstacles(rows, host, json, docker) && Settled(rows', host, json, docker, n);
      ObstaclesShrink(rows, rows', host, json, docker, n);
    }
  }

  ghost predicate Ticks(run: seq<Db>, host: string, json: seq<Decky>, docker: map<string, string>) {
    forall i, j | 0 <= i && j == i + 1 && j < |run| :: Tick(run[i], run[j], host, json, docker)
  }

  ghost predicate SettledWithin(rows: Db, host: string, json: seq<Decky>, docker: map<string, string>, ticks: nat) {
    AllSettled(rows, host, json, docker) || |Obstacles(rows, host, json, docker)| < ticks
  }

  lemma TickCounts(rows: Db, rows': Db, host: string, json: seq<Decky>, docker: map<string, string>, ticks: nat)
    requires Plain(host, json) && Tick(rows, rows', host, json, docker)
    requires SettledWithin(rows, host, json, docker, ticks + 1)
    ensures SettledWithin(rows', host, json, docker, ticks)
  {
    TickProgress(rows, rows', host, json, docker);
  }

  /** With a bus: on unchanged inputs every run of ticks has settled every row once there was one
      tick more than names that do not fit into a topic and need a write. */
  lemma {:induction false} TicksConverge(run: seq<Db>, host: string, json: seq<Decky>, docker: map<string, string>)
    requires Plain(host, json) && run != [] && Ticks(run, host, json, docker)
    requires SettledWithin(run[0], host, json, docker, |run| - 1)
    ensures AllSettled(run[|run| - 1], host, json, docker)
    decreases |run|
  {
    if |run| > 1 {
      TickCounts(run[0], run[1], host, json, docker, |run| - 2);
      TicksConverge(run[1..], host, json, docker);
    }
  }

  /** The two-decky pass below, write by write. */
  lemma TwoInserts(host: string, d: Decky, e: Decky)
    requires host != "" && d.name != e.name && d.host == "" && e.host == ""
    ensures var v := ViewOf(map[], host, None, []);
            var x, y := Inserted(Key(host, d.name), EntryRow(v, d)), Inserted(Key(host, e.name), EntryRow(v, e));
            Pass(map[], host, [d, e], None, []) == World(map[x.key := x.row, y.key := y.row], [x, y])
  {
    var v, w0, json := ViewOf(map[], host, None, []), World(map[], []), [d, e];
    assert json[..1] == [d] && [d][..0] == [];
    assert v.snapshot == map[];
    assert InsertAll(w0, v, json[..1]) == InsertOne(InsertAll(w0, v, []), v, d);
    var w1 := InsertAll(w0, v, json);
    assert w1 == InsertOne(InsertAll(w0, v, json[..1]), v, e);
    assert ChangeAll(w1, v, json[..1]) == ChangeOne(ChangeAll(w1, v, []), v, d);
    assert ChangeAll(w1, v, json) == ChangeOne(ChangeAll(w1, v, json[..1]), v, e);
  }

  /** Two writes of which the first cannot be announced. */
  lemma FirstUnsafe(x: Write, y: Write, bus: bool, rows: Db, rows': Db, outcome: Outcome, events: seq<Write>)
    requires x.Inserted? && y.Inserted? && !TopicSafe(x.key)
    requires Tracks(map[], rows', outcome, events, bus, World(rows, [x, y]))
    ensures if bus then outcome == Raised && events == [] && rows' == map[x.key := x.row]
            else outcome == Finished(Counts(2, 0, 0)) && rows' == rows
  {
    var writes := [x, y];
    TallyAppend(map[], [], x);
    TallyAppend(map[], [x], y);
    assert [] + [x] == [x] == writes[..1] && [x] + [y] == writes;
    assert x in writes;
  }

  /** A dotted name on an empty table: with a bus the pass inserts that one decky, announces
      nothing and raises, so its neighbour is missing; without a bus both are there. */
  lemma DottedNameStops(host: string, d: Decky, e: Decky, bus: bool, rows': Db, outcome: Outcome, events: seq<Write>)
    requires host != "" && d.name == "web.corp" && e.name == "c" && d.host == "" && e.host == ""
    requires Tracks(map[], rows', outcome, events, bus, Pass(map[], host, [d, e], None, []))
    ensures if bus then outcome == Raised && events == [] && rows'.Keys == {Key(host, d.name)}
            else outcome == Finished(Counts(2, 0, 0)) && rows'.Keys == {Key(host, d.name), Key(host, e.name)}
  {
    var v := ViewOf(map[], host, None, []);
    var x, y := Inserted(Key(host, d.name), EntryRow(v, d)), Inserted(Key(host, e.name), EntryRow(v, e));
    assert d.name[3] == '.' && d.name[3] in d.name && d.name != e.name;
    TopicSafeIff(x.key);
    TwoInserts(host, d, e);
    FirstUnsafe(x, y, bus, map[x.key := x.row, y.key := y.row], rows', outcome, events);
  }
}
