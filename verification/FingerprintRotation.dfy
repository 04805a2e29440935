/** Counting substrate-fingerprint rotations (decnet/correlation/fingerprint_rotation.py). */
module FingerprintRotation {

  datatype Key = Key(attacker: string, port: int, probe: string)
  datatype StateRow = StateRow(lastHash: string, lastSeen: int, rotations: nat)
  datatype Attacker = Attacker(uuid: string, rotations: nat, lastRotation: int)

  datatype Db = Db(attackers: map<string, Attacker>, rows: map<Key, StateRow>)

  datatype Outcome =
    | NoAttackerRow
    | FirstSighting
    | Unchanged(rotations: nat)
    | Rotated(oldHash: string, rotations: nat)

  /** The correlator creates attacker rows; the prober records hashes. */
  datatype Step =
    | Create(ip: string, uuid: string)
    | Record(ip: string, port: int, probe: string, hash: string, ts: int)

  function KeyOf(db: Db, s: Step): Key
    requires s.Record? && s.ip in db.attackers
  {
    Key(db.attackers[s.ip].uuid, s.port, s.probe)
  }

  function RecordStep(db: Db, s: Step): (r: (Db, Outcome))
    requires s.Record?
  {
    if s.ip !in db.attackers then (db, NoAttackerRow)
    else
      var k, a := KeyOf(db, s), db.attackers[s.ip];
      if k !in db.rows then (db.(rows := db.rows[k := StateRow(s.hash, s.ts, 0)]), FirstSighting)
      else
        var row := db.rows[k];
        if row.lastHash == s.hash then (db.(rows := db.rows[k := row.(lastSeen := s.ts)]), Unchanged(row.rotations))
        else
          var n := row.rotations + 1;
          (Db(db.attackers[s.ip := Attacker(a.uuid, a.rotations + 1, s.ts)], db.rows[k := StateRow(s.hash, s.ts, n)]),
           Rotated(row.lastHash, n))
  }

  class Session {
    var attackers: map<string, Attacker>
    var rows: map<Key, StateRow>

    constructor ()
      ensures Db(attackers, rows) == Db(map[], map[])
    {
      attackers, rows := map[], map[];
    }

    /** `record_fingerprint`, after the run `past`: the rows keep counting what the whole history
        holds, and the answer is the one the history gives. */
    method RecordFingerprint(ip: string, port: int, probe: string, hash: string, ts: int, ghost past: seq<Step>)
      returns (r: Outcome)
      requires Db(attackers, rows) == Run(past)
      modifies this
      ensures var now := past + [Record(ip, port, probe, hash, ts)];
              && Db(attackers, rows) == Run(now)
              && forall k :: RowIs(Db(attackers, rows), k, Hashes(now, k))
      ensures r == Told(past, Record(ip, port, probe, hash, ts))
    {
      ghost var s := Record(ip, port, probe, hash, ts);
      assert (past + [s])[..|past|] == past;
      OutcomeTells(past, s);
      forall k { RowsCountFlips(past + [s], k); }
      if ip !in attackers { return NoAttackerRow; }
      var a := attackers[ip];
      var k := Key(a.uuid, port, probe);
      if k !in rows {
        rows := rows[k := StateRow(hash, ts, 0)];
        return FirstSighting;
      }
      var row := rows[k];
      if row.lastHash == hash {
        rows := rows[k := row.(lastSeen := ts)];
        return Unchanged(row.rotations);
      }
      rows := rows[k := StateRow(hash, ts, row.rotations + 1)];
      attackers := attackers[ip := Attacker(a.uuid, a.rotations + 1, ts)];
      return Rotated(row.lastHash, row.rotations + 1);
    }
  }

  // ---------- runs ----------

  /** Attacker rows are unique by address and by uuid. */
  predicate Enabled(db: Db, s: Step) {
    s.Create? ==> s.ip !in db.attackers && forall ip | ip in db.attackers :: db.attackers[ip].uuid != s.uuid
  }

  function Next(db: Db, s: Step): Db {
    match s
    case Create(ip, uuid) => db.(attackers := db.attackers[ip := Attacker(uuid, 0, 0)])
    case Record(_, _, _, _, _) => RecordStep(db, s).0
  }

  function Run(steps: seq<Step>): Db {
    if steps == [] then Db(map[], map[]) else Next(Run(steps[..|steps| - 1]), steps[|steps| - 1])
  }

  predicate ValidRun(steps: seq<Step>) {
    forall i | 0 <= i < |steps| :: Enabled(Run(steps[..i]), steps[i])
  }

  /** The step adds a hash to the history of `k`. */
  predicate Adds(db: Db, s: Step, k: Key) {
    && s.Record? && s.ip in db.attackers
    && k.attacker == db.attackers[s.ip].uuid && k.port == s.port && k.probe == s.probe
  }

  /** All hashes ever recorded for `k`, in order. */
  function Hashes(steps: seq<Step>, k: Key): seq<string> {
    if steps == [] then []
    else
      var before, s := steps[..|steps| - 1], steps[|steps| - 1];
      if Adds(Run(before), s, k) then Hashes(before, k) + [s.hash] else Hashes(before, k)
  }

  /** How often the hash changed from one record to the next. */
  function Flips(hs: seq<string>): nat {
    if |hs| < 2 then 0
    else Flips(hs[..|hs| - 1]) + if hs[|hs| - 2] != hs[|hs| - 1] then 1 else 0
  }

  function SumFlips(steps: seq<Step>, keys: seq<Key>): nat {
    if keys == [] then 0 else SumFlips(steps, keys[..|keys| - 1]) + Flips(Hashes(steps, keys[|keys| - 1]))
  }

  /** A key's row is the digest of that key's history. */
  predicate RowIs(db: Db, k: Key, hs: seq<string>) {
    && (k in db.rows <==> hs != [])
    && (k in db.rows ==> db.rows[k].lastHash == hs[|hs| - 1] && db.rows[k].rotations == Flips(hs))
  }

  lemma {:induction false} RowsCountFlips(steps: seq<Step>, k: Key)
    ensures RowIs(Run(steps), k, Hashes(steps, k))
  {
    if steps != [] {
      var before, s := steps[..|steps| - 1], steps[|steps| - 1];
      RowsCountFlips(before, k);
      var hs := Hashes(before, k);
      if Adds(Run(before), s, k) { assert (hs + [s.hash])[..|hs|] == hs; }
    }
  }

  /** What the history of its key says about a record. */
  function Told(steps: seq<Step>, s: Step): Outcome
    requires s.Record?
  {
    var db := Run(steps);
    if s.ip !in db.attackers then NoAttackerRow
    else
      var hs := Hashes(steps, Key(db.attackers[s.ip].uuid, s.port, s.probe));
      if hs == [] then FirstSighting
      else if hs[|hs| - 1] == s.hash then Unchanged(Flips(hs))
      else Rotated(hs[|hs| - 1], Flips(hs + [s.hash]))
  }

  /** What a record reports is what the key's history says. */
  lemma OutcomeTells(steps: seq<Step>, s: Step)
    requires s.Record?
    ensures RecordStep(Run(steps), s).1 == Told(steps, s)
  {
    var db := Run(steps);
    if s.ip in db.attackers {
      var hs := Hashes(steps, KeyOf(db, s));
      RowsCountFlips(steps, KeyOf(db, s));
      assert (hs + [s.hash])[..|hs|] == hs;
    }
  }

  predicate Distinct(keys: seq<Key>) {
    forall i, j | 0 <= i < j < |keys| :: keys[i] != keys[j]
  }

  /** The step flips the hash of `k`. */
  predicate FlipsAt(steps: seq<Step>, k: Key)
    requires steps != []
  {
    var before, s := steps[..|steps| - 1], steps[|steps| - 1];
    Adds(Run(before), s, k) && Hashes(before, k) != [] && Hashes(before, k)[|Hashes(before, k)| - 1] != s.hash
  }

  lemma FlipsStep(steps: seq<Step>, k: Key)
    requires steps != []
    ensures Flips(Hashes(steps, k)) == Flips(Hashes(steps[..|steps| - 1], k)) + if FlipsAt(steps, k) then 1 else 0
  {
    var before, s := steps[..|steps| - 1], steps[|steps| - 1];
    var hs := Hashes(before, k);
    if Adds(Run(before), s, k) { assert (hs + [s.hash])[..|hs|] == hs; }
  }

  /** A step changes the sum by one exactly when it flips one of the summed keys. */
  lemma {:induction false} SumStep(steps: seq<Step>, keys: seq<Key>, k: Key)
    requires steps != [] && Distinct(keys)
    requires forall x | x in keys && x != k :: !FlipsAt(steps, x)
    ensures SumFlips(steps, keys) ==
            SumFlips(steps[..|steps| - 1], keys) + if k in keys && FlipsAt(steps, k) then 1 else 0
  {
    if keys != [] {
      var m := |keys| - 1;
      assert keys == keys[..m] + [keys[m]];
      SumStep(steps, keys[..m], k);
      FlipsStep(steps, keys[m]);
      if keys[m] == k { assert k !in keys[..m]; }
    }
  }

  /** `keys` lists, each once, keys of this attacker, and every one of them that has a history. */
  ghost predicate KeysOf(steps: seq<Step>, uuid: string, keys: seq<Key>) {
    && Distinct(keys)
    && (forall k | k in keys :: k.attacker == uuid)
    && (forall k: Key | k.attacker == uuid && Hashes(steps, k) != [] :: k in keys)
  }

  lemma {:induction false} UuidsUnique(steps: seq<Step>, a: string, b: string)
    requires ValidRun(steps) && a in Run(steps).attackers && b in Run(steps).attackers
    requires Run(steps).attackers[a].uuid == Run(steps).attackers[b].uuid
    ensures a == b
  {
    if steps != [] {
      var m := |steps| - 1;
      ValidPrefix(steps);
      if a in Run(steps[..m]).attackers && b in Run(steps[..m]).attackers { UuidsUnique(steps[..m], a, b); }
    }
  }

  lemma ValidPrefix(steps: seq<Step>)
    requires ValidRun(steps) && steps != []
    ensures ValidRun(steps[..|steps| - 1]) && Enabled(Run(steps[..|steps| - 1]), steps[|steps| - 1])
  {
    var before := steps[..|steps| - 1];
    assert forall i | 0 <= i < |before| :: before[..i] == steps[..i];
  }

  lemma {:induction false} HistoryNeedsAttacker(steps: seq<Step>, k: Key)
    requires ValidRun(steps)
    requires forall ip | ip in Run(steps).attackers :: Run(steps).attackers[ip].uuid != k.attacker
    ensures Hashes(steps, k) == []
  {
    if steps != [] {
      var before := steps[..|steps| - 1];
      ValidPrefix(steps);
      assert forall ip | ip in Run(before).attackers ::
          ip in Run(steps).attackers && Run(steps).attackers[ip].uuid == Run(before).attackers[ip].uuid;
      HistoryNeedsAttacker(before, k);
    }
  }

  lemma {:induction false} SumZero(steps: seq<Step>, keys: seq<Key>)
    requires forall k | k in keys :: Hashes(steps, k) == []
    ensures SumFlips(steps, keys) == 0
  {
    if keys != [] {
      assert keys[|keys| - 1] in keys;
      SumZero(steps, keys[..|keys| - 1]);
    }
  }

  /** An attacker's counter is the sum of the rotations of its keys, however they are listed. */
  lemma {:induction false} AttackerCountsSum(steps: seq<Step>, ip: string, keys: seq<Key>)
    requires ValidRun(steps) && ip in Run(steps).attackers
    requires KeysOf(steps, Run(steps).attackers[ip].uuid, keys)
    ensures Run(steps).attackers[ip].rotations == SumFlips(steps, keys)
  {
    var before, s := steps[..|steps| - 1], steps[|steps| - 1];
    var db, uuid := Run(before), Run(steps).attackers[ip].uuid;
    ValidPrefix(steps);
    if ip !in db.attackers {
      forall k | k in keys ensures Hashes(steps, k) == [] { HistoryNeedsAttacker(before, k); }
      SumZero(steps, keys);
    } else {
      assert KeysOf(before, uuid, keys);
      AttackerCountsSum(before, ip, keys);
      var k := if s.Record? && s.ip in db.attackers then KeyOf(db, s) else Key("", 0, "");
      forall x | x in keys && x != k ensures !FlipsAt(steps, x) { }
      SumStep(steps, keys, k);
      RowsCountFlips(before, k);
      if s.Record? && s.ip in db.attackers {
        if k.attacker == uuid { UuidsUnique(before, ip, s.ip); }
        if k in keys { assert k.attacker == uuid; }
      }
    }
  }

  // ---------- times ----------

  /** When `k` was recorded last; 0 before it ever was. */
  function LastRecord(steps: seq<Step>, k: Key): int {
    if steps == [] then 0
    else
      var before, s := steps[..|steps| - 1], steps[|steps| - 1];
      if Adds(Run(before), s, k) then s.ts else LastRecord(before, k)
  }

  /** A row holds the time of its key's last record, changed or not. */
  lemma {:induction false} RowsTellTime(steps: seq<Step>, k: Key)
    ensures k in Run(steps).rows ==> Run(steps).rows[k].lastSeen == LastRecord(steps, k)
  {
    if steps != [] { RowsTellTime(steps[..|steps| - 1], k); }
  }

  /** When a hash of this attacker changed last; 0 before one ever did. */
  function LastFlip(steps: seq<Step>, uuid: string): int {
    if steps == [] then 0
    else
      var s := steps[|steps| - 1];
      if s.Record? && FlipsAt(steps, Key(uuid, s.port, s.probe)) then s.ts else LastFlip(steps[..|steps| - 1], uuid)
  }

  lemma {:induction false} NoFlipBeforeAttacker(steps: seq<Step>, uuid: string)
    requires ValidRun(steps)
    requires forall ip | ip in Run(steps).attackers :: Run(steps).attackers[ip].uuid != uuid
    ensures LastFlip(steps, uuid) == 0
  {
    if steps != [] {
      var before := steps[..|steps| - 1];
      ValidPrefix(steps);
      assert forall ip | ip in Run(before).attackers ::
          ip in Run(steps).attackers && Run(steps).attackers[ip].uuid == Run(before).attackers[ip].uuid;
      NoFlipBeforeAttacker(before, uuid);
    }
  }

  /** An attacker row holds the time of the last change of any of its keys. */
  lemma {:induction false} AttackerTellsTime(steps: seq<Step>, ip: string)
    requires ValidRun(steps) && ip in Run(steps).attackers
    ensures Run(steps).attackers[ip].lastRotation == LastFlip(steps, Run(steps).attackers[ip].uuid)
  {
    var before, s := steps[..|steps| - 1], steps[|steps| - 1];
    var db, uuid := Run(before), Run(steps).attackers[ip].uuid;
    ValidPrefix(steps);
    if ip !in db.attackers {
      NoFlipBeforeAttacker(before, uuid);
    } else {
      AttackerTellsTime(before, ip);
      if s.Record? && s.ip in db.attackers {
        RowsCountFlips(before, KeyOf(db, s));
        if db.attackers[s.ip].uuid == uuid { UuidsUnique(before, ip, s.ip); }
      }
    }
  }
}
