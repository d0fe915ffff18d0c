/** The sync service as the program runs it: an object holding the pending list, the sequence counter,
    the version vector and the timestamp cache, over tables that survive it. Every method is shown to
    take exactly the step of the same name in `SyncNode`. */
module SyncServices {
  import opened Common
  import opened ReplicationTypes
  import opened VersionVectors
  import opened LwwStore
  import opened SyncNode

  /** The database file. */
  class Database {
    var lww: map<string, LwwRow>
    var backends: map<string, BackendRow>
    var versions: map<string, nat>

    constructor ()
      ensures lww == map[] && backends == map[] && versions == map[]
    {
      lww, backends, versions := map[], map[], map[];
    }
  }

  datatype ApplyResult = Applied(count: nat) | ChecksumMismatch | ParseError

  class SyncService {
    const env: Env
    const nodeId: string
    const db: Database
    const versionVector: VersionVector
    var sequence: nat
    var pending: seq<Change>
    var lastTimestamps: map<string, HlcTimestamp>

    ghost function StoreValue(): Store
      reads this, db
    {
      Store(db.lww, db.backends, lastTimestamps)
    }

    ghost function Value(): Node
      reads this, db, versionVector
    {
      Node(nodeId, sequence, versionVector.versions, db.versions, pending, StoreValue())
    }

    /** `new` followed by `init_db` over an existing database: what a restart does. */
    constructor (env: Env, nodeId: string, db: Database)
      ensures this.env == env && this.nodeId == nodeId && this.db == db
      ensures fresh(versionVector)
      ensures forall n: Node | n.id == nodeId && n.versions == db.versions ::
                n.store.lww == db.lww && n.store.backends == db.backends ==> Value() == Restart(n)
    {
      this.env, this.nodeId, this.db := env, nodeId, db;
      sequence, pending, lastTimestamps := 0, [], map[];
      var vv := new VersionVector();
      versionVector := vv;
      new;
      var rows := db.versions.Keys;
      while rows != {}
        invariant rows <= db.versions.Keys
        invariant versionVector.versions == map n | n in db.versions && n !in rows :: db.versions[n]
        invariant sequence == 0 && pending == [] && lastTimestamps == map[]
        decreases rows
      {
        var n :| n in rows;
        versionVector.Update(n, db.versions[n]);
        rows := rows - {n};
      }
      assert versionVector.versions == db.versions;
      if nodeId in versionVector.versions {
        sequence := versionVector.versions[nodeId];
      }
    }

    method RecordChange(changeId: U64, table: string, pk: string, kind: ChangeKind, data: string, wall: U64)
      returns (change: Change)
      modifies this
      ensures Value() == Do(env, old(Value()), Record(changeId, table, pk, kind, data, wall))
      ensures change == NewChange(env, old(Value()), Record(changeId, table, pk, kind, data, wall))
    {
      change := Change(changeId, table, pk, kind, data, Now(env, nodeId, wall), nodeId);
      pending := pending + [change];
    }

    /** `persisted` says whether the database write succeeds; a failure is only logged. */
    method FlushPending(persisted: bool) returns (sent: Option<ChangeSet>)
      modifies this, db, versionVector
      ensures Value() == Do(env, old(Value()), Flush(SENT, persisted))
      ensures (if sent.Some? then [sent.value] else []) == Sent(env, old(Value()), Flush(SENT, persisted))
    {
      if pending == [] {
        return None;
      }
      var changes := pending;
      pending := [];
      sequence := sequence + 1;
      var changeset := NewChangeSet(env, nodeId, sequence, changes);
      versionVector.Update(nodeId, sequence);
      if persisted {
        db.versions := db.versions[nodeId := sequence];
      }
      sent := Some(changeset);
    }

    method ShouldApplyChange(change: Change) returns (r: bool)
      ensures r == ShouldApply(StoreValue(), change)
    {
      var key := Key(change.table, change.pk);
      if key in lastTimestamps {
        if change.timestamp.AtMost(lastTimestamps[key]) {
          return false;
        }
      }
      var result: Option<HlcTimestamp> := if key in db.lww then DecodeRow(db.lww[key]) else None;
      match result
      case Some(existing) => r := existing.LessThan(change.timestamp);
      case None => r := true;
    }

    /** The columns of a row, with the service's defaults for absent ones. */
    static method BuildRow(data: BackendJson) returns (row: BackendRow)
      ensures row == RowOf(data)
    {
      var app := if data.app.Some? then data.app.value else "";
      var region := if data.region.Some? then data.region.value else "us";
      var wgIp := if data.wgIp.Some? then data.wgIp.value else "";
      var port := if data.port.Some? then data.port.value else 0;
      var healthy := if data.healthy.Some? then data.healthy.value else 1;
      var weight := if data.weight.Some? then data.weight.value else 2;
      var soft := if data.softLimit.Some? then data.softLimit.value else 100;
      var hard := if data.hardLimit.Some? then data.hardLimit.value else 150;
      row := BackendRow(app, region, data.country, wgIp, port, healthy, weight, soft, hard, false);
    }

    method ApplyBackendChange(change: Change) returns (ok: bool)
      requires change.table == "backends"
      modifies db
      ensures db.lww == old(db.lww) && db.versions == old(db.versions)
      ensures ok == Parses(env, change)
      ensures db.backends == if ok then WriteRow(env, old(db.backends), change) else old(db.backends)
    {
      match change.kind
      case Delete =>
        if change.pk in db.backends {
          db.backends := db.backends[change.pk := db.backends[change.pk].(deleted := true)];
        }
        ok := true;
      case _ =>
        var data := env.parse(change.data);
        if data.None? {
          return false;
        }
        var row := BuildRow(data.value);
        db.backends := db.backends[change.pk := row];
        ok := true;
    }

    method ApplySingleChange(change: Change) returns (ok: bool)
      modifies this`lastTimestamps, db
      ensures db.versions == old(db.versions)
      ensures ok == Parses(env, change)
      ensures StoreValue() == ApplySingle(env, old(StoreValue()), change)
    {
      var key := Key(change.table, change.pk);
      db.lww := db.lww[key := EncodeRow(change.timestamp)];
      if change.table == "backends" {
        ok := ApplyBackendChange(change);
        if !ok {
          return;
        }
      }
      lastTimestamps := lastTimestamps[key := change.timestamp];
      ok := true;
    }

    method ApplyChangeset(cs: ChangeSet) returns (result: ApplyResult)
      modifies this`lastTimestamps, db, versionVector
      ensures Value() == Do(env, old(Value()), Deliver(cs))
      ensures result == if !Verify(env, cs) then ChecksumMismatch
                        else if !Accepts(env, old(Value()), cs) then Applied(0)
                        else var r := Process(env, old(StoreValue()), cs.changes);
                             if r.ok then Applied(r.applied) else ParseError
    {
      if !Verify(env, cs) {
        return ChecksumMismatch;
      }
      var seen := versionVector.HasSeen(cs.source, cs.seqNo);
      if seen {
        return Applied(0);
      }
      var applied := 0;
      ghost var start := StoreValue();
      for i := 0 to |cs.changes|
        invariant Process(env, start, cs.changes[..i]) == Outcome(StoreValue(), applied, true)
        invariant db.versions == old(db.versions) && versionVector.versions == old(versionVector.versions)
      {
        assert cs.changes == cs.changes[..i + 1] + cs.changes[i + 1..];
        assert cs.changes[..i + 1][..i] == cs.changes[..i];
        var should := ShouldApplyChange(cs.changes[i]);
        if should {
          var ok := ApplySingleChange(cs.changes[i]);
          if !ok {
            ProcessConcat(env, start, cs.changes[..i + 1], cs.changes[i + 1..]);
            return ParseError;
          }
          applied := applied + 1;
        }
      }
      assert cs.changes[..|cs.changes|] == cs.changes;
      versionVector.Update(cs.source, cs.seqNo);
      db.versions := db.versions[cs.source := cs.seqNo];
      result := Applied(applied);
    }
  }
}
