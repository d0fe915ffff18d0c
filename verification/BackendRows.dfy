/** The backends table over whole runs: deletion is soft, and no column is made up. */
module BackendRows {
  import opened Common
  import opened ReplicationTypes
  import opened LwwStore
  import opened SyncNode

  /** Some payload delivered for a row carries its columns. */
  ghost predicate CameIn(env: Env, steps: seq<Step>, pk: string, row: BackendRow) {
    exists s <- steps :: Delivers(s) && exists c <- s.cs.changes :: Writes(env, c, pk, row)
  }

  predicate Writes(env: Env, c: Change, pk: string, row: BackendRow) {
    && c.table == "backends" && c.pk == pk && c.kind != Delete
    && env.parse(c.data).Some? && row.(deleted := false) == RowOf(env.parse(c.data).value)
  }

  /** No row is gone, and each is an old one, possibly marked as deleted, or comes from a payload. */
  ghost predicate RowsKept(env: Env, before: map<string, BackendRow>, after: map<string, BackendRow>,
      changes: seq<Change>) {
    && before.Keys <= after.Keys
    && forall pk <- after ::
         || (pk in before && after[pk].(deleted := false) == before[pk].(deleted := false))
         || exists c <- changes :: Writes(env, c, pk, after[pk])
  }

  lemma {:induction false} ProcessKeepsRows(env: Env, s: Store, changes: seq<Change>)
    ensures RowsKept(env, s.backends, Process(env, s, changes).store.backends, changes)
  {
    if changes != [] {
      var n := |changes| - 1;
      ProcessKeepsRows(env, s, changes[..n]);
      var mid, after := Process(env, s, changes[..n]).store.backends, Process(env, s, changes).store.backends;
      forall pk <- after
        ensures (pk in s.backends && after[pk].(deleted := false) == s.backends[pk].(deleted := false))
             || exists c <- changes :: Writes(env, c, pk, after[pk])
      {
        if pk in mid && after[pk].(deleted := false) == mid[pk].(deleted := false) {
          if c :| c in changes[..n] && Writes(env, c, pk, mid[pk]) {
            assert c in changes && Writes(env, c, pk, after[pk]);
          }
        } else {
          assert changes[n] in changes && Writes(env, changes[n], pk, after[pk]);
        }
      }
    }
  }

  /** The changes a step may bring in. */
  function Brought(s: Step): seq<Change> {
    if Delivers(s) then s.cs.changes else []
  }

  lemma {:induction false} StepKeepsRows(env: Env, n: Node, s: Step)
    ensures RowsKept(env, n.store.backends, Do(env, n, s).store.backends, Brought(s))
  {
    if Delivers(s) {
      var part := if s.Deliver? then s.cs.changes else Prefix(s.cs, s.upto);
      ProcessKeepsRows(env, n.store, part);
      MoreChanges(env, n.store.backends, Process(env, n.store, part).store.backends, part, s.cs.changes);
    }
  }

  lemma {:induction false} MoreChanges(env: Env, before: map<string, BackendRow>, after: map<string, BackendRow>,
      part: seq<Change>, changes: seq<Change>)
    requires RowsKept(env, before, after, part) && forall c <- part :: c in changes
    ensures RowsKept(env, before, after, changes)
  {
  }

  /** Every row came in from a delivered payload. */
  ghost predicate AllCameIn(env: Env, steps: seq<Step>, rows: map<string, BackendRow>) {
    forall pk <- rows :: CameIn(env, steps, pk, rows[pk])
  }

  lemma {:induction false} StepAllCameIn(env: Env, n: Node, steps: seq<Step>)
    requires steps != [] && AllCameIn(env, steps[..|steps| - 1], n.store.backends)
    ensures AllCameIn(env, steps, Do(env, n, steps[|steps| - 1]).store.backends)
  {
    var front, last := steps[..|steps| - 1], steps[|steps| - 1];
    var before, after := n.store.backends, Do(env, n, last).store.backends;
    StepKeepsRows(env, n, last);
    forall pk <- after ensures CameIn(env, steps, pk, after[pk]) {
      if pk in before && after[pk].(deleted := false) == before[pk].(deleted := false) {
        SameColumnsCameIn(env, steps, pk, before[pk], after[pk]);
      } else {
        assert last in steps;
      }
    }
  }

  lemma {:induction false} SameColumnsCameIn(env: Env, steps: seq<Step>, pk: string, row: BackendRow, row': BackendRow)
    requires steps != [] && CameIn(env, steps[..|steps| - 1], pk, row)
    requires row.(deleted := false) == row'.(deleted := false)
    ensures CameIn(env, steps, pk, row')
  {
    var s :| s in steps[..|steps| - 1] && Delivers(s) && exists c <- s.cs.changes :: Writes(env, c, pk, row);
    var c :| c in s.cs.changes && Writes(env, c, pk, row);
    assert s in steps && Writes(env, c, pk, row');
  }

  /** Deletion is soft: over every run, crashes and parse failures included, no row of the backends table
      ever goes away, and each row, deleted or not, carries the columns of some payload delivered for it. */
  lemma {:induction false} RowsNeverVanish(env: Env, id: string, steps: seq<Step>, k: nat)
    requires k <= |steps|
    ensures Run(env, FreshNode(id), steps[..k]).store.backends.Keys
         <= Run(env, FreshNode(id), steps).store.backends.Keys
    ensures AllCameIn(env, steps, Run(env, FreshNode(id), steps).store.backends)
  {
    if k == |steps| {
      assert steps[..k] == steps;
    }
    if steps != [] {
      var n := |steps| - 1;
      RowsNeverVanish(env, id, steps[..n], if k < n then k else n);
      assert k <= n ==> steps[..n][..k] == steps[..k];
      StepKeepsRows(env, Run(env, FreshNode(id), steps[..n]), steps[n]);
      StepAllCameIn(env, Run(env, FreshNode(id), steps[..n]), steps);
    }
  }
}
