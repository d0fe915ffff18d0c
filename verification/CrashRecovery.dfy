/** Crashes in the middle of applying a changeset, followed by a restart and a redelivery. */
module CrashRecovery {
  import opened Common
  import opened ReplicationTypes
  import opened VersionVectors
  import opened LwwStore
  import opened SyncNode

  // ----- the cache never matters, and nothing processed is forgotten --------------------

  lemma {:induction false} KeepsRejecting(env: Env, s: Store, c: Change, d: Change)
    requires CacheBelow(s) && Storable(c.timestamp) && !TableAllows(s.lww, d)
    ensures !TableAllows(ProcessOne(env, s, c).store.lww, d)
  {
    CacheAgrees(s, c);
  }

  /** After a list is processed, the table rejects every change of it. */
  lemma {:induction false} ProcessRemembers(env: Env, s: Store, changes: seq<Change>)
    requires CacheBelow(s) && forall c <- changes :: Storable(c.timestamp)
    requires Process(env, s, changes).ok
    ensures forall c <- changes :: !TableAllows(Process(env, s, changes).store.lww, c)
  {
    if changes != [] {
      var n := |changes| - 1;
      var before := Process(env, s, changes[..n]).store;
      ProcessRemembers(env, s, changes[..n]);
      ProcessKeepsCacheBelow(env, s, changes[..n]);
      forall c | c in changes ensures !TableAllows(Process(env, s, changes).store.lww, c) {
        if c in changes[..n] {
          KeepsRejecting(env, before, changes[n], c);
        } else {
          ProcessOneKeepsCacheBelow(env, before, changes[n]);
        }
      }
    }
  }

  lemma {:induction false} RejectedIsSkipped(env: Env, s: Store, changes: seq<Change>)
    requires forall c <- changes :: !TableAllows(s.lww, c)
    ensures Process(env, s, changes) == Outcome(s, 0, true)
  {
    if changes != [] {
      RejectedIsSkipped(env, s, changes[..|changes| - 1]);
    }
  }

  predicate SameTables(s: Store, t: Store) {
    s.lww == t.lww && s.backends == t.backends
  }

  /** Processing writes the same tables with any cache that is below the table. */
  lemma {:induction false} ProcessIgnoresCache(env: Env, s: Store, t: Store, changes: seq<Change>)
    requires CacheBelow(s) && CacheBelow(t) && SameTables(s, t)
    requires forall c <- changes :: Storable(c.timestamp)
    ensures var r, q := Process(env, s, changes), Process(env, t, changes);
            SameTables(r.store, q.store) && r.applied == q.applied && r.ok == q.ok
  {
    if changes != [] {
      var n := |changes| - 1;
      ProcessIgnoresCache(env, s, t, changes[..n]);
      ProcessKeepsCacheBelow(env, s, changes[..n]);
      ProcessKeepsCacheBelow(env, t, changes[..n]);
      CacheAgrees(Process(env, s, changes[..n]).store, changes[n]);
      CacheAgrees(Process(env, t, changes[..n]).store, changes[n]);
    }
  }

  /** Redelivery over a store whose table already rejects a prefix processes only the rest. */
  lemma {:induction false} RedeliverySkips(env: Env, s: Store, t: Store, pre: seq<Change>, post: seq<Change>)
    requires CacheBelow(s) && CacheBelow(t) && SameTables(s, t)
    requires forall c <- post :: Storable(c.timestamp)
    requires forall c <- pre :: !TableAllows(t.lww, c)
    ensures var r, q := Process(env, s, post), Process(env, t, pre + post);
            SameTables(r.store, q.store) && r.ok == q.ok
  {
    RejectedIsSkipped(env, t, pre);
    ProcessConcat(env, t, pre, post);
    ProcessIgnoresCache(env, s, t, post);
  }

  /** A crash between two changes is harmless: after the restart, redelivering the changeset leaves
      exactly the tables, the vector and the verdict of an uninterrupted apply. */
  lemma {:induction false} CrashThenRedeliver(env: Env, n: Node, cs: ChangeSet, upto: nat)
    requires Synced(n) && CacheBelow(n.store) && Accepts(env, n, cs) && upto <= |cs.changes|
    requires forall c <- cs.changes :: Storable(c.timestamp)
    requires Process(env, n.store, cs.changes[..upto]).ok
    ensures var whole := Do(env, n, Deliver(cs));
            var again := Do(env, Do(env, n, DeliverCrash(cs, upto)), Deliver(cs));
            && SameTables(again.store, whole.store)
            && again.versions == whole.versions && again.vv == whole.vv
  {
    var pre, post := cs.changes[..upto], cs.changes[upto..];
    assert cs.changes == pre + post;
    var before := Process(env, n.store, pre);
    var crashed := Do(env, n, DeliverCrash(cs, upto));
    ProcessConcat(env, n.store, pre, post);
    ProcessKeepsCacheBelow(env, n.store, pre);
    ProcessRemembers(env, n.store, pre);
    RedeliverySkips(env, before.store, crashed.store, pre, post);
    assert Accepts(env, crashed, cs);
  }

  // ----- a crash between the two statements of one change -------------------------------

  /** Two stores whose live rows may differ only in one row. */
  ghost predicate SameBut(s: Store, t: Store, pk: string) {
    && CacheBelow(s) && CacheBelow(t) && s.lww == t.lww
    && forall q :: q != pk ==> LiveRow(s.backends, q) == LiveRow(t.backends, q)
  }

  /** Some change of the list beats the given one on its own key. */
  ghost predicate Superseded(c: Change, changes: seq<Change>) {
    exists d <- changes :: KeyOf(d) == KeyOf(c) && c.timestamp.LessThan(d.timestamp)
  }

  lemma LiveAfterWrite(env: Env, b: map<string, BackendRow>, c: Change, q: string)
    requires Parses(env, c)
    ensures LiveRow(WriteRow(env, b, c), q)
         == if c.table == "backends" && q == c.pk then Effect(env, c) else LiveRow(b, q)
  {
  }

  /** One more change: the differing row is overwritten alike, or left alone on both sides. */
  lemma {:induction false} StepInParallel(env: Env, s: Store, t: Store, c: Change, d: Change)
    requires Regular(env, d) && c.table == "backends" && SameBut(s, t, c.pk)
    ensures var s', t' := ProcessOne(env, s, d).store, ProcessOne(env, t, d).store;
            && SameBut(s', t', c.pk)
            && (if KeyOf(d) == KeyOf(c) && TableAllows(s.lww, d)
                then LiveRow(s'.backends, c.pk) == LiveRow(t'.backends, c.pk)
                else LiveRow(s'.backends, c.pk) == LiveRow(s.backends, c.pk)
                     && LiveRow(t'.backends, c.pk) == LiveRow(t.backends, c.pk))
  {
    CacheAgrees(s, d);
    CacheAgrees(t, d);
    ProcessOneKeepsCacheBelow(env, s, d);
    ProcessOneKeepsCacheBelow(env, t, d);
    if KeyOf(d) == KeyOf(c) && TableAllows(s.lww, d) {
      KeyInjective(d.table, d.pk, c.table, c.pk);
    }
    if TableAllows(s.lww, d) {
      forall q ensures LiveRow(WriteRow(env, s.backends, d), q)
                    == if d.table == "backends" && q == d.pk then Effect(env, d) else LiveRow(s.backends, q)
               ensures LiveRow(WriteRow(env, t.backends, d), q)
                    == if d.table == "backends" && q == d.pk then Effect(env, d) else LiveRow(t.backends, q)
      {
        LiveAfterWrite(env, s.backends, d, q);
        LiveAfterWrite(env, t.backends, d, q);
      }
    }
  }

  lemma {:induction false} RunInParallel(env: Env, s: Store, t: Store, c: Change, post: seq<Change>)
    requires AllRegular(env, post) && c.table == "backends" && SameBut(s, t, c.pk)
    requires ReadLww(s.lww, KeyOf(c)) == Some(c.timestamp)
    ensures Process(env, s, post).ok && Process(env, t, post).ok
    ensures var s', t' := Process(env, s, post).store, Process(env, t, post).store;
            && SameBut(s', t', c.pk)
            && (if Superseded(c, post)
                then LiveRow(s'.backends, c.pk) == LiveRow(t'.backends, c.pk)
                else ReadLww(s'.lww, KeyOf(c)) == Some(c.timestamp)
                     && LiveRow(s'.backends, c.pk) == LiveRow(s.backends, c.pk)
                     && LiveRow(t'.backends, c.pk) == LiveRow(t.backends, c.pk))
  {
    if post != [] {
      var n := |post| - 1;
      var front := post[..n];
      assert post == front + [post[n]];
      RunInParallel(env, s, t, c, front);
      var s1, t1 := Process(env, s, front).store, Process(env, t, front).store;
      StepInParallel(env, s1, t1, c, post[n]);
      CacheAgrees(s1, post[n]);
      if Superseded(c, front) {
        var d :| d in front && KeyOf(d) == KeyOf(c) && c.timestamp.LessThan(d.timestamp);
        assert d in post;
      } else {
        assert Superseded(c, post) <==> KeyOf(post[n]) == KeyOf(c) && c.timestamp.LessThan(post[n].timestamp);
      }
    }
  }

  /** The same at the level of stores: `whole` applied everything, `again` met the torn store first. */
  lemma {:induction false} TornStoreRedelivered(env: Env, start: Store, pre: seq<Change>, c: Change, post: seq<Change>)
    requires CacheBelow(start) && AllRegular(env, pre) && Regular(env, c) && AllRegular(env, post)
    requires ShouldApply(Process(env, start, pre).store, c)
    ensures var before := Process(env, start, pre).store;
            var whole := Process(env, start, pre + [c] + post);
            var again := Process(env, Torn(before, c).(cache := map[]), pre + [c] + post);
            && whole.ok && again.ok && again.store.lww == whole.store.lww
            && (Live(again.store.backends) == Live(whole.store.backends) <==>
                || c.table != "backends"
                || LiveRow(before.backends, c.pk) == Effect(env, c)
                || Superseded(c, post))
  {
    var before := Process(env, start, pre).store;
    var s, t := ApplySingle(env, before, c), Torn(before, c).(cache := map[]);
    ProcessAllOk(env, start, pre);
    ProcessKeepsCacheBelow(env, start, pre);
    ProcessOneKeepsCacheBelow(env, before, c);
    ProcessUpTo(env, start, pre, c, post);
    TornRejects(env, start, pre, c);
    RejectedIsSkipped(env, t, pre + [c]);
    ProcessConcat(env, t, pre + [c], post);
    TornInParallel(env, before, c, post);
  }

  lemma {:induction false} ProcessUpTo(env: Env, start: Store, pre: seq<Change>, c: Change, post: seq<Change>)
    requires Process(env, start, pre).ok && Parses(env, c) && ShouldApply(Process(env, start, pre).store, c)
    ensures Process(env, start, pre + [c]).ok
    ensures Process(env, start, pre + [c]).store == ApplySingle(env, Process(env, start, pre).store, c)
    ensures Process(env, start, pre + [c] + post).store
         == Process(env, ApplySingle(env, Process(env, start, pre).store, c), post).store
    ensures Process(env, start, pre + [c] + post).ok
         == Process(env, ApplySingle(env, Process(env, start, pre).store, c), post).ok
  {
    assert (pre + [c])[..|pre|] == pre;
    ProcessConcat(env, start, pre + [c], post);
  }

  lemma {:induction false} TornRejects(env: Env, start: Store, pre: seq<Change>, c: Change)
    requires CacheBelow(start) && Storable(c.timestamp) && forall d <- pre :: Storable(d.timestamp)
    requires Process(env, start, pre).ok && ShouldApply(Process(env, start, pre).store, c)
    ensures forall d <- pre + [c] :: !TableAllows(Torn(Process(env, start, pre).store, c).lww, d)
  {
    var before := Process(env, start, pre).store;
    ProcessRemembers(env, start, pre);
    forall d | d in pre + [c] ensures !TableAllows(Torn(before, c).lww, d) {
      assert d in pre ==> !TableAllows(before.lww, d);
    }
  }

  lemma {:induction false} TornInParallel(env: Env, before: Store, c: Change, post: seq<Change>)
    requires CacheBelow(before) && Regular(env, c) && AllRegular(env, post) && ShouldApply(before, c)
    ensures var whole := Process(env, ApplySingle(env, before, c), post);
            var again := Process(env, Torn(before, c).(cache := map[]), post);
            && whole.ok && again.ok && again.store.lww == whole.store.lww
            && (Live(again.store.backends) == Live(whole.store.backends) <==>
                || c.table != "backends"
                || LiveRow(before.backends, c.pk) == Effect(env, c)
                || Superseded(c, post))
  {
    var s, t := ApplySingle(env, before, c), Torn(before, c).(cache := map[]);
    ProcessOneKeepsCacheBelow(env, before, c);
    ProcessAllOk(env, s, post);
    ProcessAllOk(env, t, post);
    if c.table == "backends" {
      forall q ensures LiveRow(s.backends, q) == if q == c.pk then Effect(env, c) else LiveRow(before.backends, q) {
        LiveAfterWrite(env, before.backends, c, q);
      }
      RunInParallel(env, s, t, c, post);
      LiveIffRows(Process(env, t, post).store.backends, Process(env, s, post).store.backends, c.pk);
    } else {
      ProcessIgnoresCache(env, s, t, post);
    }
  }

  /** A crash inside a change can lose it for good. After restart and redelivery the LWW table is
      that of an uninterrupted apply; the live rows are too exactly when the torn change does not
      touch the backends table, or its row already looked that way, or a later change of the same
      changeset overwrites the row. */
  lemma {:induction false} TornThenRedeliver(env: Env, n: Node, cs: ChangeSet, upto: nat)
    requires Synced(n) && CacheBelow(n.store) && Accepts(env, n, cs) && upto < |cs.changes|
    requires AllRegular(env, cs.changes)
    requires ShouldApply(Process(env, n.store, cs.changes[..upto]).store, cs.changes[upto])
    ensures var c := cs.changes[upto];
            var whole := Do(env, n, Deliver(cs)).store;
            var again := Do(env, Do(env, n, DeliverTorn(cs, upto)), Deliver(cs)).store;
            && again.lww == whole.lww
            && (Live(again.backends) == Live(whole.backends) <==>
                || c.table != "backends"
                || LiveRow(Process(env, n.store, cs.changes[..upto]).store.backends, c.pk) == Effect(env, c)
                || Superseded(c, cs.changes[upto + 1..]))
  {
    var c, pre, post := cs.changes[upto], cs.changes[..upto], cs.changes[upto + 1..];
    assert cs.changes == pre + [c] + post;
    assert AllRegular(env, pre) && AllRegular(env, post) && Regular(env, c);
    ProcessAllOk(env, n.store, pre);
    TornStoreRedelivered(env, n.store, pre, c, post);
    var torn := Do(env, n, DeliverTorn(cs, upto));
    assert torn.store == Torn(Process(env, n.store, pre).store, c).(cache := map[]);
    assert Accepts(env, torn, cs);
  }

  lemma {:induction false} ProcessAllOk(env: Env, s: Store, changes: seq<Change>)
    requires forall c <- changes :: Parses(env, c)
    ensures Process(env, s, changes).ok
  {
    if changes != [] {
      ProcessAllOk(env, s, changes[..|changes| - 1]);
    }
  }

  lemma {:induction false} LiveIffRows(b1: map<string, BackendRow>, b2: map<string, BackendRow>, pk: string)
    requires forall q :: q != pk ==> LiveRow(b1, q) == LiveRow(b2, q)
    ensures Live(b1) == Live(b2) <==> LiveRow(b1, pk) == LiveRow(b2, pk)
  {
    if LiveRow(b1, pk) == LiveRow(b2, pk) {
      LiveRowsDetermineLive(b1, b2);
    } else {
      assert pk in Live(b1) || pk in Live(b2);
    }
  }

  // ----- what ties do -------------------------------------------------------------------

  /** Two changes of one row reach the same live rows in either order exactly when their timestamps
      differ or they dictate the same row: on a tie the first one to arrive stays. */
  lemma {:induction false} OrderMattersOnTies(env: Env, c: Change, d: Change)
    requires Regular(env, c) && Regular(env, d)
    requires c.table == d.table == "backends" && c.pk == d.pk
    ensures Live(Process(env, EMPTY_STORE, [c, d]).store.backends)
         == Live(Process(env, EMPTY_STORE, [d, c]).store.backends)
       <==> c.timestamp != d.timestamp || Effect(env, c) == Effect(env, d)
  {
    TwoChanges(env, c, d);
    TwoChanges(env, d, c);
    var b1, b2 := Process(env, EMPTY_STORE, [c, d]).store.backends, Process(env, EMPTY_STORE, [d, c]).store.backends;
    LiveIffRows(b1, b2, c.pk);
  }

  lemma {:induction false} TwoChanges(env: Env, c: Change, d: Change)
    requires Regular(env, c) && Regular(env, d)
    requires c.table == d.table == "backends" && c.pk == d.pk
    ensures var b := Process(env, EMPTY_STORE, [c, d]).store.backends;
            && LiveRow(b, c.pk) == Effect(env, if c.timestamp.LessThan(d.timestamp) then d else c)
            && forall q :: q != c.pk ==> LiveRow(b, q) == None
  {
    assert [c, d][..1] == [c] && [c][..0] == [];
    var s := ProcessOne(env, EMPTY_STORE, c).store;
    assert Process(env, EMPTY_STORE, [c]).store == s;
    assert Process(env, EMPTY_STORE, [c, d]).store == ProcessOne(env, s, d).store;
    assert ReadLww(s.lww, KeyOf(c)) == Some(c.timestamp);
  }

  /** The other table's name continues "backends" past a colon so that the rows share a key. */
  ghost predicate Shadows(d: Change, c: Change) {
    exists x: string :: d.table == "backends" + ":" + x && c.pk == x + ":" + d.pk
  }

  lemma {:induction false} ShadowsIffSameKey(c: Change, d: Change)
    requires c.table == "backends" && d.table != "backends"
    ensures KeyOf(c) == KeyOf(d) <==> Shadows(d, c)
  {
    if |d.table| >= |c.table| {
      KeysCollideIff(c.table, c.pk, d.table, d.pk);
    } else {
      KeysCollideIff(d.table, d.pk, c.table, c.pk);
      NoContinuation(d.table, "backends");
      assert Shadows(d, c) ==> |d.table| >= |"backends" + ":"|;
    }
  }

  /** When a change to an unknown table suppresses one to a backend: exactly when its table name continues
      "backends" past a colon, the keys coincide, and the backend's change is not newer. */
  lemma {:induction false} ColonTableShadows(env: Env, c: Change, d: Change)
    requires c.table == "backends" && d.table != "backends"
    requires Parses(env, c) && Storable(d.timestamp)
    ensures Process(env, EMPTY_STORE, [d, c]).applied
         == if Shadows(d, c) && c.timestamp.AtMost(d.timestamp) then 1 else 2
    ensures Shadows(d, c) && c.timestamp.AtMost(d.timestamp) ==>
              Process(env, EMPTY_STORE, [d, c]).store.backends == map[]
  {
    ShadowsIffSameKey(c, d);
    assert [d, c][..1] == [d] && [d][..0] == [];
    var s := ProcessOne(env, EMPTY_STORE, d).store;
    assert Process(env, EMPTY_STORE, [d]) == Outcome(s, 1, true);
    assert Process(env, EMPTY_STORE, [d, c]).store == ProcessOne(env, s, c).store;
  }
}
