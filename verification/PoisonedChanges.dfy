/** Changesets with payloads that do not parse: how many deliveries they take, and what they do to the
    other changes. */
module PoisonedChanges {
  import opened Common
  import opened ReplicationTypes
  import opened VersionVectors
  import opened LwwStore
  import opened SyncNode
  import opened CrashRecovery

  // ----- which payloads fail a delivery -------------------------------------------------

  /** The change at i is newer than what the table holds and than every earlier change of its key. */
  predicate Newest(lww: map<string, LwwRow>, changes: seq<Change>, i: nat)
    requires i < |changes|
  {
    && TableAllows(lww, changes[i])
    && forall j :: 0 <= j < i && KeyOf(changes[j]) == KeyOf(changes[i]) ==>
         changes[j].timestamp.LessThan(changes[i].timestamp)
  }

  /** The change at i does not parse, and the service tries to apply it. */
  predicate Blocks(env: Env, lww: map<string, LwwRow>, changes: seq<Change>, i: nat)
    requires i < |changes|
  {
    !Parses(env, changes[i]) && Newest(lww, changes, i)
  }

  ghost function Poison(env: Env, lww: map<string, LwwRow>, changes: seq<Change>): set<nat> {
    set i | 0 <= i < |changes| && Blocks(env, lww, changes, i)
  }

  /** The store after going over a list without stopping at payloads that do not parse. */
  function Skim(env: Env, s: Store, changes: seq<Change>): Store {
    if changes == [] then s
    else ProcessOne(env, Skim(env, s, changes[..|changes| - 1]), changes[|changes| - 1]).store
  }

  /** How many payloads fail on the way. */
  function Failures(env: Env, s: Store, changes: seq<Change>): nat {
    if changes == [] then 0
    else
      var front, last := changes[..|changes| - 1], changes[|changes| - 1];
      Failures(env, s, front) + if ProcessOne(env, Skim(env, s, front), last).ok then 0 else 1
  }

  ghost predicate AllStorable(changes: seq<Change>) {
    forall c <- changes :: Storable(c.timestamp)
  }

  lemma {:induction false} SkimKeepsCacheBelow(env: Env, s: Store, changes: seq<Change>)
    requires CacheBelow(s) && AllStorable(changes)
    ensures CacheBelow(Skim(env, s, changes))
  {
    if changes != [] {
      var n := |changes| - 1;
      SkimKeepsCacheBelow(env, s, changes[..n]);
      ProcessOneKeepsCacheBelow(env, Skim(env, s, changes[..n]), changes[n]);
    }
  }

  lemma {:induction false} SkimConcat(env: Env, s: Store, a: seq<Change>, b: seq<Change>)
    ensures Skim(env, s, a + b) == Skim(env, Skim(env, s, a), b)
  {
    if b == [] {
      assert a + b == a;
    } else {
      var n := |b| - 1;
      assert (a + b)[..|a + b| - 1] == a + b[..n];
      SkimConcat(env, s, a, b[..n]);
    }
  }

  lemma {:induction false} OneDecides(env: Env, s: Store, d: Change, c: Change)
    requires CacheBelow(s) && Storable(d.timestamp)
    ensures TableAllows(ProcessOne(env, s, d).store.lww, c) <==>
            TableAllows(s.lww, c) && (KeyOf(d) == KeyOf(c) ==> d.timestamp.LessThan(c.timestamp))
  {
    CacheAgrees(s, d);
  }

  /** What the table allows after a list: what it allowed before and is newer than the list's changes of that key. */
  lemma {:induction false} SkimDecides(env: Env, s: Store, changes: seq<Change>, c: Change)
    requires CacheBelow(s) && AllStorable(changes)
    ensures TableAllows(Skim(env, s, changes).lww, c) <==>
            TableAllows(s.lww, c) && forall d <- changes :: KeyOf(d) == KeyOf(c) ==> d.timestamp.LessThan(c.timestamp)
  {
    if changes != [] {
      var n := |changes| - 1;
      SkimDecides(env, s, changes[..n], c);
      SkimKeepsCacheBelow(env, s, changes[..n]);
      OneDecides(env, Skim(env, s, changes[..n]), changes[n], c);
      assert forall d :: d in changes <==> d in changes[..n] || d == changes[n];
    }
  }

  /** The failures met are exactly the blocking positions. */
  lemma {:induction false} FailuresAreBlocks(env: Env, s: Store, changes: seq<Change>)
    requires CacheBelow(s) && AllStorable(changes)
    ensures Failures(env, s, changes) == |Poison(env, s.lww, changes)|
  {
    if changes == [] {
      assert Poison(env, s.lww, changes) == {};
    } else {
      var n := |changes| - 1;
      var front, last := changes[..n], changes[n];
      FailuresAreBlocks(env, s, front);
      SkimDecides(env, s, front, last);
      SkimKeepsCacheBelow(env, s, front);
      CacheAgrees(Skim(env, s, front), last);
      assert (forall d <- front :: KeyOf(d) == KeyOf(last) ==> d.timestamp.LessThan(last.timestamp)) <==>
             (forall j :: 0 <= j < n && KeyOf(changes[j]) == KeyOf(last) ==>
                changes[j].timestamp.LessThan(last.timestamp));
      PoisonGrows(env, s.lww, changes);
    }
  }

  lemma {:induction false} BlocksInFront(env: Env, lww: map<string, LwwRow>, changes: seq<Change>, i: nat)
    requires i + 1 < |changes|
    ensures Blocks(env, lww, changes[..|changes| - 1], i) <==> Blocks(env, lww, changes, i)
  {
    var front := changes[..|changes| - 1];
    assert forall j :: 0 <= j <= i ==> front[j] == changes[j];
  }

  lemma {:induction false} PoisonGrows(env: Env, lww: map<string, LwwRow>, changes: seq<Change>)
    requires changes != []
    ensures |Poison(env, lww, changes)|
         == |Poison(env, lww, changes[..|changes| - 1])| + if Blocks(env, lww, changes, |changes| - 1) then 1 else 0
  {
    var n := |changes| - 1;
    var fewer, all := Poison(env, lww, changes[..n]), Poison(env, lww, changes);
    forall i: nat ensures i in all <==> i in fewer || (i == n && Blocks(env, lww, changes, n)) {
      if i < n {
        BlocksInFront(env, lww, changes, i);
      }
    }
    if Blocks(env, lww, changes, n) {
      assert all == fewer + {n};
    } else {
      assert all == fewer;
    }
  }

  /** The positions whose changes a delivery applies. */
  ghost function Effective(lww: map<string, LwwRow>, changes: seq<Change>): set<nat> {
    set i | 0 <= i < |changes| && Newest(lww, changes, i)
  }

  lemma {:induction false} NewestInFront(lww: map<string, LwwRow>, changes: seq<Change>, i: nat)
    requires i + 1 < |changes|
    ensures Newest(lww, changes[..|changes| - 1], i) <==> Newest(lww, changes, i)
  {
    var front := changes[..|changes| - 1];
    assert forall j :: 0 <= j <= i ==> front[j] == changes[j];
  }

  lemma {:induction false} EffectiveGrows(lww: map<string, LwwRow>, changes: seq<Change>)
    requires changes != []
    ensures |Effective(lww, changes)|
         == |Effective(lww, changes[..|changes| - 1])| + if Newest(lww, changes, |changes| - 1) then 1 else 0
  {
    var n := |changes| - 1;
    var front := changes[..n];
    var fewer, all := Effective(lww, front), Effective(lww, changes);
    forall i: nat ensures i in all <==> i in fewer || (i == n && Newest(lww, changes, n)) {
      if i < n {
        NewestInFront(lww, changes, i);
      }
    }
    if Newest(lww, changes, n) {
      assert all == fewer + {n};
    } else {
      assert all == fewer;
    }
  }

  // ----- repeated deliveries ------------------------------------------------------------

  lemma {:induction false} RejectedIsSkimmed(env: Env, s: Store, changes: seq<Change>)
    requires forall c <- changes :: !TableAllows(s.lww, c)
    ensures Skim(env, s, changes) == s && Failures(env, s, changes) == 0
  {
    if changes != [] {
      RejectedIsSkimmed(env, s, changes[..|changes| - 1]);
    }
  }

  lemma {:induction false} SkimRemembers(env: Env, s: Store, changes: seq<Change>)
    requires CacheBelow(s) && AllStorable(changes)
    ensures forall c <- changes :: !TableAllows(Skim(env, s, changes).lww, c)
  {
    forall c <- changes ensures !TableAllows(Skim(env, s, changes).lww, c) {
      SkimDecides(env, s, changes, c);
    }
  }

  /** One delivery either meets no failure and completes the pass, or stops at the first one, after which
      one failure fewer lies ahead and the pass still leads to the same store. */
  lemma {:induction false} OneDelivery(env: Env, s: Store, changes: seq<Change>)
    requires CacheBelow(s) && AllStorable(changes)
    ensures var r := Process(env, s, changes);
            && CacheBelow(r.store) && Skim(env, r.store, changes) == Skim(env, s, changes)
            && if Failures(env, s, changes) == 0 then r.ok && r.store == Skim(env, s, changes)
               else !r.ok && Failures(env, r.store, changes) == Failures(env, s, changes) - 1
  {
    if changes != [] {
      var n := |changes| - 1;
      var front, last := changes[..n], changes[n];
      OneDelivery(env, s, front);
      if Failures(env, s, front) == 0 {
        SkimKeepsCacheBelow(env, s, changes);
        SkimRemembers(env, s, changes);
        RejectedIsSkimmed(env, Skim(env, s, changes), changes);
      }
    } else {
      assert Skim(env, s, []) == s;
    }
  }

  /** The number a completed delivery reports counts the changes newer than the table and than all earlier
      changes of their key. */
  lemma {:induction false} AppliedCountsEffective(env: Env, s: Store, changes: seq<Change>)
    requires CacheBelow(s) && AllStorable(changes) && Process(env, s, changes).ok
    ensures Process(env, s, changes).applied == |Effective(s.lww, changes)|
  {
    if changes == [] {
      assert Effective(s.lww, changes) == {};
    } else {
      var n := |changes| - 1;
      var front, last := changes[..n], changes[n];
      AppliedCountsEffective(env, s, front);
      OneDelivery(env, s, front);
      var before := Process(env, s, front).store;
      SkimDecides(env, s, front, last);
      CacheAgrees(before, last);
      assert (forall d <- front :: KeyOf(d) == KeyOf(last) ==> d.timestamp.LessThan(last.timestamp)) <==>
             (forall j :: 0 <= j < n && KeyOf(changes[j]) == KeyOf(last) ==>
                changes[j].timestamp.LessThan(last.timestamp));
      EffectiveGrows(s.lww, changes);
    }
  }

  /** The same changeset delivered k times in a row. */
  function Deliveries(env: Env, n: Node, cs: ChangeSet, k: nat): Node {
    if k == 0 then n else Do(env, Deliveries(env, n, cs, k - 1), Deliver(cs))
  }

  lemma {:induction false} FailingDeliveries(env: Env, n: Node, cs: ChangeSet, k: nat)
    requires CacheBelow(n.store) && Accepts(env, n, cs) && AllStorable(cs.changes)
    requires k <= Failures(env, n.store, cs.changes)
    ensures var m := Deliveries(env, n, cs, k);
            && m == n.(store := m.store) && CacheBelow(m.store)
            && Failures(env, m.store, cs.changes) == Failures(env, n.store, cs.changes) - k
            && Skim(env, m.store, cs.changes) == Skim(env, n.store, cs.changes)
  {
    if k > 0 {
      FailingDeliveries(env, n, cs, k - 1);
      OneDelivery(env, Deliveries(env, n, cs, k - 1).store, cs.changes);
    }
  }

  /** A changeset with m blocking payloads is refused m times and accepted by the next delivery: after k
      deliveries it is still unseen if and only if k <= m. From then on it is recorded as seen, every
      blocking change is dropped though its timestamp guards its key, and the rest is applied. */
  lemma {:induction false} PoisonIsSwallowed(env: Env, n: Node, cs: ChangeSet, k: nat)
    requires CacheBelow(n.store) && Accepts(env, n, cs) && AllStorable(cs.changes)
    ensures var m := |Poison(env, n.store.lww, cs.changes)|;
            var after := Deliveries(env, n, cs, k);
            && (Accepts(env, after, cs) <==> k <= m)
            && (k <= m ==> after.vv == n.vv && after.versions == n.versions
                           && (Process(env, after.store, cs.changes).ok <==> k == m))
            && (k > m ==> after.store == Skim(env, n.store, cs.changes)
                          && Seen(after.vv, cs.source) == Seen(after.versions, cs.source) == cs.seqNo)
  {
    var m := |Poison(env, n.store.lww, cs.changes)|;
    FailuresAreBlocks(env, n.store, cs.changes);
    if k <= m {
      FailingDeliveries(env, n, cs, k);
      OneDelivery(env, Deliveries(env, n, cs, k).store, cs.changes);
    } else {
      LaterDeliveries(env, n, cs, k);
    }
  }

  /** From the delivery after the last failing one on, nothing changes any more. */
  lemma {:induction false} LaterDeliveries(env: Env, n: Node, cs: ChangeSet, k: nat)
    requires CacheBelow(n.store) && Accepts(env, n, cs) && AllStorable(cs.changes)
    requires k > Failures(env, n.store, cs.changes)
    ensures Deliveries(env, n, cs, k) == n.(store := Skim(env, n.store, cs.changes),
                                            vv := Bump(n.vv, cs.source, cs.seqNo),
                                            versions := n.versions[cs.source := cs.seqNo])
  {
    if k == Failures(env, n.store, cs.changes) + 1 {
      CompletingDelivery(env, n, cs, k);
    } else {
      LaterDeliveries(env, n, cs, k - 1);
      assert !Accepts(env, Deliveries(env, n, cs, k - 1), cs);
    }
  }

  lemma {:induction false} CompletingDelivery(env: Env, n: Node, cs: ChangeSet, k: nat)
    requires CacheBelow(n.store) && Accepts(env, n, cs) && AllStorable(cs.changes)
    requires k == Failures(env, n.store, cs.changes) + 1
    ensures Deliveries(env, n, cs, k) == n.(store := Skim(env, n.store, cs.changes),
                                            vv := Bump(n.vv, cs.source, cs.seqNo),
                                            versions := n.versions[cs.source := cs.seqNo])
  {
    FailingDeliveries(env, n, cs, k - 1);
    OneDelivery(env, Deliveries(env, n, cs, k - 1).store, cs.changes);
  }

  // ----- what the dropped changes do to the others --------------------------------------

  function Parsable(env: Env, changes: seq<Change>): (r: seq<Change>)
    ensures forall c :: c in r <==> c in changes && Parses(env, c)
  {
    if changes == [] then []
    else Parsable(env, changes[..|changes| - 1])
         + if Parses(env, changes[|changes| - 1]) then [changes[|changes| - 1]] else []
  }

  lemma {:induction false} ParsableConcat(env: Env, a: seq<Change>, b: seq<Change>)
    ensures Parsable(env, a + b) == Parsable(env, a) + Parsable(env, b)
  {
    if b == [] {
      assert a + b == a;
    } else {
      var n := |b| - 1;
      assert (a + b)[..|a + b| - 1] == a + b[..n];
      ParsableConcat(env, a, b[..n]);
    }
  }

  /** The changes before the first occurrence of c. */
  function UpTo(changes: seq<Change>, c: Change): (r: seq<Change>)
    ensures c !in r && |r| <= |changes| && r == changes[..|r|]
    ensures c in changes ==> |r| < |changes| && changes[|r|] == c
  {
    if changes == [] || changes[0] == c then [] else [changes[0]] + UpTo(changes[1..], c)
  }

  /** An unparsable change of the same key, at least as new, comes before c. */
  ghost predicate Overtaken(env: Env, changes: seq<Change>, c: Change) {
    exists d <- UpTo(changes, c) :: !Parses(env, d) && KeyOf(d) == KeyOf(c) && c.timestamp.AtMost(d.timestamp)
  }

  /** A row stays as it is while no parsable change of its key is allowed. */
  lemma {:induction false} RowQuiet(env: Env, s: Store, changes: seq<Change>, pk: string)
    requires CacheBelow(s) && AllStorable(changes) && forall c <- changes :: ColonFree(c.table)
    requires forall c <- changes :: Parses(env, c) && KeyOf(c) == Key("backends", pk) ==> !TableAllows(s.lww, c)
    ensures LiveRow(Skim(env, s, changes).backends, pk) == LiveRow(s.backends, pk)
  {
    if changes != [] {
      var n := |changes| - 1;
      var front, last := changes[..n], changes[n];
      RowQuiet(env, s, front, pk);
      SkimDecides(env, s, front, last);
      SkimKeepsCacheBelow(env, s, front);
      CacheAgrees(Skim(env, s, front), last);
      if Parses(env, last) {
        LiveAfterWrite(env, Skim(env, s, front).backends, last, pk);
      }
    }
  }

  /** Around its first occurrence, the winner is newer than what came before and no older than what follows. */
  lemma {:induction false} WinnerSplits(a: seq<Change>, w: Change, b: seq<Change>)
    requires Winner(a + [w] + b, KeyOf(w)) == Some(w) && w !in a
    ensures forall d <- a :: KeyOf(d) == KeyOf(w) ==> d.timestamp.LessThan(w.timestamp)
    ensures forall d <- b :: KeyOf(d) == KeyOf(w) ==> d.timestamp.AtMost(w.timestamp)
  {
    WinnerAmid(a, w, b);
    WinnerBounds(a, KeyOf(w));
    WinnerBounds(b, KeyOf(w));
  }

  lemma {:induction false} WinnerAmid(a: seq<Change>, w: Change, b: seq<Change>)
    requires Winner(a + [w] + b, KeyOf(w)) == Some(w) && w !in a
    ensures var wa, wb := Winner(a, KeyOf(w)), Winner(b, KeyOf(w));
            && (wa.Some? ==> wa.value.timestamp.LessThan(w.timestamp))
            && (wb.Some? ==> wb.value.timestamp.AtMost(w.timestamp))
  {
    var key := KeyOf(w);
    WinnerConcat(a + [w], b, key);
    WinnerConcat(a, [w], key);
    assert [w][..0] == [];
    assert Winner([w], key) == Some(w);
  }

  lemma {:induction false} WinnerBounds(h: seq<Change>, key: string)
    ensures forall d <- h :: KeyOf(d) == key ==>
              Winner(h, key).Some? && d.timestamp.AtMost(Winner(h, key).value.timestamp)
  {
    NoWinner(h, key);
    if Winner(h, key).Some? {
      WinnerDecides(h, key);
    }
  }

  /** The live row after a pass over a list: untouched if no parsable change of its key is allowed; what the
      winner among the parsable ones dictates; or, if the winner is overtaken, what it was when the
      winner came. */
  lemma {:induction false} RowAfter(env: Env, s: Store, changes: seq<Change>, pk: string)
    requires CacheBelow(s) && AllStorable(changes) && forall c <- changes :: ColonFree(c.table)
    ensures LiveRow(Skim(env, s, changes).backends, pk)
         == RowDictated(env, s, changes, pk, Winner(Parsable(env, changes), Key("backends", pk)))
  {
    var key := Key("backends", pk);
    var good := Parsable(env, changes);
    NoWinner(good, key);
    if Winner(good, key).None? {
      RowQuiet(env, s, changes, pk);
    } else {
      RowOfWinner(env, s, changes, Winner(good, key).value, pk);
    }
  }

  ghost function RowDictated(env: Env, s: Store, changes: seq<Change>, pk: string, w: Option<Change>)
      : Option<BackendRow> {
    if w.None? || !TableAllows(s.lww, w.value) then LiveRow(s.backends, pk)
    else if Overtaken(env, changes, w.value) then LiveRow(Skim(env, s, UpTo(changes, w.value)).backends, pk)
    else Effect(env, w.value)
  }

  lemma {:induction false} RowOfWinner(env: Env, s: Store, changes: seq<Change>, w: Change, pk: string)
    requires CacheBelow(s) && AllStorable(changes) && forall c <- changes :: ColonFree(c.table)
    requires Winner(Parsable(env, changes), Key("backends", pk)) == Some(w)
    ensures LiveRow(Skim(env, s, changes).backends, pk) == RowDictated(env, s, changes, pk, Some(w))
  {
    BackendWinner(env, changes, w, pk);
    if TableAllows(s.lww, w) {
      RowOfAllowed(env, s, changes, w);
    } else {
      RowOfRejected(env, s, changes, w);
    }
  }

  lemma {:induction false} BackendWinner(env: Env, changes: seq<Change>, w: Change, pk: string)
    requires Winner(Parsable(env, changes), Key("backends", pk)) == Some(w) && forall c <- changes :: ColonFree(c.table)
    ensures w.table == "backends" && w.pk == pk
  {
    assert w in Parsable(env, changes);
    KeyInjective(w.table, w.pk, "backends", pk);
  }

  lemma {:induction false} RowOfAllowed(env: Env, s: Store, changes: seq<Change>, w: Change)
    requires CacheBelow(s) && AllStorable(changes) && forall c <- changes :: ColonFree(c.table)
    requires Winner(Parsable(env, changes), KeyOf(w)) == Some(w) && w.table == "backends" && TableAllows(s.lww, w)
    ensures LiveRow(Skim(env, s, changes).backends, w.pk) == RowDictated(env, s, changes, w.pk, Some(w))
  {
    AroundWinner(env, changes, w);
    RowAround(env, s, UpTo(changes, w), w, changes[|UpTo(changes, w)| + 1..]);
  }

  lemma {:induction false} RowOfRejected(env: Env, s: Store, changes: seq<Change>, w: Change)
    requires CacheBelow(s) && AllStorable(changes) && forall c <- changes :: ColonFree(c.table)
    requires Winner(Parsable(env, changes), KeyOf(w)) == Some(w) && w.table == "backends" && !TableAllows(s.lww, w)
    ensures LiveRow(Skim(env, s, changes).backends, w.pk) == LiveRow(s.backends, w.pk)
  {
    AroundWinner(env, changes, w);
    forall c <- changes | Parses(env, c) && KeyOf(c) == KeyOf(w) ensures !TableAllows(s.lww, c) {
      assert c.timestamp.AtMost(w.timestamp);
    }
    RowQuiet(env, s, changes, w.pk);
  }

  /** The list around the first occurrence of the winner among its parsable changes. */
  lemma {:induction false} AroundWinner(env: Env, changes: seq<Change>, w: Change)
    requires Winner(Parsable(env, changes), KeyOf(w)) == Some(w)
    ensures var a, b := UpTo(changes, w), changes[|UpTo(changes, w)| + 1..];
            changes == a + [w] + b && Parses(env, w) && NewestAmid(env, a, w, b)
    ensures forall d <- changes :: Parses(env, d) && KeyOf(d) == KeyOf(w) ==> d.timestamp.AtMost(w.timestamp)
  {
    var a, b := UpTo(changes, w), changes[|UpTo(changes, w)| + 1..];
    assert changes == a + [w] + b;
    ParsableAround(env, a, w, b);
    WinnerSplits(Parsable(env, a), w, Parsable(env, b));
    assert forall d <- changes :: d in a || d == w || d in b;
  }

  /** Among the parsable changes of its key, w is newer than those in a and no older than those in b. */
  ghost predicate NewestAmid(env: Env, a: seq<Change>, w: Change, b: seq<Change>) {
    && (forall d <- a :: Parses(env, d) && KeyOf(d) == KeyOf(w) ==> d.timestamp.LessThan(w.timestamp))
    && (forall d <- b :: Parses(env, d) && KeyOf(d) == KeyOf(w) ==> d.timestamp.AtMost(w.timestamp))
  }

  lemma {:induction false} ParsableAround(env: Env, a: seq<Change>, w: Change, b: seq<Change>)
    requires Parses(env, w)
    ensures Parsable(env, a + [w] + b) == Parsable(env, a) + [w] + Parsable(env, b)
  {
    ParsableConcat(env, a + [w], b);
    ParsableConcat(env, a, [w]);
    assert [w][..0] == [];
    assert Parsable(env, [w]) == [w];
  }

  lemma {:induction false} RowAround(env: Env, s: Store, a: seq<Change>, w: Change, b: seq<Change>)
    requires CacheBelow(s) && AllStorable(a + [w] + b) && forall c <- a + [w] + b :: ColonFree(c.table)
    requires w.table == "backends" && Parses(env, w) && TableAllows(s.lww, w)
    requires NewestAmid(env, a, w, b)
    ensures LiveRow(Skim(env, s, a + [w] + b).backends, w.pk)
         == if exists d <- a :: !Parses(env, d) && KeyOf(d) == KeyOf(w) && w.timestamp.AtMost(d.timestamp)
            then LiveRow(Skim(env, s, a).backends, w.pk) else Effect(env, w)
  {
    var all := a + [w] + b;
    assert (forall c <- a :: c in all) && w in all && (forall c <- b :: c in all);
    var before := Skim(env, s, a);
    SkimKeepsCacheBelow(env, s, a);
    SkimDecides(env, s, a, w);
    CacheAgrees(before, w);
    LiveAfterWrite(env, before.backends, w, w.pk);
    QuietAfter(env, before, w, b);
    assert (a + [w])[..|a|] == a;
    SkimConcat(env, s, a + [w], b);
  }

  /** Once the winner has been met, nothing older changes its row. */
  lemma {:induction false} QuietAfter(env: Env, before: Store, w: Change, b: seq<Change>)
    requires CacheBelow(before) && Storable(w.timestamp) && AllStorable(b) && forall c <- b :: ColonFree(c.table)
    requires w.table == "backends"
    requires forall d <- b :: Parses(env, d) && KeyOf(d) == KeyOf(w) ==> d.timestamp.AtMost(w.timestamp)
    ensures var after := ProcessOne(env, before, w).store;
            LiveRow(Skim(env, after, b).backends, w.pk) == LiveRow(after.backends, w.pk)
  {
    var after := ProcessOne(env, before, w).store;
    ProcessOneKeepsCacheBelow(env, before, w);
    forall c <- b | Parses(env, c) && KeyOf(c) == KeyOf(w) ensures !TableAllows(after.lww, c) {
      OneDecides(env, before, w, c);
    }
    RowQuiet(env, after, b, w.pk);
  }

  /** A dropped change harms a row: the change that should decide the row comes after an unparsable one of
      its key that is at least as new, and dictates something else than the row shows by then. */
  ghost predicate Harmed(env: Env, s: Store, changes: seq<Change>, pk: string) {
    var w := Winner(Parsable(env, changes), Key("backends", pk));
    && w.Some? && TableAllows(s.lww, w.value) && Overtaken(env, changes, w.value)
    && Effect(env, w.value) != LiveRow(Skim(env, s, UpTo(changes, w.value)).backends, pk)
  }

  lemma {:induction false} ParsableAlone(env: Env, changes: seq<Change>)
    requires forall i :: 0 <= i < |changes| ==> Parses(env, changes[i])
    ensures Parsable(env, changes) == changes
  {
    if changes != [] {
      var front := changes[..|changes| - 1];
      ParsableAlone(env, front);
      ParsableOneMore(env, front, changes[|changes| - 1]);
      assert changes == front + [changes[|changes| - 1]];
    }
  }

  lemma {:induction false} ParsableOneMore(env: Env, front: seq<Change>, c: Change)
    requires Parses(env, c)
    ensures Parsable(env, front + [c]) == Parsable(env, front) + [c]
  {
    assert (front + [c])[..|front|] == front;
  }

  lemma {:induction false} HarmedRows(env: Env, s: Store, changes: seq<Change>, pk: string)
    requires CacheBelow(s) && AllStorable(changes) && forall c <- changes :: ColonFree(c.table)
    ensures LiveRow(Skim(env, s, changes).backends, pk) == LiveRow(Skim(env, s, Parsable(env, changes)).backends, pk)
       <==> !Harmed(env, s, changes, pk)
  {
    var good := Parsable(env, changes);
    RowAfter(env, s, changes, pk);
    RowAfter(env, s, good, pk);
    assert forall i :: 0 <= i < |good| ==> good[i] in good;
    ParsableAlone(env, good);
    var w := Winner(good, Key("backends", pk));
    if w.Some? {
      NeverOvertaken(env, good, w.value);
    }
  }

  lemma {:induction false} NeverOvertaken(env: Env, changes: seq<Change>, c: Change)
    requires forall d <- changes :: Parses(env, d)
    ensures !Overtaken(env, changes, c)
  {
    assert forall d <- UpTo(changes, c) :: d in changes;
  }

  lemma {:induction false} HarmlessIff(env: Env, s: Store, changes: seq<Change>)
    requires CacheBelow(s) && AllStorable(changes) && forall c <- changes :: ColonFree(c.table)
    ensures Live(Skim(env, s, changes).backends) == Live(Skim(env, s, Parsable(env, changes)).backends) <==>
            forall pk :: !Harmed(env, s, changes, pk)
  {
    LiveIffAllRows(Skim(env, s, changes).backends, Skim(env, s, Parsable(env, changes)).backends);
    forall pk
      ensures LiveRow(Skim(env, s, changes).backends, pk) == LiveRow(Skim(env, s, Parsable(env, changes)).backends, pk)
         <==> !Harmed(env, s, changes, pk)
    {
      HarmedRows(env, s, changes, pk);
    }
  }

  lemma {:induction false} LiveIffAllRows(b1: map<string, BackendRow>, b2: map<string, BackendRow>)
    ensures Live(b1) == Live(b2) <==> forall pk :: LiveRow(b1, pk) == LiveRow(b2, pk)
  {
    if forall pk :: LiveRow(b1, pk) == LiveRow(b2, pk) {
      LiveRowsDetermineLive(b1, b2);
    } else {
      var pk :| LiveRow(b1, pk) != LiveRow(b2, pk);
      assert pk in Live(b1) || pk in Live(b2);
    }
  }

  /** Exactly when swallowing is harmless: once the changeset has got through, the live rows are those of the
      same changeset delivered without its unparsable changes if and only if no row is harmed. */
  lemma {:induction false} SwallowingHarmlessIff(env: Env, n: Node, cs: ChangeSet, k: nat)
    requires CacheBelow(n.store) && Accepts(env, n, cs) && k > |Poison(env, n.store.lww, cs.changes)|
    requires AllStorable(cs.changes) && forall c <- cs.changes :: ColonFree(c.table)
    ensures var swallowed := Deliveries(env, n, cs, k);
            var clean := Do(env, n, Deliver(NewChangeSet(env, cs.source, cs.seqNo, Parsable(env, cs.changes))));
            && swallowed.vv == clean.vv && swallowed.versions == clean.versions
            && (Live(swallowed.store.backends) == Live(clean.store.backends) <==>
                forall pk :: !Harmed(env, n.store, cs.changes, pk))
  {
    var good := Parsable(env, cs.changes);
    FailuresAreBlocks(env, n.store, cs.changes);
    LaterDeliveries(env, n, cs, k);
    DeliveryCompletes(env, n, NewChangeSet(env, cs.source, cs.seqNo, good));
    HarmlessIff(env, n.store, cs.changes);
  }

  /** A delivery whose payloads all parse completes at once. */
  lemma {:induction false} DeliveryCompletes(env: Env, n: Node, cs: ChangeSet)
    requires Accepts(env, n, cs) && forall c <- cs.changes :: Parses(env, c)
    ensures Do(env, n, Deliver(cs)) == n.(store := Skim(env, n.store, cs.changes),
                                          vv := Bump(n.vv, cs.source, cs.seqNo),
                                          versions := n.versions[cs.source := cs.seqNo])
  {
    CleanDelivery(env, n.store, cs.changes);
  }

  lemma {:induction false} CleanDelivery(env: Env, s: Store, changes: seq<Change>)
    requires forall c <- changes :: Parses(env, c)
    ensures Process(env, s, changes).ok && Process(env, s, changes).store == Skim(env, s, changes)
  {
    if changes != [] {
      CleanDelivery(env, s, changes[..|changes| - 1]);
    }
  }
}
