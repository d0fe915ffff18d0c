/** One replica as a value, and whole runs of it: recording and flushing local changes, receiving
    changesets, crashing between SQL statements and restarting from the tables alone. */
module SyncNode {
  import opened Common
  import opened ReplicationTypes
  import opened VersionVectors
  import opened LwwStore

  datatype Node = Node(
    id: string,
    sequence: nat,
    vv: map<string, nat>,         // in memory
    versions: map<string, nat>,   // persisted
    pending: seq<Change>,
    store: Store)

  function FreshNode(id: string): Node {
    Node(id, 0, map[], map[], [], EMPTY_STORE)
  }

  // A flush goes through five moments, in this order; a crash may come after any of them.
  const DRAINED := 1
  const NUMBERED := 2
  const VECTOR_UPDATED := 3
  const PERSISTED := 4
  const SENT := 5

  datatype Step =
    | Record(changeId: U64, table: string, pk: string, kind: ChangeKind, data: string, wall: U64)
    | Flush(upto: nat, persists: bool)        // stops after `upto` moments and restarts, unless it gets to send
    | Deliver(cs: ChangeSet)
    | DeliverCrash(cs: ChangeSet, upto: nat)  // stops after `upto` whole changes, then restarts
    | DeliverTorn(cs: ChangeSet, upto: nat)   // stops between the two statements of change `upto`, then restarts
    | Restarts

  /** Tables survive; sequence and vector are read back from them; everything else is gone. */
  function Restart(n: Node): Node {
    n.(sequence := Seen(n.versions, n.id), vv := n.versions, pending := [], store := n.store.(cache := map[]))
  }

  function NewChange(env: Env, n: Node, s: Step): Change
    requires s.Record?
  {
    Change(s.changeId, s.table, s.pk, s.kind, s.data, Now(env, n.id, s.wall), n.id)
  }

  predicate Accepts(env: Env, n: Node, cs: ChangeSet) {
    Verify(env, cs) && Seen(n.vv, cs.source) < cs.seqNo
  }

  /** The node after the first moments of a flush; `persists` says whether the database write succeeds. */
  function Flushing(n: Node, upto: nat, persists: bool): Node {
    var drained := if upto >= DRAINED then n.(pending := []) else n;
    var numbered := if upto >= NUMBERED then drained.(sequence := n.sequence + 1) else drained;
    var updated := if upto >= VECTOR_UPDATED then numbered.(vv := Bump(n.vv, n.id, n.sequence + 1)) else numbered;
    if upto >= PERSISTED && persists then updated.(versions := n.versions[n.id := n.sequence + 1]) else updated
  }

  function FlushStep(n: Node, upto: nat, persists: bool): Node {
    if n.pending == [] then n
    else if upto >= SENT then Flushing(n, upto, persists)
    else Restart(Flushing(n, upto, persists))
  }

  function DeliverStep(env: Env, n: Node, cs: ChangeSet): Node {
    if !Accepts(env, n, cs) then n
    else
      var r := Process(env, n.store, cs.changes);
      if !r.ok then n.(store := r.store)
      else n.(store := r.store, vv := Bump(n.vv, cs.source, cs.seqNo), versions := n.versions[cs.source := cs.seqNo])
  }

  function Prefix(cs: ChangeSet, upto: nat): seq<Change> {
    if upto <= |cs.changes| then cs.changes[..upto] else cs.changes
  }

  /** The store a crash in the middle of change `upto` leaves behind. */
  function TornStore(env: Env, s: Store, cs: ChangeSet, upto: nat): Store {
    var before := Process(env, s, Prefix(cs, upto));
    if before.ok && upto < |cs.changes| && ShouldApply(before.store, cs.changes[upto])
    then Torn(before.store, cs.changes[upto]) else before.store
  }

  function Do(env: Env, n: Node, s: Step): Node {
    match s
    case Record(_, _, _, _, _, _) => n.(pending := n.pending + [NewChange(env, n, s)])
    case Flush(upto, persists) => FlushStep(n, upto, persists)
    case Deliver(cs) => DeliverStep(env, n, cs)
    case DeliverCrash(cs, upto) =>
      Restart(if Accepts(env, n, cs) then n.(store := Process(env, n.store, Prefix(cs, upto)).store) else n)
    case DeliverTorn(cs, upto) =>
      Restart(if Accepts(env, n, cs) then n.(store := TornStore(env, n.store, cs, upto)) else n)
    case Restarts => Restart(n)
  }

  /** The changesets that leave the node in a step. */
  function Sent(env: Env, n: Node, s: Step): seq<ChangeSet> {
    if s.Flush? && n.pending != [] && s.upto >= SENT
    then [NewChangeSet(env, n.id, n.sequence + 1, n.pending)] else []
  }

  /** A changeset the node started to apply, how many of its changes reached the LWW table, and whether it was
      recorded as seen. */
  datatype Attempt = Attempt(cs: ChangeSet, upto: nat, complete: bool)

  function Attempted(env: Env, n: Node, s: Step): seq<Attempt> {
    if s.Deliver? && Accepts(env, n, s.cs) then
      [Attempt(s.cs, |s.cs.changes|, Process(env, n.store, s.cs.changes).ok)]
    else if s.DeliverCrash? && Accepts(env, n, s.cs) then
      [Attempt(s.cs, s.upto, false)]
    else if s.DeliverTorn? && Accepts(env, n, s.cs) then
      [Attempt(s.cs, s.upto + 1, false)]
    else []
  }

  function Processed(attempts: seq<Attempt>): seq<Change> {
    if attempts == [] then [] else Prefix(attempts[0].cs, attempts[0].upto) + Processed(attempts[1..])
  }

  function Run(env: Env, n: Node, steps: seq<Step>): Node {
    if steps == [] then n else Do(env, Run(env, n, steps[..|steps| - 1]), steps[|steps| - 1])
  }

  function AllSent(env: Env, n: Node, steps: seq<Step>): seq<ChangeSet> {
    if steps == [] then []
    else AllSent(env, n, steps[..|steps| - 1])
         + Sent(env, Run(env, n, steps[..|steps| - 1]), steps[|steps| - 1])
  }

  function Attempts(env: Env, n: Node, steps: seq<Step>): seq<Attempt> {
    if steps == [] then []
    else Attempts(env, n, steps[..|steps| - 1])
         + Attempted(env, Run(env, n, steps[..|steps| - 1]), steps[|steps| - 1])
  }

  predicate Delivers(s: Step) {
    s.Deliver? || s.DeliverCrash? || s.DeliverTorn?
  }

  /** Deliveries that fail the checksum are ignored, so nothing is asked of them. */
  ghost predicate StorableStep(env: Env, s: Step) {
    Delivers(s) && Verify(env, s.cs) ==> forall c <- s.cs.changes :: Storable(c.timestamp)
  }

  ghost predicate RegularStep(env: Env, s: Step) {
    Delivers(s) && Verify(env, s.cs) ==> AllRegular(env, s.cs.changes)
  }

  /** No crash falls between the two statements of a change. */
  predicate Untorn(steps: seq<Step>) {
    forall s <- steps :: !s.DeliverTorn?
  }

  // ----- cache agreement ----------------------------------------------------------------

  /** In every reachable state, whatever failed or crashed, the cache stays below the table. */
  lemma {:induction false} RunKeepsCacheBelow(env: Env, n: Node, steps: seq<Step>)
    requires CacheBelow(n.store) && forall s <- steps :: StorableStep(env, s)
    ensures CacheBelow(Run(env, n, steps).store)
  {
    if steps != [] {
      var k := |steps| - 1;
      RunKeepsCacheBelow(env, n, steps[..k]);
      var before := Run(env, n, steps[..k]);
      assert StorableStep(env, steps[k]);
      if steps[k].Deliver? && Verify(env, steps[k].cs) {
        ProcessKeepsCacheBelow(env, before.store, steps[k].cs.changes);
      }
    }
  }

  /** Hence the service, which asks the cache first, decides every change as the table alone would. */
  lemma {:induction false} CachedDecisionIsTableDecision(env: Env, id: string, steps: seq<Step>, c: Change)
    requires forall s <- steps :: StorableStep(env, s)
    ensures var n := Run(env, FreshNode(id), steps);
            ShouldApply(n.store, c) == TableAllows(n.store.lww, c)
  {
    RunKeepsCacheBelow(env, FreshNode(id), steps);
    CacheAgrees(Run(env, FreshNode(id), steps).store, c);
  }

  // ----- sequence numbers ---------------------------------------------------------------

  predicate Synced(n: Node) {
    n.vv == n.versions && n.sequence == Seen(n.vv, n.id)
  }

  predicate PersistsAll(s: Step) {
    s.Flush? ==> s.persists
  }

  /** Memory and tables agree after every completed call, so a restart recovers vector and sequence. */
  lemma {:induction false} RunStaysSynced(env: Env, n: Node, steps: seq<Step>)
    requires Synced(n)
    requires forall s <- steps :: PersistsAll(s) && (Delivers(s) ==> s.cs.source != n.id)
    ensures Run(env, n, steps).id == n.id && Synced(Run(env, n, steps))
    ensures var m := Run(env, n, steps);
            Restart(m).vv == m.vv && Restart(m).sequence == m.sequence
  {
    if steps != [] {
      var k := |steps| - 1;
      RunStaysSynced(env, n, steps[..k]);
      assert PersistsAll(steps[k]) && (Delivers(steps[k]) ==> steps[k].cs.source != n.id);
    }
  }

  /** The hypothesis on the source is exact: a delivery puts memory and tables out of step if and only if
      it completes a changeset that names this very node, whose counter then lags behind its vector. */
  lemma {:induction false} OwnNameDesyncs(env: Env, n: Node, cs: ChangeSet)
    requires Synced(n)
    ensures Synced(Do(env, n, Deliver(cs))) <==>
            !(cs.source == n.id && Accepts(env, n, cs) && Process(env, n.store, cs.changes).ok)
  {
  }

  /** The highest number ever sent is covered by the counter, the vector and the table. */
  predicate Covers(n: Node, sent: seq<ChangeSet>) {
    forall cs <- sent :: cs.seqNo <= n.sequence && cs.seqNo <= Seen(n.vv, n.id) && cs.seqNo <= Seen(n.versions, n.id)
  }

  predicate NumbersIncrease(sent: seq<ChangeSet>) {
    forall i, j :: 0 <= i < j < |sent| ==> sent[i].seqNo < sent[j].seqNo
  }

  lemma StepCovers(env: Env, n: Node, s: Step, sent: seq<ChangeSet>)
    requires PersistsAll(s) && Covers(n, sent)
    ensures Covers(Do(env, n, s), sent + Sent(env, n, s))
    ensures forall cs <- sent, next <- Sent(env, n, s) :: cs.seqNo < next.seqNo
  {
  }

  /** No number is ever reused, across any crashes and restarts and whatever peers deliver, even a
      changeset that names this node: the numbers of what leaves the node strictly increase. */
  lemma {:induction false} SequenceNumbersIncrease(env: Env, id: string, steps: seq<Step>)
    requires forall s <- steps :: PersistsAll(s)
    ensures NumbersIncrease(AllSent(env, FreshNode(id), steps))
    ensures Covers(Run(env, FreshNode(id), steps), AllSent(env, FreshNode(id), steps))
  {
    if steps != [] {
      var k := |steps| - 1;
      SequenceNumbersIncrease(env, id, steps[..k]);
      var before := Run(env, FreshNode(id), steps[..k]);
      var sent := AllSent(env, FreshNode(id), steps[..k]);
      assert PersistsAll(steps[k]);
      StepCovers(env, before, steps[k], sent);
      var all := sent + Sent(env, before, steps[k]);
      forall i, j | 0 <= i < j < |all| ensures all[i].seqNo < all[j].seqNo {
        assert all[i] == sent[i];
        if j == |sent| {
          assert all[i] in sent && all[j] in Sent(env, before, steps[k]);
        } else {
          assert all[j] == sent[j];
        }
      }
    }
  }

  /** Changes wait in `pending` stamped with their node's hash. */
  predicate PendingStamped(env: Env, n: Node) {
    forall c <- n.pending :: c.timestamp.nodeHash == env.nodeHash(n.id) && c.origin == n.id
  }

  predicate Stamped(env: Env, cs: ChangeSet) {
    forall c <- cs.changes :: c.timestamp.nodeHash == env.nodeHash(cs.source)
  }

  /** Everything a node sends verifies, names the node, is non-empty and is stamped with its hash. */
  lemma {:induction false} SentAreStamped(env: Env, id: string, steps: seq<Step>)
    ensures Run(env, FreshNode(id), steps).id == id
    ensures PendingStamped(env, Run(env, FreshNode(id), steps))
    ensures forall cs <- AllSent(env, FreshNode(id), steps) ::
              Verify(env, cs) && cs.source == id && cs.changes != [] && Stamped(env, cs)
  {
    if steps != [] {
      var k := |steps| - 1;
      SentAreStamped(env, id, steps[..k]);
    }
  }

  // ----- acceptance ---------------------------------------------------------------------

  /** Whatever was completely accepted is covered by the vector and by the table. */
  predicate CoversAttempts(n: Node, attempts: seq<Attempt>) {
    forall a <- attempts :: a.complete && a.cs.source != n.id ==>
      a.cs.seqNo <= Seen(n.vv, a.cs.source) && a.cs.seqNo <= Seen(n.versions, a.cs.source)
  }

  predicate NoneRepeated(id: string, all: seq<Attempt>) {
    forall i, j :: 0 <= i < j < |all| && all[i].complete && all[i].cs.source == all[j].cs.source != id ==>
      all[i].cs.seqNo < all[j].cs.seqNo
  }

  lemma StepCoversAttempts(env: Env, n: Node, s: Step, attempts: seq<Attempt>)
    requires CoversAttempts(n, attempts)
    ensures Do(env, n, s).id == n.id
    ensures CoversAttempts(Do(env, n, s), attempts + Attempted(env, n, s))
    ensures forall a <- attempts, b <- Attempted(env, n, s) ::
              a.complete && a.cs.source == b.cs.source && a.cs.source != n.id ==> a.cs.seqNo < b.cs.seqNo
  {
  }

  /** No double acceptance, restarts and failed writes included: once a peer's changeset is completely
      accepted, every changeset of that peer the node processes later has a greater number. */
  lemma {:induction false} NoDoubleAcceptance(env: Env, id: string, steps: seq<Step>)
    ensures Run(env, FreshNode(id), steps).id == id
    ensures CoversAttempts(Run(env, FreshNode(id), steps), Attempts(env, FreshNode(id), steps))
    ensures NoneRepeated(id, Attempts(env, FreshNode(id), steps))
  {
    if steps != [] {
      var k := |steps| - 1;
      NoDoubleAcceptance(env, id, steps[..k]);
      var before := Run(env, FreshNode(id), steps[..k]);
      var earlier := Attempts(env, FreshNode(id), steps[..k]);
      StepCoversAttempts(env, before, steps[k], earlier);
      var all := earlier + Attempted(env, before, steps[k]);
      forall i, j | 0 <= i < j < |all| && all[i].complete && all[i].cs.source == all[j].cs.source != id
        ensures all[i].cs.seqNo < all[j].cs.seqNo
      {
        assert all[i] == earlier[i];
        if j == |earlier| {
          assert all[i] in earlier && all[j] in Attempted(env, before, steps[k]);
        } else {
          assert all[j] == earlier[j];
        }
      }
    }
  }

  /** What vector and table record of a peer is the number of a changeset completely accepted from it. */
  ghost predicate SeenIsAttempted(n: Node, attempts: seq<Attempt>, source: string) {
    && (Seen(n.vv, source) == 0 || CompletedAt(attempts, source, Seen(n.vv, source)))
    && (Seen(n.versions, source) == 0 || CompletedAt(attempts, source, Seen(n.versions, source)))
  }

  ghost predicate CompletedAt(attempts: seq<Attempt>, source: string, seqNo: nat) {
    exists a <- attempts :: a.complete && a.cs.source == source && a.cs.seqNo == seqNo
  }

  lemma {:induction false} CompletedStays(attempts: seq<Attempt>, more: seq<Attempt>, source: string, seqNo: nat)
    ensures CompletedAt(attempts, source, seqNo) ==> CompletedAt(attempts + more, source, seqNo)
    ensures CompletedAt(more, source, seqNo) ==> CompletedAt(attempts + more, source, seqNo)
  {
    assert forall a <- attempts :: a in attempts + more;
    assert forall a <- more :: a in attempts + more;
  }

  lemma {:induction false} StepSeenIsAttempted(env: Env, n: Node, s: Step, attempts: seq<Attempt>, source: string)
    requires SeenIsAttempted(n, attempts, source) && source != n.id
    ensures SeenIsAttempted(Do(env, n, s), attempts + Attempted(env, n, s), source)
  {
    var more := Attempted(env, n, s);
    CompletedStays(attempts, more, source, Seen(n.vv, source));
    CompletedStays(attempts, more, source, Seen(n.versions, source));
    if s.Deliver? && more != [] && more[0].complete && s.cs.source == source {
      assert more[0] in more && CompletedAt(more, source, s.cs.seqNo);
      CompletedStays(attempts, more, source, s.cs.seqNo);
    }
  }

  lemma {:induction false} SeenIsAlwaysAttempted(env: Env, id: string, steps: seq<Step>, source: string)
    requires source != id
    ensures SeenIsAttempted(Run(env, FreshNode(id), steps), Attempts(env, FreshNode(id), steps), source)
  {
    if steps != [] {
      var k := |steps| - 1;
      SeenIsAlwaysAttempted(env, id, steps[..k], source);
      NoDoubleAcceptance(env, id, steps[..k]);
      StepSeenIsAttempted(env, Run(env, FreshNode(id), steps[..k]), steps[k], Attempts(env, FreshNode(id), steps[..k]),
                          source);
    }
  }

  /** Exactly what a node takes up: in every reachable state, a changeset of another node is processed if and
      only if it passes the checksum and its number exceeds those of all changesets accepted from that node. */
  lemma {:induction false} TakenUpIff(env: Env, id: string, steps: seq<Step>, cs: ChangeSet)
    requires cs.source != id
    ensures Attempted(env, Run(env, FreshNode(id), steps), Deliver(cs)) != [] <==>
            && Verify(env, cs) && cs.seqNo > 0
            && forall a <- Attempts(env, FreshNode(id), steps) ::
                 a.complete && a.cs.source == cs.source ==> a.cs.seqNo < cs.seqNo
  {
    NoDoubleAcceptance(env, id, steps);
    SeenIsAlwaysAttempted(env, id, steps, cs.source);
  }

  // ----- refinement over runs -----------------------------------------------------------

  lemma {:induction false} ProcessedConcat(a: seq<Attempt>, b: seq<Attempt>)
    ensures Processed(a + b) == Processed(a) + Processed(b)
  {
    if a == [] {
      assert a + b == b;
    } else {
      assert (a + b)[1..] == a[1..] + b;
      ProcessedConcat(a[1..], b);
    }
  }

  lemma PrefixRegular(env: Env, cs: ChangeSet, upto: nat)
    requires AllRegular(env, cs.changes)
    ensures AllRegular(env, Prefix(cs, upto))
  {
  }

  lemma {:induction false} TornOne(env: Env, s: Store, h: seq<Change>, c: Change)
    requires AllRegular(env, h) && Storable(c.timestamp) && RepresentsLww(s, h)
    ensures var after := if ShouldApply(s, c) then Torn(s, c) else s;
            RepresentsLww(after.(cache := map[]), h + [c])
  {
    LwwRefines(env, s, h, c, (if ShouldApply(s, c) then Torn(s, c) else s).(cache := map[]));
  }

  /** A crash inside a change leaves the LWW table of one that processed the change. */
  lemma {:induction false} TornRefines(env: Env, s: Store, h: seq<Change>, cs: ChangeSet, upto: nat)
    requires AllRegular(env, h) && AllRegular(env, cs.changes) && RepresentsLww(s, h)
    ensures AllRegular(env, h + Prefix(cs, upto + 1))
    ensures RepresentsLww(TornStore(env, s, cs, upto).(cache := map[]), h + Prefix(cs, upto + 1))
  {
    PrefixRegular(env, cs, upto);
    ProcessRefines(env, s, h, Prefix(cs, upto));
    var before := Process(env, s, Prefix(cs, upto)).store;
    if upto < |cs.changes| {
      var c := cs.changes[upto];
      assert Regular(env, c);
      assert h + Prefix(cs, upto + 1) == (h + Prefix(cs, upto)) + [c];
      TornOne(env, before, h + Prefix(cs, upto), c);
    } else {
      assert Prefix(cs, upto + 1) == Prefix(cs, upto);
    }
  }

  /** So does processing changes, with or without the cache; it writes their rows as well. */
  lemma {:induction false} PrefixRefines(env: Env, s: Store, h: seq<Change>, changes: seq<Change>)
    requires AllRegular(env, h) && AllRegular(env, changes) && RepresentsLww(s, h)
    ensures var after := Process(env, s, changes).store;
            && AllRegular(env, h + changes)
            && RepresentsLww(after, h + changes) && RepresentsLww(after.(cache := map[]), h + changes)
            && (RepresentsRows(env, s, h) ==> RepresentsRows(env, after, h + changes))
  {
    ProcessRefines(env, s, h, changes);
  }

  lemma {:induction false} StepRefines(env: Env, n: Node, s: Step, h: seq<Change>)
    requires AllRegular(env, h) && RegularStep(env, s) && RepresentsLww(n.store, h)
    ensures AllRegular(env, h + Processed(Attempted(env, n, s)))
    ensures RepresentsLww(Do(env, n, s).store, h + Processed(Attempted(env, n, s)))
    ensures RepresentsRows(env, n.store, h) && !s.DeliverTorn? ==>
              RepresentsRows(env, Do(env, n, s).store, h + Processed(Attempted(env, n, s)))
  {
    var at := Attempted(env, n, s);
    if at == [] {
      QuietStep(env, n, s);
      assert h + Processed(at) == h;
    } else {
      var changes := Prefix(at[0].cs, at[0].upto);
      assert at[1..] == [];
      assert Processed(at) == changes + [];
      assert changes + [] == changes;
      assert h + Processed(at) == h + changes;
      PrefixRegular(env, at[0].cs, at[0].upto);
      AttemptRefines(env, n, s, h);
    }
  }

  /** A step that attempts nothing leaves the tables alone. */
  lemma {:induction false} QuietStep(env: Env, n: Node, s: Step)
    requires Attempted(env, n, s) == []
    ensures Do(env, n, s).store == n.store || Do(env, n, s).store == n.store.(cache := map[])
  {
  }

  lemma {:induction false} AttemptRefines(env: Env, n: Node, s: Step, h: seq<Change>)
    requires AllRegular(env, h) && RegularStep(env, s) && RepresentsLww(n.store, h) && Attempted(env, n, s) != []
    ensures var a := Attempted(env, n, s)[0];
            && RepresentsLww(Do(env, n, s).store, h + Prefix(a.cs, a.upto))
            && (RepresentsRows(env, n.store, h) && !s.DeliverTorn? ==>
                  RepresentsRows(env, Do(env, n, s).store, h + Prefix(a.cs, a.upto)))
  {
    if s.DeliverTorn? {
      TornRefines(env, n.store, h, s.cs, s.upto);
    } else {
      var a := Attempted(env, n, s)[0];
      assert s.Deliver? ==> Prefix(a.cs, a.upto) == s.cs.changes;
      PrefixRegular(env, a.cs, a.upto);
      PrefixRefines(env, n.store, h, Prefix(a.cs, a.upto));
    }
  }

  /** After any run of deliveries, crashes, restarts and local work, the LWW table is exactly what the
      processed changes dictate, key by key; and unless a crash fell inside a change, so are the live rows. */
  lemma {:induction false} RunRefines(env: Env, id: string, steps: seq<Step>)
    requires forall s <- steps :: RegularStep(env, s)
    ensures AllRegular(env, Processed(Attempts(env, FreshNode(id), steps)))
    ensures RepresentsLww(Run(env, FreshNode(id), steps).store, Processed(Attempts(env, FreshNode(id), steps)))
    ensures Untorn(steps) ==>
              RepresentsRows(env, Run(env, FreshNode(id), steps).store, Processed(Attempts(env, FreshNode(id), steps)))
  {
    if steps != [] {
      var k := |steps| - 1;
      RunRefines(env, id, steps[..k]);
      var before := Run(env, FreshNode(id), steps[..k]);
      var at := Attempts(env, FreshNode(id), steps[..k]);
      assert RegularStep(env, steps[k]);
      StepRefines(env, before, steps[k], Processed(at));
      ProcessedConcat(at, Attempted(env, before, steps[k]));
    }
  }

  /** The same, without the winner: a key is stored exactly when some processed change bears it, and
      whichever position of the history decides a key gives its stored timestamp and its live row. */
  lemma {:induction false} RunIsDeclarative(env: Env, id: string, steps: seq<Step>, pk: string, i: nat)
    requires forall s <- steps :: RegularStep(env, s)
    ensures var h, s := Processed(Attempts(env, FreshNode(id), steps)), Run(env, FreshNode(id), steps).store;
            var key := Key("backends", pk);
            && (key in s.lww <==> exists c <- h :: KeyOf(c) == key)
            && (Decides(h, key, i) ==> ReadLww(s.lww, key) == Some(h[i].timestamp))
            && (Untorn(steps) ==>
                  && (key !in s.lww ==> LiveRow(s.backends, pk) == None)
                  && (Decides(h, key, i) ==> LiveRow(s.backends, pk) == Effect(env, h[i])))
  {
    var h, s := Processed(Attempts(env, FreshNode(id), steps)), Run(env, FreshNode(id), steps).store;
    var key := Key("backends", pk);
    RunRefines(env, id, steps);
    NoWinner(h, key);
    assert Untorn(steps) ==> LiveRow(s.backends, pk) == Dictated(env, h, pk);
    if Decides(h, key, i) {
      DecidingIsWinner(h, key, i);
      assert h[i] in h;
    }
  }
}
