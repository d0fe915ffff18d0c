/** Replicas that accept the same changesets end with the same tables, in whatever order the sources
    interleave, however often changesets are redelivered, and through crashes and restarts. */
module Convergence {
  import opened Common
  import opened ReplicationTypes
  import opened LwwStore
  import opened SyncNode
  import opened SequenceNumbers

  // ----- attempts per source ------------------------------------------------------------

  function BySource(attempts: seq<Attempt>, source: string): seq<Attempt> {
    if attempts == [] then []
    else (if attempts[0].cs.source == source then [attempts[0]] else []) + BySource(attempts[1..], source)
  }

  function Completed(attempts: seq<Attempt>): seq<ChangeSet> {
    if attempts == [] then []
    else (if attempts[0].complete then [attempts[0].cs] else []) + Completed(attempts[1..])
  }

  function AllChanges(sets: seq<ChangeSet>): seq<Change> {
    if sets == [] then [] else sets[0].changes + AllChanges(sets[1..])
  }

  /** Every interrupted attempt of a source is followed, in that source's order, by another attempt at
      the same changeset. */
  ghost predicate Retried(attempts: seq<Attempt>) {
    forall i :: 0 <= i < |attempts| && !attempts[i].complete ==>
      i + 1 < |attempts| && attempts[i + 1].cs == attempts[i].cs
  }

  ghost predicate WholeWhenComplete(attempts: seq<Attempt>) {
    forall a <- attempts :: a.complete ==> a.upto == |a.cs.changes|
  }

  ghost predicate AttemptsStamped(env: Env, attempts: seq<Attempt>) {
    forall a <- attempts :: Stamped(env, a.cs)
  }

  // ----- retries are absorbed -----------------------------------------------------------

  lemma {:induction false} RetriedTail(attempts: seq<Attempt>)
    requires attempts != [] && Retried(attempts)
    ensures Retried(attempts[1..])
  {
    var t := attempts[1..];
    forall i | 0 <= i < |t| && !t[i].complete ensures i + 1 < |t| && t[i + 1].cs == t[i].cs {
      assert t[i] == attempts[i + 1];
    }
  }

  lemma {:induction false} RetriedCompletesFirst(attempts: seq<Attempt>)
    requires attempts != [] && Retried(attempts)
    ensures Completed(attempts) != [] && Completed(attempts)[0] == attempts[0].cs
  {
    if !attempts[0].complete {
      RetriedTail(attempts);
      RetriedCompletesFirst(attempts[1..]);
    }
  }

  /** Processing a prefix of a list before the list itself changes no winner. */
  lemma {:induction false} PrefixAbsorbed(p: seq<Change>, q: seq<Change>, rest: seq<Change>, key: string)
    ensures Winner(p + (p + q + rest), key) == Winner(p + q + rest, key)
  {
    WinnerConcat(p, p + q + rest, key);
    assert p + q + rest == p + (q + rest);
    WinnerConcat(p, q + rest, key);
  }

  lemma {:induction false} WinnerAfter(h: seq<Change>, c: Change, key: string)
    ensures Winner(h + [c], key) == Later(Winner(h, key), if KeyOf(c) == key then Some(c) else None)
  {
    assert (h + [c])[..|h|] == h;
  }

  lemma {:induction false} InterruptedAbsorbed(cs: ChangeSet, upto: nat, sets: seq<ChangeSet>, key: string)
    requires sets != [] && sets[0] == cs
    ensures Winner(Prefix(cs, upto) + AllChanges(sets), key) == Winner(AllChanges(sets), key)
  {
    var p := Prefix(cs, upto);
    var q := cs.changes[|p|..];
    assert cs.changes == p + q;
    PrefixAbsorbed(p, q, AllChanges(sets[1..]), key);
  }

  /** Interrupted attempts that are retried leave no trace in the winners of a source. */
  lemma {:induction false} RetriesAbsorbed(attempts: seq<Attempt>, key: string)
    requires Retried(attempts) && WholeWhenComplete(attempts)
    ensures Winner(Processed(attempts), key) == Winner(AllChanges(Completed(attempts)), key)
  {
    if attempts != [] {
      var a, rest := attempts[0], attempts[1..];
      RetriedTail(attempts);
      RetriesAbsorbed(rest, key);
      var p := Prefix(a.cs, a.upto);
      WinnerConcat(p, Processed(rest), key);
      WinnerConcat(p, AllChanges(Completed(rest)), key);
      if a.complete {
        assert p == a.cs.changes;
        assert Completed(attempts) == [a.cs] + Completed(rest);
      } else {
        RetriedCompletesFirst(rest);
        assert Completed(attempts) == Completed(rest);
        InterruptedAbsorbed(a.cs, a.upto, Completed(rest), key);
      }
    }
  }

  // ----- a winner is a winner among its source's changes --------------------------------

  function WithHash(h: seq<Change>, hash: U32): (r: seq<Change>)
    ensures forall c <- r :: c in h
  {
    if h == [] then []
    else WithHash(h[..|h| - 1], hash)
         + if h[|h| - 1].timestamp.nodeHash == hash then [h[|h| - 1]] else []
  }

  lemma {:induction false} WithHashConcat(a: seq<Change>, b: seq<Change>, hash: U32)
    ensures WithHash(a + b, hash) == WithHash(a, hash) + WithHash(b, hash)
  {
    if b == [] {
      assert a + b == a;
    } else {
      var n := |b| - 1;
      assert (a + b)[..|a + b| - 1] == a + b[..n];
      WithHashConcat(a, b[..n], hash);
    }
  }

  lemma {:induction false} WithHashUniform(h: seq<Change>, hash: U32, own: U32)
    requires forall c <- h :: c.timestamp.nodeHash == own
    ensures WithHash(h, hash) == if own == hash then h else []
  {
    if h != [] {
      WithHashUniform(h[..|h| - 1], hash, own);
    }
  }

  lemma {:induction false} WinnerIsGreatest(h: seq<Change>, c: Change)
    requires c in h
    ensures Winner(h, KeyOf(c)).Some? && c.timestamp.AtMost(Winner(h, KeyOf(c)).value.timestamp)
  {
    NoWinner(h, KeyOf(c));
    WinnerDecides(h, KeyOf(c));
  }

  lemma {:induction false} WinnerAmongItsHash(h: seq<Change>, key: string)
    requires Winner(h, key).Some?
    ensures Winner(WithHash(h, Winner(h, key).value.timestamp.nodeHash), key) == Winner(h, key)
  {
    var n := |h| - 1;
    var w := Winner(h, key).value;
    var hash := w.timestamp.nodeHash;
    var front := WithHash(h[..n], hash);
    WinnerAfter(front, h[n], key);
    assert front + [] == front;
    if Winner(h[..n], key) == Some(w) {
      WinnerAmongItsHash(h[..n], key);
    } else if Winner(front, key).Some? {
      WinnerIsGreatest(h[..n], Winner(front, key).value);
    }
  }

  /** Filtering the processed changes by a source's hash is filtering the attempts by the source. */
  lemma {:induction false} HashSelectsSource(env: Env, attempts: seq<Attempt>, source: string)
    requires AttemptsStamped(env, attempts)
    requires forall a <- attempts :: env.nodeHash(a.cs.source) == env.nodeHash(source) ==> a.cs.source == source
    ensures WithHash(Processed(attempts), env.nodeHash(source)) == Processed(BySource(attempts, source))
  {
    if attempts != [] {
      var a, rest := attempts[0], attempts[1..];
      var p := Prefix(a.cs, a.upto);
      HashSelectsSource(env, rest, source);
      WithHashConcat(p, Processed(rest), env.nodeHash(source));
      assert Stamped(env, a.cs);
      WithHashUniform(p, env.nodeHash(source), env.nodeHash(a.cs.source));
      assert BySource(attempts, source) == (if a.cs.source == source then [a] else []) + BySource(rest, source);
      ProcessedConcat(if a.cs.source == source then [a] else [], BySource(rest, source));
      assert Processed([a]) == p + [] == p;
    }
  }

  lemma {:induction false} ProcessedComesFrom(attempts: seq<Attempt>, c: Change)
    requires c in Processed(attempts)
    ensures exists a <- attempts :: c in a.cs.changes
  {
    var p := Prefix(attempts[0].cs, attempts[0].upto);
    if c !in p {
      ProcessedComesFrom(attempts[1..], c);
    }
  }

  lemma {:induction false} BySourceKeeps(attempts: seq<Attempt>, source: string)
    ensures forall a :: a in BySource(attempts, source) <==> a in attempts && a.cs.source == source
  {
    if attempts != [] {
      BySourceKeeps(attempts[1..], source);
      assert forall a :: a in attempts <==> a == attempts[0] || a in attempts[1..];
    }
  }

  lemma {:induction false} BySourceEmpty(attempts: seq<Attempt>, source: string)
    requires forall a <- attempts :: a.cs.source != source
    ensures BySource(attempts, source) == []
  {
    if attempts != [] {
      BySourceEmpty(attempts[1..], source);
    }
  }

  // ----- convergence --------------------------------------------------------------------

  /** Two attempt lists that completed the same changesets per source, retrying what was interrupted. */
  ghost predicate SamePerSource(a1: seq<Attempt>, a2: seq<Attempt>) {
    forall source ::
      && Retried(BySource(a1, source)) && Retried(BySource(a2, source))
      && Completed(BySource(a1, source)) == Completed(BySource(a2, source))
  }

  /** Distinct sources have distinct hashes. */
  ghost predicate HashesDistinct(env: Env, attempts: seq<Attempt>) {
    forall a <- attempts, b <- attempts ::
      env.nodeHash(a.cs.source) == env.nodeHash(b.cs.source) ==> a.cs.source == b.cs.source
  }

  lemma {:induction false} SourceWinnersAgree(a1: seq<Attempt>, a2: seq<Attempt>, source: string, key: string)
    requires WholeWhenComplete(a1) && WholeWhenComplete(a2) && SamePerSource(a1, a2)
    ensures Winner(Processed(BySource(a1, source)), key) == Winner(Processed(BySource(a2, source)), key)
  {
    BySourceKeeps(a1, source);
    BySourceKeeps(a2, source);
    RetriesAbsorbed(BySource(a1, source), key);
    RetriesAbsorbed(BySource(a2, source), key);
  }

  /** The winner of one list is bounded by the winner of the other, and is the other's winner
      among the changes of its source. */
  lemma {:induction false} WinnerCarriesOver(env: Env, a1: seq<Attempt>, a2: seq<Attempt>,
      key: string) returns (w: Change)
    requires AttemptsStamped(env, a1) && AttemptsStamped(env, a2) && HashesDistinct(env, a1 + a2)
    requires WholeWhenComplete(a1) && WholeWhenComplete(a2) && SamePerSource(a1, a2)
    requires Winner(Processed(a1), key).Some?
    ensures w == Winner(Processed(a1), key).value
    ensures Winner(WithHash(Processed(a2), w.timestamp.nodeHash), key) == Some(w)
    ensures Winner(Processed(a2), key).Some? && w.timestamp.AtMost(Winner(Processed(a2), key).value.timestamp)
  {
    w := Winner(Processed(a1), key).value;
    ProcessedComesFrom(a1, w);
    var a :| a in a1 && w in a.cs.changes;
    var source := a.cs.source;
    assert Stamped(env, a.cs);
    forall b | b in a1 || b in a2
      ensures env.nodeHash(b.cs.source) == env.nodeHash(source) ==> b.cs.source == source
    {
      assert a in a1 + a2 && b in a1 + a2;
    }
    HashSelectsSource(env, a1, source);
    HashSelectsSource(env, a2, source);
    WinnerAmongItsHash(Processed(a1), key);
    SourceWinnersAgree(a1, a2, source, key);
    WinnerIsGreatest(Processed(a2), w);
  }

  lemma {:induction false} WinnersAgree(env: Env, a1: seq<Attempt>, a2: seq<Attempt>, key: string)
    requires AttemptsStamped(env, a1) && AttemptsStamped(env, a2) && HashesDistinct(env, a1 + a2)
    requires WholeWhenComplete(a1) && WholeWhenComplete(a2) && SamePerSource(a1, a2)
    ensures Winner(Processed(a1), key) == Winner(Processed(a2), key)
  {
    assert HashesDistinct(env, a2 + a1) by {
      assert forall a :: a in a2 + a1 <==> a in a1 + a2;
    }
    assert SamePerSource(a2, a1);
    if Winner(Processed(a1), key).Some? {
      var w1 := WinnerCarriesOver(env, a1, a2, key);
      var w2 := WinnerCarriesOver(env, a2, a1, key);
      assert w1.timestamp == w2.timestamp;
      WinnerAmongItsHash(Processed(a2), key);
    } else if Winner(Processed(a2), key).Some? {
      var w2 := WinnerCarriesOver(env, a2, a1, key);
    }
  }

  lemma {:induction false} AttemptsAreWhole(env: Env, n: Node, steps: seq<Step>)
    ensures WholeWhenComplete(Attempts(env, n, steps))
  {
    if steps != [] {
      AttemptsAreWhole(env, n, steps[..|steps| - 1]);
    }
  }

  /** Convergence, per-source form. The nodes may record, flush, crash and restart as they please. */
  lemma {:induction false} ConvergePerSource(env: Env, id1: string, steps1: seq<Step>, id2: string, steps2: seq<Step>)
    requires forall s <- steps1 :: RegularStep(env, s)
    requires forall s <- steps2 :: RegularStep(env, s)
    requires var a1, a2 := Attempts(env, FreshNode(id1), steps1), Attempts(env, FreshNode(id2), steps2);
             && AttemptsStamped(env, a1) && AttemptsStamped(env, a2)
             && HashesDistinct(env, a1 + a2) && SamePerSource(a1, a2)
    ensures var n1, n2 := Run(env, FreshNode(id1), steps1), Run(env, FreshNode(id2), steps2);
            && n1.store.lww == n2.store.lww
            && (Untorn(steps1) && Untorn(steps2) ==> Live(n1.store.backends) == Live(n2.store.backends))
  {
    var a1, a2 := Attempts(env, FreshNode(id1), steps1), Attempts(env, FreshNode(id2), steps2);
    AttemptsAreWhole(env, FreshNode(id1), steps1);
    AttemptsAreWhole(env, FreshNode(id2), steps2);
    RunRefines(env, id1, steps1);
    RunRefines(env, id2, steps2);
    forall key ensures Winner(Processed(a1), key) == Winner(Processed(a2), key) {
      WinnersAgree(env, a1, a2, key);
    }
    SameWinnersSameTables(env, Run(env, FreshNode(id1), steps1).store, Processed(a1),
                          Run(env, FreshNode(id2), steps2).store, Processed(a2));
  }

  // ----- the order within a source comes for free ---------------------------------------

  ghost predicate Increasing(sets: seq<ChangeSet>) {
    forall i, j :: 0 <= i < j < |sets| ==> sets[i].seqNo < sets[j].seqNo
  }

  lemma {:induction false} IncreasingDetermined(s1: seq<ChangeSet>, s2: seq<ChangeSet>)
    requires Increasing(s1) && Increasing(s2)
    requires forall cs :: cs in s1 <==> cs in s2
    ensures s1 == s2
  {
    assert s2 != [] ==> s2[0] in s2;
    if s1 != [] {
      assert s1[0] in s2;
      var m, n := |s1| - 1, |s2| - 1;
      assert s1[m] in s2 && s2[n] in s1;
      var i :| 0 <= i < |s2| && s2[i] == s1[m];
      var j :| 0 <= j < |s1| && s1[j] == s2[n];
      assert s1[m] == s2[n];
      forall cs ensures cs in s1[..m] <==> cs in s2[..n] {
        assert cs in s1 <==> cs in s1[..m] || cs == s1[m];
        assert cs in s2 <==> cs in s2[..n] || cs == s2[n];
        assert s1[m] !in s1[..m] && s2[n] !in s2[..n];
      }
      IncreasingDetermined(s1[..m], s2[..n]);
    }
  }

  lemma {:induction false} CompletedMembers(attempts: seq<Attempt>, source: string, cs: ChangeSet)
    ensures cs in Completed(BySource(attempts, source)) <==>
            cs.source == source && exists a <- attempts :: a.complete && a.cs == cs
  {
    if attempts != [] {
      var a, rest := attempts[0], attempts[1..];
      CompletedMembers(rest, source, cs);
      CompletedHead(attempts, source);
      assert forall b :: b in attempts <==> b == a || b in rest;
    }
  }

  lemma {:induction false} CompletedHead(attempts: seq<Attempt>, source: string)
    requires attempts != []
    ensures Completed(BySource(attempts, source))
         == (if attempts[0].cs.source == source && attempts[0].complete then [attempts[0].cs] else [])
            + Completed(BySource(attempts[1..], source))
  {
    var a, rest := attempts[0], attempts[1..];
    if a.cs.source == source {
      assert BySource(attempts, source) == [a] + BySource(rest, source);
    } else {
      assert BySource(attempts, source) == BySource(rest, source);
    }
  }

  lemma {:induction false} CompletedIncreases(id: string, attempts: seq<Attempt>, source: string)
    requires NoneRepeated(id, attempts) && source != id
    ensures Increasing(Completed(BySource(attempts, source)))
  {
    if attempts != [] {
      var a, rest := attempts[0], attempts[1..];
      CompletedIncreases(id, rest, source);
      CompletedHead(attempts, source);
      var tail := Completed(BySource(rest, source));
      if a.cs.source == source && a.complete {
        forall cs | cs in tail ensures a.cs.seqNo < cs.seqNo {
          CompletedMembers(rest, source, cs);
          var b :| b in rest && b.complete && b.cs == cs;
          var j :| 0 <= j < |rest| && rest[j] == b;
          assert attempts[j + 1] == b;
        }
      }
    }
  }

  /** The changesets a list of attempts completed. */
  ghost function CompletedSets(attempts: seq<Attempt>): set<ChangeSet> {
    set a | a in attempts && a.complete :: a.cs
  }

  lemma {:induction false} SameMembers(a1: seq<Attempt>, a2: seq<Attempt>, source: string)
    requires CompletedSets(a1) == CompletedSets(a2)
    ensures forall cs :: cs in Completed(BySource(a1, source)) <==> cs in Completed(BySource(a2, source))
  {
    forall cs ensures cs in Completed(BySource(a1, source)) <==> cs in Completed(BySource(a2, source)) {
      CompletedMembers(a1, source, cs);
      CompletedMembers(a2, source, cs);
      assert cs in CompletedSets(a1) <==> cs in CompletedSets(a2);
    }
  }

  lemma {:induction false} SameSetsSamePerSource(id1: string, a1: seq<Attempt>, id2: string, a2: seq<Attempt>)
    requires NoneRepeated(id1, a1) && NoneRepeated(id2, a2)
    requires forall a <- a1 + a2 :: a.cs.source != id1 && a.cs.source != id2
    requires CompletedSets(a1) == CompletedSets(a2)
    requires forall source :: Retried(BySource(a1, source)) && Retried(BySource(a2, source))
    ensures SamePerSource(a1, a2)
  {
    forall source ensures Completed(BySource(a1, source)) == Completed(BySource(a2, source)) {
      if source == id1 || source == id2 {
        assert forall a <- a1 :: a in a1 + a2;
        assert forall a <- a2 :: a in a1 + a2;
        BySourceEmpty(a1, source);
        BySourceEmpty(a2, source);
      } else {
        CompletedIncreases(id1, a1, source);
        CompletedIncreases(id2, a2, source);
        SameMembers(a1, a2, source);
        IncreasingDetermined(Completed(BySource(a1, source)), Completed(BySource(a2, source)));
      }
    }
  }

  /** Convergence. Two receivers that completed the same changesets of other nodes, and retried what a
      crash interrupted, hold the same LWW table and, unless a crash fell inside a change, the same live
      rows; `TornThenRedeliver` says what a crash inside a change does to a row. */
  lemma {:induction false} Converge(env: Env, id1: string, steps1: seq<Step>, id2: string, steps2: seq<Step>)
    requires forall s <- steps1 :: RegularStep(env, s)
    requires forall s <- steps2 :: RegularStep(env, s)
    requires var a1, a2 := Attempts(env, FreshNode(id1), steps1), Attempts(env, FreshNode(id2), steps2);
             && AttemptsStamped(env, a1) && AttemptsStamped(env, a2) && HashesDistinct(env, a1 + a2)
             && (forall a <- a1 + a2 :: a.cs.source != id1 && a.cs.source != id2)
             && (forall source :: Retried(BySource(a1, source)) && Retried(BySource(a2, source)))
             && CompletedSets(a1) == CompletedSets(a2)
    ensures var n1, n2 := Run(env, FreshNode(id1), steps1), Run(env, FreshNode(id2), steps2);
            && n1.store.lww == n2.store.lww
            && (Untorn(steps1) && Untorn(steps2) ==> Live(n1.store.backends) == Live(n2.store.backends))
  {
    NoDoubleAcceptance(env, id1, steps1);
    NoDoubleAcceptance(env, id2, steps2);
    SameSetsSamePerSource(id1, Attempts(env, FreshNode(id1), steps1), id2, Attempts(env, FreshNode(id2), steps2));
    ConvergePerSource(env, id1, steps1, id2, steps2);
  }

  // ----- a cluster ----------------------------------------------------------------------

  /** A changeset that its source sent in its own run. */
  ghost predicate FromPeers(env: Env, peers: map<string, seq<Step>>, cs: ChangeSet) {
    cs.source in peers && cs in AllSent(env, FreshNode(cs.source), peers[cs.source])
  }

  lemma {:induction false} AttemptsFromPeers(env: Env, peers: map<string, seq<Step>>, n: Node, steps: seq<Step>)
    requires forall s <- steps :: Delivers(s) && Verify(env, s.cs) ==> FromPeers(env, peers, s.cs)
    ensures forall a <- Attempts(env, n, steps) :: FromPeers(env, peers, a.cs)
  {
    if steps != [] {
      var k := |steps| - 1;
      AttemptsFromPeers(env, peers, n, steps[..k]);
      assert Delivers(steps[k]) && Verify(env, steps[k].cs) ==> FromPeers(env, peers, steps[k].cs);
    }
  }

  /** Numbers identify changesets: a peer whose restarts are covered never sends two under one number. */
  lemma {:induction false} NumberIdentifies(env: Env, peers: map<string, seq<Step>>, cs: ChangeSet, ds: ChangeSet)
    requires FromPeers(env, peers, cs) && FromPeers(env, peers, ds)
    requires cs.source == ds.source && cs.seqNo == ds.seqNo
    requires CoveredAtRestarts(env, FreshNode(cs.source), peers[cs.source])
    ensures cs == ds
  {
    var sent := AllSent(env, FreshNode(cs.source), peers[cs.source]);
    NumbersIncreaseIff(env, cs.source, peers[cs.source]);
    var i :| 0 <= i < |sent| && sent[i] == cs;
    var j :| 0 <= j < |sent| && sent[j] == ds;
    assert i == j;
  }

  ghost function CompletedNumbers(attempts: seq<Attempt>): set<(string, nat)> {
    set a | a in attempts && a.complete :: (a.cs.source, a.cs.seqNo)
  }

  lemma {:induction false} SameNumbersSameSets(env: Env, peers: map<string, seq<Step>>, a1: seq<Attempt>,
      a2: seq<Attempt>)
    requires forall id <- peers :: CoveredAtRestarts(env, FreshNode(id), peers[id])
    requires forall a <- a1 :: FromPeers(env, peers, a.cs)
    requires forall a <- a2 :: FromPeers(env, peers, a.cs)
    requires CompletedNumbers(a1) <= CompletedNumbers(a2)
    ensures CompletedSets(a1) <= CompletedSets(a2)
  {
    forall cs | cs in CompletedSets(a1) ensures cs in CompletedSets(a2) {
      var a :| a in a1 && a.complete && a.cs == cs;
      assert (cs.source, cs.seqNo) in CompletedNumbers(a1);
      var b :| b in a2 && b.complete && (b.cs.source, b.cs.seqNo) == (cs.source, cs.seqNo);
      NumberIdentifies(env, peers, cs, b.cs);
    }
  }

  /** What the run of a receiver must satisfy: its deliveries come from the peers and are regular, it is
      none of them, and it retries what a crash interrupts. */
  ghost predicate Receiver(env: Env, peers: map<string, seq<Step>>, id: string, steps: seq<Step>) {
    && id !in peers
    && (forall s <- steps :: RegularStep(env, s))
    && (forall s <- steps :: Delivers(s) && Verify(env, s.cs) ==> FromPeers(env, peers, s.cs))
    && (forall source :: Retried(BySource(Attempts(env, FreshNode(id), steps), source)))
  }

  /** Convergence in a cluster. Peers record, flush, crash and restart as they please, as long as they do not
      reuse numbers and their hashes differ. Any two receivers that completed the same numbers of the
      same peers hold the same LWW table and, unless a crash fell inside a change, the same live rows. */
  lemma {:induction false} ClusterConverges(env: Env, peers: map<string, seq<Step>>, id1: string,
      steps1: seq<Step>, id2: string, steps2: seq<Step>)
    requires forall p <- peers, q <- peers :: env.nodeHash(p) == env.nodeHash(q) ==> p == q
    requires forall p <- peers :: CoveredAtRestarts(env, FreshNode(p), peers[p])
    requires Receiver(env, peers, id1, steps1) && Receiver(env, peers, id2, steps2)
    requires CompletedNumbers(Attempts(env, FreshNode(id1), steps1))
          == CompletedNumbers(Attempts(env, FreshNode(id2), steps2))
    ensures var n1, n2 := Run(env, FreshNode(id1), steps1), Run(env, FreshNode(id2), steps2);
            && n1.store.lww == n2.store.lww
            && (Untorn(steps1) && Untorn(steps2) ==> Live(n1.store.backends) == Live(n2.store.backends))
  {
    var a1, a2 := Attempts(env, FreshNode(id1), steps1), Attempts(env, FreshNode(id2), steps2);
    AttemptsFromPeers(env, peers, FreshNode(id1), steps1);
    AttemptsFromPeers(env, peers, FreshNode(id2), steps2);
    assert forall a <- a1 + a2 :: a in a1 || a in a2;
    forall a: Attempt | a in a1 + a2 ensures Stamped(env, a.cs) && a.cs.source in peers {
      SentAreStamped(env, a.cs.source, peers[a.cs.source]);
    }
    assert forall a <- a1 :: a in a1 + a2;
    assert forall a <- a2 :: a in a1 + a2;
    SameNumbersSameSets(env, peers, a1, a2);
    SameNumbersSameSets(env, peers, a2, a1);
    Converge(env, id1, steps1, id2, steps2);
  }
}
