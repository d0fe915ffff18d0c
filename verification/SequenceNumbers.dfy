/** Exactly when the numbers a node gives to its changesets are never reused. */
module SequenceNumbers {
  import opened ReplicationTypes
  import opened VersionVectors
  import opened SyncNode

  /** One write decides: around a restart, the next number is greater if the write of the last one
      succeeded, and the same if it failed. */
  lemma {:induction false} FailedPersistReuses(env: Env, n: Node, record: Step, persists: bool)
    requires Synced(n) && n.pending != [] && record.Record?
    ensures var sent := AllSent(env, n, [Flush(SENT, persists), Restarts, record, Flush(SENT, true)]);
            && |sent| == 2 && sent[0].source == sent[1].source
            && (sent[0].seqNo < sent[1].seqNo <==> persists)
            && (sent[0].seqNo == sent[1].seqNo <==> !persists)
  {
    var s1 := [Flush(SENT, persists)];
    var s2 := s1 + [Restarts];
    var s3 := s2 + [record];
    var s4 := s3 + [Flush(SENT, true)];
    assert s1[..0] == [] && s2[..1] == s1 && s3[..2] == s2 && s4[..3] == s3;
    assert s4 == [Flush(SENT, persists), Restarts, record, Flush(SENT, true)];
    var n1, n2, n3 := Run(env, n, s1), Run(env, n, s2), Run(env, n, s3);
    assert n1 == Do(env, n, Flush(SENT, persists)) && n2 == Do(env, n1, Restarts) && n3 == Do(env, n2, record);
    assert AllSent(env, n, s1) == Sent(env, n, Flush(SENT, persists));
    assert AllSent(env, n, s2) == AllSent(env, n, s1);
    assert AllSent(env, n, s3) == AllSent(env, n, s2);
    assert AllSent(env, n, s4) == AllSent(env, n, s3) + Sent(env, n3, Flush(SENT, true));
  }

  /** The step ends in a restart, so the counter is read back from the table. */
  predicate RestartsAt(n: Node, s: Step) {
    s.Restarts? || s.DeliverCrash? || s.DeliverTorn? || (s.Flush? && n.pending != [] && s.upto < SENT)
  }

  /** The length of the run up to and including its last restart, 0 if there is none. */
  ghost function LastRestart(env: Env, n: Node, steps: seq<Step>): (k: nat)
    ensures k <= |steps|
  {
    if steps == [] then 0
    else if RestartsAt(Run(env, n, steps[..|steps| - 1]), steps[|steps| - 1]) then |steps|
    else LastRestart(env, n, steps[..|steps| - 1])
  }

  /** The persisted number covers everything sent. */
  predicate TableCovers(n: Node, sent: seq<ChangeSet>) {
    forall cs <- sent :: cs.seqNo <= Seen(n.versions, n.id)
  }

  /** The run sends its last step's changeset in the same life as the restart that ends at k. */
  ghost predicate ResumesAt(env: Env, n: Node, steps: seq<Step>, k: nat, j: nat) {
    && 0 < k <= j < |steps| && k == LastRestart(env, n, steps[..j])
    && Sent(env, Run(env, n, steps[..j]), steps[j]) != []
  }

  /** Whenever a changeset is sent after a restart, the number persisted at that restart covers all that was
      sent before it. */
  ghost predicate CoveredAtRestarts(env: Env, n: Node, steps: seq<Step>) {
    forall k: nat, j: nat :: ResumesAt(env, n, steps, k, j) ==>
      TableCovers(Run(env, n, steps[..k]), AllSent(env, n, steps[..k]))
  }

  lemma CounterStep(env: Env, n: Node, s: Step)
    ensures |Sent(env, n, s)| <= 1 && Do(env, n, s).id == n.id
    ensures RestartsAt(n, s) ==> Sent(env, n, s) == []
    ensures RestartsAt(n, s) ==> Do(env, n, s).sequence == Seen(Do(env, n, s).versions, n.id)
    ensures !RestartsAt(n, s) ==> Do(env, n, s).sequence == n.sequence + |Sent(env, n, s)|
    ensures Sent(env, n, s) != [] ==> Sent(env, n, s)[0].seqNo == n.sequence + 1
  {
  }

  /** All that was sent is what had been sent at `base`, followed by numbers that run on from its counter. */
  ghost predicate RunsOn(base: Node, early: seq<ChangeSet>, counter: nat, all: seq<ChangeSet>) {
    && base.sequence == Seen(base.versions, base.id)
    && early <= all && counter == base.sequence + |all| - |early|
    && forall i :: |early| <= i < |all| ==> all[i].seqNo == base.sequence + 1 + i - |early|
  }

  /** Since the last restart the numbers run on from the counter without gaps. */
  lemma {:induction false} NumbersSinceRestart(env: Env, id: string, steps: seq<Step>)
    ensures var n := FreshNode(id);
            var k := LastRestart(env, n, steps);
            RunsOn(Run(env, n, steps[..k]), AllSent(env, n, steps[..k]), Run(env, n, steps).sequence,
                   AllSent(env, n, steps))
  {
    var n := FreshNode(id);
    if steps == [] {
      assert steps[..0] == [];
    } else {
      var m := |steps| - 1;
      var before, last := Run(env, n, steps[..m]), steps[m];
      var k := LastRestart(env, n, steps);
      CounterStep(env, before, last);
      if k == |steps| {
        assert steps[..k] == steps;
      } else {
        NumbersSinceRestart(env, id, steps[..m]);
        assert steps[..m][..k] == steps[..k];
        assert AllSent(env, n, steps) == AllSent(env, n, steps[..m]) + Sent(env, before, last);
      }
    }
  }

  lemma {:induction false} IncreaseByOne(sent: seq<ChangeSet>, cs: ChangeSet)
    ensures NumbersIncrease(sent + [cs]) <==> NumbersIncrease(sent) && forall ds <- sent :: ds.seqNo < cs.seqNo
  {
    var all := sent + [cs];
    assert forall i :: 0 <= i < |sent| ==> all[i] == sent[i];
    assert all[|sent|] == cs;
    if NumbersIncrease(all) {
      forall ds <- sent ensures ds.seqNo < cs.seqNo {
        var i :| 0 <= i < |sent| && sent[i] == ds;
        assert all[i].seqNo < all[|sent|].seqNo;
      }
    }
  }

  /** The next number exceeds all sent before exactly when the last restart was covered. */
  lemma {:induction false} CounterCoversIff(env: Env, id: string, steps: seq<Step>)
    requires NumbersIncrease(AllSent(env, FreshNode(id), steps))
    ensures var n := FreshNode(id);
            var k := LastRestart(env, n, steps);
            (forall cs <- AllSent(env, n, steps) :: cs.seqNo <= Run(env, n, steps).sequence) <==>
            TableCovers(Run(env, n, steps[..k]), AllSent(env, n, steps[..k]))
  {
    var n := FreshNode(id);
    var k := LastRestart(env, n, steps);
    NumbersSinceRestart(env, id, steps);
    var counter := Run(env, n, steps).sequence;
    RunsOnCovers(Run(env, n, steps[..k]), AllSent(env, n, steps[..k]), counter, AllSent(env, n, steps));
  }

  lemma {:induction false} RunsOnCovers(base: Node, early: seq<ChangeSet>, counter: nat, all: seq<ChangeSet>)
    requires RunsOn(base, early, counter, all) && NumbersIncrease(all)
    ensures (forall cs <- all :: cs.seqNo <= counter) <==> TableCovers(base, early)
  {
    assert all == early + all[|early|..];
    if |early| < |all| {
      forall cs <- early ensures cs.seqNo <= base.sequence {
        var i :| 0 <= i < |early| && early[i] == cs;
        assert all[i] == cs && all[i].seqNo < all[|early|].seqNo;
      }
      forall cs <- all ensures cs.seqNo <= counter {
        var i :| 0 <= i < |all| && all[i] == cs;
        assert i < |early| ==> early[i] == cs && cs in early;
      }
    } else {
      assert all == early;
    }
  }

  lemma {:induction false} CoveredUnfolds(env: Env, n: Node, steps: seq<Step>)
    requires steps != []
    ensures var m := |steps| - 1;
            var k := LastRestart(env, n, steps[..m]);
            CoveredAtRestarts(env, n, steps) <==>
              && CoveredAtRestarts(env, n, steps[..m])
              && (Sent(env, Run(env, n, steps[..m]), steps[m]) != [] && k > 0 ==>
                    TableCovers(Run(env, n, steps[..k]), AllSent(env, n, steps[..k])))
  {
    var m := |steps| - 1;
    var front := steps[..m];
    forall k: nat, j: nat | ResumesAt(env, n, front, k, j)
      ensures ResumesAt(env, n, steps, k, j) && front[..k] == steps[..k]
    {
      assert front[..j] == steps[..j];
    }
    forall k: nat, j: nat | ResumesAt(env, n, steps, k, j)
      ensures steps[..k] == front[..k]
      ensures j < m ==> ResumesAt(env, n, front, k, j)
      ensures j == m ==> k == LastRestart(env, n, front)
    {
      assert j < m ==> front[..j] == steps[..j];
    }
    var k := LastRestart(env, n, front);
    if Sent(env, Run(env, n, front), steps[m]) != [] && k > 0 {
      assert ResumesAt(env, n, steps, k, m);
    }
    if CoveredAtRestarts(env, n, steps) {
      forall k: nat, j: nat | ResumesAt(env, n, front, k, j)
        ensures TableCovers(Run(env, n, front[..k]), AllSent(env, n, front[..k]))
      {
        assert ResumesAt(env, n, steps, k, j);
      }
    }
  }

  /** A sending step keeps the numbers increasing exactly when the last restart before it was covered. */
  lemma {:induction false} SendingIncreasesIff(env: Env, id: string, front: seq<Step>, s: Step)
    requires Sent(env, Run(env, FreshNode(id), front), s) != []
    ensures var n := FreshNode(id);
            var k := LastRestart(env, n, front);
            NumbersIncrease(AllSent(env, n, front) + Sent(env, Run(env, n, front), s)) <==>
              && NumbersIncrease(AllSent(env, n, front))
              && (k > 0 ==> TableCovers(Run(env, n, front[..k]), AllSent(env, n, front[..k])))
  {
    var n := FreshNode(id);
    var before, sent := Run(env, n, front), AllSent(env, n, front);
    CounterStep(env, before, s);
    var next := Sent(env, before, s)[0];
    assert Sent(env, before, s) == [next];
    IncreaseByOne(sent, next);
    if NumbersIncrease(sent) {
      CounterCoversIff(env, id, front);
      if LastRestart(env, n, front) == 0 {
        assert front[..0] == [];
      }
    }
  }

  /** Exactly when numbers are never reused: over any run, whatever writes fail and whatever peers deliver,
      what leaves the node has strictly increasing numbers if and only if the number persisted at each
      restart after which something is sent covers everything sent before that restart. */
  lemma {:induction false} NumbersIncreaseIff(env: Env, id: string, steps: seq<Step>)
    ensures NumbersIncrease(AllSent(env, FreshNode(id), steps)) <==> CoveredAtRestarts(env, FreshNode(id), steps)
  {
    if steps != [] {
      NumbersIncreaseIff(env, id, steps[..|steps| - 1]);
      CoveredUnfolds(env, FreshNode(id), steps);
      IncreaseUnfolds(env, id, steps);
    }
  }

  lemma {:induction false} IncreaseUnfolds(env: Env, id: string, steps: seq<Step>)
    requires steps != []
    ensures var n, m := FreshNode(id), |steps| - 1;
            var k := LastRestart(env, n, steps[..m]);
            NumbersIncrease(AllSent(env, n, steps)) <==>
              && NumbersIncrease(AllSent(env, n, steps[..m]))
              && (Sent(env, Run(env, n, steps[..m]), steps[m]) != [] && k > 0 ==>
                    TableCovers(Run(env, n, steps[..k]), AllSent(env, n, steps[..k])))
  {
    var n, m := FreshNode(id), |steps| - 1;
    var front, last := steps[..m], steps[m];
    var sent := Sent(env, Run(env, n, front), last);
    assert AllSent(env, n, steps) == AllSent(env, n, front) + sent;
    if sent != [] {
      SendingIncreasesIff(env, id, front, last);
      var k := LastRestart(env, n, front);
      assert front[..k] == steps[..k];
    } else {
      assert AllSent(env, n, front) + sent == AllSent(env, n, front);
    }
  }

  /** In particular it holds when every write of a number succeeds. */
  lemma {:induction false} PersistingCovers(env: Env, id: string, steps: seq<Step>)
    requires forall s <- steps :: PersistsAll(s)
    ensures CoveredAtRestarts(env, FreshNode(id), steps)
  {
    SequenceNumbersIncrease(env, id, steps);
    NumbersIncreaseIff(env, id, steps);
  }
}
