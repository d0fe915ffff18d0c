/** What becomes of the changes a node records: they are sent in order, once, or lost to a restart. */
module Outbox {
  import opened Common
  import opened ReplicationTypes
  import opened VersionVectors
  import opened LwwStore
  import opened SyncNode
  import opened SequenceNumbers

  // ----- histories ----------------------------------------------------------------------

  /** The change a step records, read off the arguments of the call alone. */
  function RecordedAt(env: Env, id: string, s: Step): seq<Change> {
    match s
    case Record(changeId, table, pk, kind, data, wall) =>
      [Change(changeId, table, pk, kind, data, HlcTimestamp(wall, 0, env.nodeHash(id)), id)]
    case _ => []
  }

  function Recorded(env: Env, id: string, steps: seq<Step>): seq<Change> {
    if steps == [] then [] else Recorded(env, id, steps[..|steps| - 1]) + RecordedAt(env, id, steps[|steps| - 1])
  }

  /** A flush that gets to send. */
  predicate Ships(s: Step) {
    s.Flush? && s.upto >= SENT
  }

  /** A step that ends in a restart, if it does anything at all. */
  predicate Cuts(s: Step) {
    s.Restarts? || s.DeliverCrash? || s.DeliverTorn? || (s.Flush? && s.upto < SENT)
  }

  /** The length of the run up to and including its last shipping or cutting step. */
  function Settled(steps: seq<Step>): (k: nat)
    ensures k <= |steps|
  {
    if steps == [] then 0
    else if Ships(steps[|steps| - 1]) || Cuts(steps[|steps| - 1]) then |steps|
    else Settled(steps[..|steps| - 1])
  }

  function Changes(sent: seq<ChangeSet>): seq<Change> {
    if sent == [] then [] else Changes(sent[..|sent| - 1]) + sent[|sent| - 1].changes
  }

  lemma {:induction false} ChangesConcat(a: seq<ChangeSet>, b: seq<ChangeSet>)
    ensures Changes(a + b) == Changes(a) + Changes(b)
  {
    if b == [] {
      assert a + b == a;
    } else {
      var n := |b| - 1;
      assert (a + b)[..|a + b| - 1] == a + b[..n];
      ChangesConcat(a, b[..n]);
    }
  }

  lemma {:induction false} RecordedConcat(env: Env, id: string, a: seq<Step>, b: seq<Step>)
    ensures Recorded(env, id, a + b) == Recorded(env, id, a) + Recorded(env, id, b)
  {
    if b == [] {
      assert a + b == a;
    } else {
      var n := |b| - 1;
      assert (a + b)[..|a + b| - 1] == a + b[..n];
      RecordedConcat(env, id, a, b[..n]);
    }
  }

  lemma {:induction false} RunKeepsId(env: Env, n: Node, steps: seq<Step>)
    ensures Run(env, n, steps).id == n.id
  {
    if steps != [] {
      RunKeepsId(env, n, steps[..|steps| - 1]);
    }
  }

  // ----- what waits and what is sent ----------------------------------------------------

  /** In every reachable state, what is pending is exactly what was recorded since the last flush that sent
      or restart, in order. */
  lemma {:induction false} PendingIsRecent(env: Env, id: string, steps: seq<Step>)
    ensures Run(env, FreshNode(id), steps).pending == Recorded(env, id, steps[Settled(steps)..])
  {
    if steps != [] {
      var n := |steps| - 1;
      var front, last := steps[..n], steps[n];
      PendingIsRecent(env, id, front);
      RunKeepsId(env, FreshNode(id), front);
      if Ships(last) || Cuts(last) {
        assert steps[|steps|..] == [];
      } else {
        assert steps[Settled(steps)..][..n - Settled(steps)] == front[Settled(front)..];
      }
    }
  }

  /** A flush that gets to send puts exactly what was recorded since the last one or the last restart, in
      order, into one changeset, and sends nothing if that is nothing. No other step sends. */
  lemma {:induction false} FlushSendsRecorded(env: Env, id: string, steps: seq<Step>, s: Step)
    ensures var sent := Sent(env, Run(env, FreshNode(id), steps), s);
            var waiting := Recorded(env, id, steps[Settled(steps)..]);
            if Ships(s) && waiting != []
            then |sent| == 1 && sent[0].changes == waiting && sent[0].source == id && Verify(env, sent[0])
            else sent == []
  {
    PendingIsRecent(env, id, steps);
    RunKeepsId(env, FreshNode(id), steps);
  }

  // ----- what is lost -------------------------------------------------------------------

  /** The change recorded at i is lost: a restart came before any flush that sent. */
  ghost predicate Lost(steps: seq<Step>, i: nat) {
    exists j :: i < j < |steps| && Cuts(steps[j]) && !ShipsBetween(steps, i, j)
  }

  predicate ShipsBetween(steps: seq<Step>, i: nat, j: nat)
    requires j <= |steps|
  {
    exists f :: i < f < j && Ships(steps[f])
  }

  /** The recorded changes among the first n steps that the whole run does not lose. */
  ghost function Surviving(env: Env, id: string, steps: seq<Step>, n: nat): seq<Change>
    requires n <= |steps|
  {
    if n == 0 then []
    else Surviving(env, id, steps, n - 1) + if Lost(steps, n - 1) then [] else RecordedAt(env, id, steps[n - 1])
  }

  lemma {:induction false} SurvivingSame(env: Env, id: string, a: seq<Step>, b: seq<Step>, n: nat)
    requires n <= |a| && n <= |b| && a[..n] == b[..n]
    requires forall i :: 0 <= i < n && a[i].Record? ==> (Lost(a, i) <==> Lost(b, i))
    ensures Surviving(env, id, a, n) == Surviving(env, id, b, n)
  {
    if n > 0 {
      assert a[..n - 1] == a[..n][..n - 1] == b[..n][..n - 1] == b[..n - 1];
      assert a[..n][n - 1] == b[..n][n - 1];
      SurvivingSame(env, id, a, b, n - 1);
    }
  }

  /** From k on nothing is lost, so all that was recorded survives. */
  lemma {:induction false} SurvivingTail(env: Env, id: string, steps: seq<Step>, k: nat, n: nat)
    requires k <= n <= |steps| && forall i :: k <= i < n ==> !Lost(steps, i)
    ensures Surviving(env, id, steps, n) == Surviving(env, id, steps, k) + Recorded(env, id, steps[k..n])
  {
    if k < n {
      SurvivingTail(env, id, steps, k, n - 1);
      RecordedGrows(env, id, steps, k, n);
      AppendAssoc(Surviving(env, id, steps, k), Recorded(env, id, steps[k..n - 1]), RecordedAt(env, id, steps[n - 1]));
    }
  }

  lemma {:induction false} RecordedGrows(env: Env, id: string, steps: seq<Step>, k: nat, n: nat)
    requires k < n <= |steps|
    ensures Recorded(env, id, steps[k..n]) == Recorded(env, id, steps[k..n - 1]) + RecordedAt(env, id, steps[n - 1])
  {
    assert steps[k..n][..n - 1 - k] == steps[k..n - 1];
  }

  lemma {:induction false} AppendAssoc(a: seq<Change>, b: seq<Change>, c: seq<Change>)
    ensures a + b + c == a + (b + c)
  {
  }

  /** From k on everything is lost. */
  lemma {:induction false} LostTail(env: Env, id: string, steps: seq<Step>, k: nat, n: nat)
    requires k <= n <= |steps| && forall i :: k <= i < n ==> Lost(steps, i) || !steps[i].Record?
    ensures Surviving(env, id, steps, n) == Surviving(env, id, steps, k)
  {
    if k < n {
      LostTail(env, id, steps, k, n - 1);
      LostStep(env, id, steps, n);
    }
  }

  lemma {:induction false} LostStep(env: Env, id: string, steps: seq<Step>, n: nat)
    requires 0 < n <= |steps| && (Lost(steps, n - 1) || !steps[n - 1].Record?)
    ensures Surviving(env, id, steps, n) == Surviving(env, id, steps, n - 1)
  {
  }

  lemma {:induction false} SettledIsLast(steps: seq<Step>)
    ensures forall i :: Settled(steps) <= i < |steps| ==> !Ships(steps[i]) && !Cuts(steps[i])
    ensures Settled(steps) > 0 ==> Ships(steps[Settled(steps) - 1]) || Cuts(steps[Settled(steps) - 1])
  {
    if steps != [] {
      SettledIsLast(steps[..|steps| - 1]);
    }
  }

  lemma {:induction false} LostUnfolds(steps: seq<Step>, i: nat)
    requires steps != [] && i < |steps| - 1
    ensures var n := |steps| - 1;
            Lost(steps, i) <==> Lost(steps[..n], i) || (Cuts(steps[n]) && !ShipsBetween(steps, i, n))
  {
    var n := |steps| - 1;
    var front := steps[..n];
    forall j | i < j < n ensures ShipsBetween(front, i, j) <==> ShipsBetween(steps, i, j) {
      if ShipsBetween(steps, i, j) {
        var f :| i < f < j && Ships(steps[f]);
        assert Ships(front[f]);
      }
    }
    if Lost(front, i) {
      var j :| i < j < |front| && Cuts(front[j]) && !ShipsBetween(front, i, j);
      assert Cuts(steps[j]) && !ShipsBetween(steps, i, j);
    }
    if Lost(steps, i) {
      var j :| i < j < |steps| && Cuts(steps[j]) && !ShipsBetween(steps, i, j);
      if j < n {
        assert Cuts(front[j]) && !ShipsBetween(front, i, j);
      }
    }
  }

  /** What a cut loses: exactly what was recorded since the run was last settled. */
  lemma {:induction false} CutLoses(steps: seq<Step>, i: nat)
    requires steps != [] && Cuts(steps[|steps| - 1]) && i < |steps| - 1 && steps[i].Record?
    ensures var front := steps[..|steps| - 1];
            Lost(steps, i) <==> Lost(front, i) || Settled(front) <= i
  {
    var n := |steps| - 1;
    var front := steps[..n];
    var k := Settled(front);
    LostUnfolds(steps, i);
    SettledIsLast(front);
    if k <= i {
      assert forall f :: i < f < n ==> steps[f] == front[f];
    } else if !ShipsBetween(steps, i, n) {
      assert i < k - 1 && !Ships(steps[k - 1]) && Cuts(front[k - 1]);
      assert !ShipsBetween(front, i, k - 1) by {
        assert forall f :: i < f < k - 1 ==> front[f] == steps[f];
      }
    }
  }

  /** A cut takes away exactly what was waiting. */
  lemma {:induction false} SurvivingAfterCut(env: Env, id: string, steps: seq<Step>)
    requires steps != [] && Cuts(steps[|steps| - 1])
    ensures var n := |steps| - 1;
            var k := Settled(steps[..n]);
            && Surviving(env, id, steps, |steps|) == Surviving(env, id, steps[..n], k)
            && Surviving(env, id, steps[..n], n) == Surviving(env, id, steps[..n], k) + Recorded(env, id, steps[k..n])
  {
    var n := |steps| - 1;
    var front := steps[..n];
    var k := Settled(front);
    forall i | 0 <= i < n && steps[i].Record? ensures Lost(steps, i) <==> Lost(front, i) || k <= i {
      CutLoses(steps, i);
    }
    LostTail(env, id, steps, k, |steps|);
    SurvivingSame(env, id, steps, front, k);
    RecentSurvive(env, id, front);
    assert front[k..] == steps[k..n];
  }

  /** What was recorded since the run was last settled is not lost yet. */
  lemma {:induction false} RecentSurvive(env: Env, id: string, steps: seq<Step>)
    ensures var k := Settled(steps);
            Surviving(env, id, steps, |steps|) == Surviving(env, id, steps, k) + Recorded(env, id, steps[k..])
  {
    var k := Settled(steps);
    SettledIsLast(steps);
    SurvivingTail(env, id, steps, k, |steps|);
    assert steps[k..|steps|] == steps[k..];
  }

  lemma {:induction false} SurvivingAfterOther(env: Env, id: string, steps: seq<Step>)
    requires steps != [] && !Cuts(steps[|steps| - 1])
    ensures var n := |steps| - 1;
            Surviving(env, id, steps, |steps|) == Surviving(env, id, steps[..n], n) + RecordedAt(env, id, steps[n])
  {
    var n := |steps| - 1;
    forall i | 0 <= i < n ensures Lost(steps, i) <==> Lost(steps[..n], i) {
      LostUnfolds(steps, i);
    }
    SurvivingSame(env, id, steps, steps[..n], n);
  }

  /** The whole account, for every run: what was sent followed by what is pending is, in order, exactly
      what was recorded and not lost to a restart before its flush. */
  lemma {:induction false} NothingElseIsLost(env: Env, id: string, steps: seq<Step>)
    ensures var n := FreshNode(id);
            Changes(AllSent(env, n, steps)) + Run(env, n, steps).pending == Surviving(env, id, steps, |steps|)
  {
    if steps != [] {
      NothingElseIsLost(env, id, steps[..|steps| - 1]);
      if Cuts(steps[|steps| - 1]) {
        AccountAfterCut(env, id, steps);
      } else {
        AccountAfterOther(env, id, steps);
      }
    }
  }

  /** The account is settled for the run: sent and pending changes are the surviving ones. */
  ghost predicate Accounted(env: Env, id: string, steps: seq<Step>) {
    var n := FreshNode(id);
    Changes(AllSent(env, n, steps)) + Run(env, n, steps).pending == Surviving(env, id, steps, |steps|)
  }

  lemma {:induction false} AccountAfterCut(env: Env, id: string, steps: seq<Step>)
    requires steps != [] && Cuts(steps[|steps| - 1]) && Accounted(env, id, steps[..|steps| - 1])
    ensures Accounted(env, id, steps)
  {
    var n := |steps| - 1;
    var front, start := steps[..n], FreshNode(id);
    var k := Settled(front);
    StepAccount(env, Run(env, start, front), steps[n]);
    PendingIsRecent(env, id, front);
    SurvivingAfterCut(env, id, steps);
    assert front[k..] == steps[k..n];
    Cancel(Changes(AllSent(env, start, front)), Surviving(env, id, front, k), Recorded(env, id, steps[k..n]));
    assert AllSent(env, start, steps) == AllSent(env, start, front);
  }

  lemma {:induction false} AccountAfterOther(env: Env, id: string, steps: seq<Step>)
    requires steps != [] && !Cuts(steps[|steps| - 1]) && Accounted(env, id, steps[..|steps| - 1])
    ensures Accounted(env, id, steps)
  {
    var n := |steps| - 1;
    var front, last, start := steps[..n], steps[n], FreshNode(id);
    var before, sent := Run(env, start, front), AllSent(env, start, front);
    RunKeepsId(env, start, front);
    ChangesConcat(sent, Sent(env, before, last));
    StepAccount(env, before, last);
    SurvivingAfterOther(env, id, steps);
    AppendAssoc(Changes(sent), Changes(Sent(env, before, last)), Do(env, before, last).pending);
    AppendAssoc(Changes(sent), before.pending, RecordedAt(env, id, last));
  }

  lemma {:induction false} Cancel(a: seq<Change>, b: seq<Change>, tail: seq<Change>)
    requires a + tail == b + tail
    ensures a == b
  {
    assert |a| == |b|;
    assert a == (a + tail)[..|a|] && b == (b + tail)[..|a|];
  }

  lemma {:induction false} StepAccount(env: Env, n: Node, s: Step)
    ensures !Cuts(s) ==>
              Changes(Sent(env, n, s)) + Do(env, n, s).pending == n.pending + RecordedAt(env, n.id, s)
    ensures Cuts(s) ==> Sent(env, n, s) == [] && Do(env, n, s).pending == []
  {
    var sent := Sent(env, n, s);
    if sent != [] {
      assert sent[..0] == [];
      assert Changes(sent) == Changes([]) + n.pending;
    }
  }

  /** In particular, without a restart everything recorded is sent or still pending. */
  lemma {:induction false} AllIsSent(env: Env, id: string, steps: seq<Step>)
    requires forall s <- steps :: !Cuts(s)
    ensures var n := FreshNode(id);
            Changes(AllSent(env, n, steps)) + Run(env, n, steps).pending == Recorded(env, id, steps)
  {
    NothingElseIsLost(env, id, steps);
    SurvivingTail(env, id, steps, 0, |steps|);
    assert steps[0..|steps|] == steps;
  }
}
