/** From a call of `record_change` on one node to the rows a reader sees on another. */
module EndToEnd {
  import opened Common
  import opened ReplicationTypes
  import opened VersionVectors
  import opened LwwStore
  import opened SyncNode
  import opened SequenceNumbers
  import opened Outbox

  function DeliverAll(sent: seq<ChangeSet>): seq<Step> {
    if sent == [] then [] else DeliverAll(sent[..|sent| - 1]) + [Deliver(sent[|sent| - 1])]
  }

  lemma {:induction false} SentFrom(env: Env, id: string, steps: seq<Step>)
    ensures forall cs <- AllSent(env, FreshNode(id), steps) :: cs.seqNo > 0 && cs.source == id && Verify(env, cs)
  {
    SentAreStamped(env, id, steps);
    if steps != [] {
      SentFrom(env, id, steps[..|steps| - 1]);
    }
  }

  /** Sound changesets of one source in the order of their numbers. */
  ghost predicate InSequence(env: Env, source: string, sent: seq<ChangeSet>) {
    && NumbersIncrease(sent) && AllRegular(env, Changes(sent))
    && forall cs <- sent :: cs.seqNo > 0 && cs.source == source && Verify(env, cs)
  }

  /** The node holds exactly what those changesets dictate, and has recorded the last of them as seen. */
  ghost predicate CaughtUp(env: Env, n: Node, source: string, sent: seq<ChangeSet>) {
    && Represents(env, n.store, Changes(sent))
    && Seen(n.vv, source) == if sent == [] then 0 else sent[|sent| - 1].seqNo
  }

  lemma {:induction false} InSequenceFront(env: Env, source: string, front: seq<ChangeSet>, last: ChangeSet)
    requires InSequence(env, source, front + [last])
    ensures InSequence(env, source, front) && AllRegular(env, last.changes) && AllRegular(env, Changes(front))
    ensures last.seqNo > 0 && last.source == source && Verify(env, last)
    ensures front != [] ==> front[|front| - 1].seqNo < last.seqNo
    ensures Changes(front + [last]) == Changes(front) + last.changes
  {
    var sent := front + [last];
    assert sent[..|front|] == front && sent[|front|] == last && last in sent;
    assert forall i :: 0 <= i < |front| ==> sent[i] == front[i];
    assert (forall c <- Changes(front) :: c in Changes(sent)) && (forall c <- last.changes :: c in Changes(sent));
  }

  lemma {:induction false} TakesUpNext(env: Env, n: Node, source: string, front: seq<ChangeSet>, last: ChangeSet)
    requires InSequence(env, source, front + [last]) && CaughtUp(env, n, source, front)
    ensures CaughtUp(env, Do(env, n, Deliver(last)), source, front + [last])
  {
    InSequenceFront(env, source, front, last);
    OneTakenUp(env, n, Changes(front), last);
  }

  /** A fresh node that receives such changesets takes up all of them. */
  lemma {:induction false} AllTakenUp(env: Env, source: string, sent: seq<ChangeSet>, receiver: string)
    requires InSequence(env, source, sent)
    ensures CaughtUp(env, Run(env, FreshNode(receiver), DeliverAll(sent)), source, sent)
  {
    if sent != [] {
      var front, last := sent[..|sent| - 1], sent[|sent| - 1];
      assert sent == front + [last];
      InSequenceFront(env, source, front, last);
      AllTakenUp(env, source, front, receiver);
      RunOneMore(env, FreshNode(receiver), front, last);
      TakesUpNext(env, Run(env, FreshNode(receiver), DeliverAll(front)), source, front, last);
    } else {
      StartsCaughtUp(env, source, receiver);
    }
  }

  lemma {:induction false} StartsCaughtUp(env: Env, source: string, receiver: string)
    ensures CaughtUp(env, Run(env, FreshNode(receiver), DeliverAll([])), source, [])
  {
  }

  lemma {:induction false} RunOneMore(env: Env, n: Node, front: seq<ChangeSet>, last: ChangeSet)
    ensures Run(env, n, DeliverAll(front + [last])) == Do(env, Run(env, n, DeliverAll(front)), Deliver(last))
  {
    assert (front + [last])[..|front|] == front;
    var steps := DeliverAll(front + [last]);
    assert steps == DeliverAll(front) + [Deliver(last)];
    assert steps[..|steps| - 1] == DeliverAll(front);
  }

  lemma {:induction false} OneTakenUp(env: Env, n: Node, h: seq<Change>, cs: ChangeSet)
    requires Represents(env, n.store, h) && AllRegular(env, h) && AllRegular(env, cs.changes)
    requires Verify(env, cs) && Seen(n.vv, cs.source) < cs.seqNo
    ensures var after := Do(env, n, Deliver(cs));
            Represents(env, after.store, h + cs.changes) && Seen(after.vv, cs.source) == cs.seqNo
  {
    ProcessRefines(env, n.store, h, cs.changes);
  }

  /** A receiver of all that a node sent holds exactly what the node recorded and did not lose or keep
      back, whatever crashes the sender went through. */
  lemma {:induction false} ReceiverFollows(env: Env, id: string, steps: seq<Step>, receiver: string)
    requires CoveredAtRestarts(env, FreshNode(id), steps)
    requires AllRegular(env, Surviving(env, id, steps, |steps|))
    ensures var b := Run(env, FreshNode(receiver), DeliverAll(AllSent(env, FreshNode(id), steps)));
            exists h: seq<Change> :: Represents(env, b.store, h)
              && h + Recorded(env, id, steps[Settled(steps)..]) == Surviving(env, id, steps, |steps|)
  {
    var sent := AllSent(env, FreshNode(id), steps);
    NothingElseIsLost(env, id, steps);
    PendingIsRecent(env, id, steps);
    NumbersIncreaseIff(env, id, steps);
    SentFrom(env, id, steps);
    assert forall c <- Changes(sent) :: c in Changes(sent) + Run(env, FreshNode(id), steps).pending;
    AllTakenUp(env, id, sent, receiver);
  }

  // ----- what a reader sees -------------------------------------------------------------

  predicate Touches(s: Step, pk: string) {
    s.Record? && s.table == "backends" && s.pk == pk
  }

  /** The call at i has the last word on a row: its clock reading is the greatest, and it is the first with it. */
  ghost predicate LastWord(steps: seq<Step>, pk: string, i: nat) {
    && i < |steps| && Touches(steps[i], pk)
    && (forall j :: 0 <= j < i && Touches(steps[j], pk) ==> steps[j].wall < steps[i].wall)
    && (forall j :: i < j < |steps| && Touches(steps[j], pk) ==> steps[j].wall <= steps[i].wall)
  }

  /** Column by column, a row shows the payload, and the default where the payload is silent. */
  predicate Shows(row: BackendRow, j: BackendJson) {
    && (if j.app.Some? then row.app == j.app.value else row.app == "")
    && (if j.region.Some? then row.region == j.region.value else row.region == "us")
    && row.country == j.country
    && (if j.wgIp.Some? then row.wgIp == j.wgIp.value else row.wgIp == "")
    && (if j.port.Some? then row.port == j.port.value else row.port == 0)
    && (if j.healthy.Some? then row.healthy == j.healthy.value else row.healthy == 1)
    && (if j.weight.Some? then row.weight == j.weight.value else row.weight == 2)
    && (if j.softLimit.Some? then row.softLimit == j.softLimit.value else row.softLimit == 100)
    && (if j.hardLimit.Some? then row.hardLimit == j.hardLimit.value else row.hardLimit == 150)
  }

  lemma {:induction false} RecordedComesFrom(env: Env, id: string, steps: seq<Step>, c: Change)
    requires c in Recorded(env, id, steps)
    ensures exists j :: 0 <= j < |steps| && RecordedAt(env, id, steps[j]) == [c]
  {
    var n := |steps| - 1;
    if c in Recorded(env, id, steps[..n]) {
      RecordedComesFrom(env, id, steps[..n], c);
      var j :| 0 <= j < n && RecordedAt(env, id, steps[..n][j]) == [c];
      assert RecordedAt(env, id, steps[j]) == [c];
    } else {
      assert RecordedAt(env, id, steps[n]) == [c];
    }
  }

  lemma {:induction false} LastWordDecides(env: Env, id: string, steps: seq<Step>, pk: string, i: nat)
    requires LastWord(steps, pk, i) && AllRegular(env, Recorded(env, id, steps))
    ensures var h, k := Recorded(env, id, steps), |Recorded(env, id, steps[..i])|;
            Decides(h, Key("backends", pk), k) && RecordedAt(env, id, steps[i]) == [h[k]]
  {
    var key := Key("backends", pk);
    var a, c, b := Recorded(env, id, steps[..i]), RecordedAt(env, id, steps[i])[0], Recorded(env, id, steps[i + 1..]);
    var h := Recorded(env, id, steps);
    assert h == a + [c] + b by {
      assert steps == steps[..i] + [steps[i]] + steps[i + 1..];
      assert [steps[i]][..0] == [];
      assert Recorded(env, id, [steps[i]]) == RecordedAt(env, id, steps[i]);
      RecordedConcat(env, id, steps[..i] + [steps[i]], steps[i + 1..]);
      RecordedConcat(env, id, steps[..i], [steps[i]]);
    }
    assert (forall d <- a :: d in h) && (forall d <- b :: d in h);
    forall d <- a | KeyOf(d) == key ensures d.timestamp.LessThan(c.timestamp) {
      var j := Recorder(env, id, steps[..i], d, pk);
      assert steps[..i][j] == steps[j];
    }
    forall d <- b | KeyOf(d) == key ensures d.timestamp.AtMost(c.timestamp) {
      var j := Recorder(env, id, steps[i + 1..], d, pk);
      assert steps[i + 1..][j] == steps[i + 1 + j];
    }
  }

  /** The call that recorded a change of a backend's row. */
  lemma {:induction false} Recorder(env: Env, id: string, steps: seq<Step>, c: Change, pk: string) returns (j: nat)
    requires c in Recorded(env, id, steps) && KeyOf(c) == Key("backends", pk) && ColonFree(c.table)
    ensures j < |steps| && Touches(steps[j], pk) && RecordedAt(env, id, steps[j]) == [c]
  {
    RecordedComesFrom(env, id, steps, c);
    j :| 0 <= j < |steps| && RecordedAt(env, id, steps[j]) == [c];
    KeyInjective(c.table, c.pk, "backends", pk);
  }

  lemma {:induction false} Untouched(env: Env, id: string, steps: seq<Step>, pk: string)
    requires AllRegular(env, Recorded(env, id, steps))
    ensures (exists c <- Recorded(env, id, steps) :: KeyOf(c) == Key("backends", pk)) ==>
              exists s <- steps :: Touches(s, pk)
  {
    if c :| c in Recorded(env, id, steps) && KeyOf(c) == Key("backends", pk) {
      var j := Recorder(env, id, steps, c, pk);
      assert steps[j] in steps;
    }
  }

  /** What a reader should see of a row: the payload of the call with the last word, or nothing if that call
      was a deletion or there was none. */
  ghost predicate SeesLastWord(env: Env, steps: seq<Step>, pk: string, i: nat, row: Option<BackendRow>) {
    && ((forall s <- steps :: !Touches(s, pk)) ==> row.None?)
    && (LastWord(steps, pk, i) ==>
          if steps[i].kind == Delete then row.None?
          else row.Some? && env.parse(steps[i].data).Some? && Shows(row.value, env.parse(steps[i].data).value))
  }

  lemma {:induction false} HistoryGivesRow(env: Env, id: string, steps: seq<Step>, s: Store, pk: string, i: nat)
    requires AllRegular(env, Recorded(env, id, steps)) && RepresentsRows(env, s, Recorded(env, id, steps))
    ensures SeesLastWord(env, steps, pk, i, LiveRow(s.backends, pk))
  {
    var h, key := Recorded(env, id, steps), Key("backends", pk);
    NoWinner(h, key);
    Untouched(env, id, steps, pk);
    if LastWord(steps, pk, i) {
      LastWordDecides(env, id, steps, pk, i);
      var k := |Recorded(env, id, steps[..i])|;
      DecidingIsWinner(h, key, k);
      assert h[k] in h;
    }
  }

  /** End to end. A node records changes, flushes them and does not restart; another node receives what was
      sent. Then a reader there sees, row by row, the last word. */
  lemma {:induction false} ReaderSeesLastWord(env: Env, id: string, steps: seq<Step>, receiver: string, pk: string,
      i: nat)
    requires (forall s <- steps :: !Cuts(s)) && Recorded(env, id, steps[Settled(steps)..]) == []
    requires AllRegular(env, Recorded(env, id, steps))
    ensures var b := Run(env, FreshNode(receiver), DeliverAll(AllSent(env, FreshNode(id), steps)));
            SeesLastWord(env, steps, pk, i, LiveRow(b.store.backends, pk))
  {
    var sent := AllSent(env, FreshNode(id), steps);
    AllIsSent(env, id, steps);
    PendingIsRecent(env, id, steps);
    assert Changes(sent) == Recorded(env, id, steps);
    SentNumbersRun(env, id, steps);
    SentFrom(env, id, steps);
    AllTakenUp(env, id, sent, receiver);
    HistoryGivesRow(env, id, steps, Run(env, FreshNode(receiver), DeliverAll(sent)).store, pk, i);
  }

  /** Without restarts the numbers sent run 1, 2, 3 and so on, whether or not they are persisted. */
  lemma {:induction false} SentNumbersRun(env: Env, id: string, steps: seq<Step>)
    requires forall s <- steps :: !Cuts(s)
    ensures var sent := AllSent(env, FreshNode(id), steps);
            && Run(env, FreshNode(id), steps).sequence == |sent| && NumbersIncrease(sent)
            && forall i :: 0 <= i < |sent| ==> sent[i].seqNo == i + 1
  {
    if steps != [] {
      var n := |steps| - 1;
      SentNumbersRun(env, id, steps[..n]);
      CounterStep(env, Run(env, FreshNode(id), steps[..n]), steps[n]);
      assert !Cuts(steps[n]);
    }
  }
}
