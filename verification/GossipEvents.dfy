/** The events a gossip node emits over a run, read off its actions. */
module GossipEvents {
  import opened Common
  import opened Gossip
  import opened GossipRuns

  /** The ids a list of actions announces as joined, in order. */
  function JoinEvents(actions: seq<Action>): seq<string> {
    if actions == [] then []
    else
      JoinEvents(actions[..|actions| - 1])
      + match actions[|actions| - 1]
        case Emit(MemberJoined(m)) => [m.nodeId]
        case _ => []
  }

  /** The ids a list of actions announces as having left, in order. */
  function LeaveEvents(actions: seq<Action>): seq<string> {
    if actions == [] then []
    else
      LeaveEvents(actions[..|actions| - 1])
      + match actions[|actions| - 1]
        case Emit(MemberLeft(id)) => [id]
        case _ => []
  }

  /** The actions a step may take: what `ProcessMessage` and `CheckMemberFailures` promise. */
  ghost predicate Emits(local: Entry, timeout: nat, ms: Members, s: NodeStep, actions: seq<Action>) {
    match s
    case Receive(msg, now) =>
      exists src: Addr :: Processes(local, ms, msg, src, now, Absorb(ms, Heard(local.id, msg), now), actions)
    case Check(now) =>
      exists ids :: Enumerates(ids, Expired(ms, timeout, now)) && actions == LeaveActions(ids)
  }

  /** The actions of each step of a run. */
  ghost predicate Trace(local: Entry, timeout: nat, steps: seq<NodeStep>, out: seq<seq<Action>>) {
    && |out| == |steps|
    && forall i :: 0 <= i < |steps| ==> Emits(local, timeout, After(local.id, timeout, steps[..i]), steps[i], out[i])
  }

  function AllJoinEvents(out: seq<seq<Action>>): seq<string> {
    if out == [] then [] else AllJoinEvents(out[..|out| - 1]) + JoinEvents(out[|out| - 1])
  }

  // ----- events of one step -------------------------------------------------------------

  lemma {:induction false} EventsConcat(a: seq<Action>, b: seq<Action>)
    ensures JoinEvents(a + b) == JoinEvents(a) + JoinEvents(b)
    ensures LeaveEvents(a + b) == LeaveEvents(a) + LeaveEvents(b)
  {
    if b == [] {
      assert a + b == a;
    } else {
      var n := |b| - 1;
      assert (a + b)[..|a + b| - 1] == a + b[..n];
      EventsConcat(a, b[..n]);
    }
  }

  lemma {:induction false} EventsOfJoins(joined: seq<Member>)
    ensures JoinEvents(JoinActions(joined)) == Ids(joined) && LeaveEvents(JoinActions(joined)) == []
  {
    if joined != [] {
      var n := |joined| - 1;
      EventsOfJoins(joined[..n]);
      assert JoinActions(joined)[..n] == JoinActions(joined[..n]);
      assert Ids(joined) == Ids(joined[..n]) + [joined[n].nodeId];
    }
  }

  lemma {:induction false} EventsOfLeaves(ids: seq<string>)
    ensures LeaveEvents(LeaveActions(ids)) == ids && JoinEvents(LeaveActions(ids)) == []
  {
    if ids != [] {
      var n := |ids| - 1;
      EventsOfLeaves(ids[..n]);
      var change, left := Emit(MemberStateChanged(ids[n], Alive, Dead)), Emit(MemberLeft(ids[n]));
      assert [change, left][..1] == [change] && [change][..0] == [];
      EventsConcat(LeaveActions(ids[..n]), [change, left]);
      assert LeaveEvents([change]) == [] && LeaveEvents([change, left]) == [ids[n]];
      assert JoinEvents([change]) == [] && JoinEvents([change, left]) == [];
    }
  }

  /** Every departure directly follows the change of that member from alive to dead. */
  ghost predicate ChangesBeforeLeaving(actions: seq<Action>) {
    forall p :: 0 <= p < |actions| && actions[p].Emit? && actions[p].event.MemberLeft? ==>
      p > 0 && actions[p - 1] == Emit(MemberStateChanged(actions[p].event.id, Alive, Dead))
  }

  lemma {:induction false} LeavesFollowChanges(ids: seq<string>)
    ensures ChangesBeforeLeaving(LeaveActions(ids))
  {
    if ids != [] {
      LeavesFollowChanges(ids[..|ids| - 1]);
    }
  }

  lemma {:induction false} RepliesAnnounceNothing(reply: seq<Action>)
    requires forall a <- reply :: a.Send?
    ensures JoinEvents(reply) == [] && LeaveEvents(reply) == []
  {
    if reply != [] {
      assert reply[|reply| - 1] in reply;
      RepliesAnnounceNothing(reply[..|reply| - 1]);
    }
  }

  lemma {:induction false} EventsOfReceive(local: Entry, ms: Members, msg: Message, src: Addr, now: nat, after: Members,
      actions: seq<Action>)
    requires Processes(local, ms, msg, src, now, after, actions)
    ensures JoinEvents(actions) == Ids(Joins(ms, Heard(local.id, msg), now)) && LeaveEvents(actions) == []
  {
    var joined := Joins(ms, Heard(local.id, msg), now);
    var reply: seq<Action> :| IsReply(local, msg, src, after, reply) && actions == reply + JoinActions(joined);
    ReplyOnlySends(local, msg, src, after, reply);
    EventsOfReply(reply, joined);
  }

  lemma {:induction false} ReplyOnlySends(local: Entry, msg: Message, src: Addr, after: Members, reply: seq<Action>)
    requires IsReply(local, msg, src, after, reply)
    ensures forall a <- reply :: a.Send?
  {
    assert |reply| <= 1;
    assert reply != [] ==> reply[0].Send?;
  }

  lemma {:induction false} EventsOfReply(reply: seq<Action>, joined: seq<Member>)
    requires forall a <- reply :: a.Send?
    ensures JoinEvents(reply + JoinActions(joined)) == Ids(joined)
    ensures LeaveEvents(reply + JoinActions(joined)) == []
  {
    RepliesAnnounceNothing(reply);
    EventsConcat(reply, JoinActions(joined));
    EventsOfJoins(joined);
  }

  // ----- events of a run ----------------------------------------------------------------

  lemma {:induction false} JoinEventsAreJoined(local: Entry, timeout: nat, steps: seq<NodeStep>, out: seq<seq<Action>>)
    requires Trace(local, timeout, steps, out)
    ensures AllJoinEvents(out) == Joined(local.id, timeout, steps)
  {
    if steps != [] {
      var n := |steps| - 1;
      TraceFront(local, timeout, steps, out);
      JoinEventsAreJoined(local, timeout, steps[..n], out[..n]);
      StepEvents(local, timeout, After(local.id, timeout, steps[..n]), steps[n], out[n]);
    }
  }

  lemma {:induction false} TraceFront(local: Entry, timeout: nat, steps: seq<NodeStep>, out: seq<seq<Action>>)
    requires Trace(local, timeout, steps, out) && steps != []
    ensures Trace(local, timeout, steps[..|steps| - 1], out[..|steps| - 1])
  {
    var n := |steps| - 1;
    assert forall i :: 0 <= i < n ==> steps[..n][..i] == steps[..i];
  }

  lemma {:induction false} StepEvents(local: Entry, timeout: nat, ms: Members, s: NodeStep, actions: seq<Action>)
    requires Emits(local, timeout, ms, s, actions)
    ensures JoinEvents(actions) == if s.Receive? then Ids(Joins(ms, Heard(local.id, s.msg), s.now)) else []
    ensures Enumerates(LeaveEvents(actions), if s.Check? then Expired(ms, timeout, s.now) else {})
    ensures s.Check? ==> ChangesBeforeLeaving(actions)
  {
    if s.Receive? {
      var src: Addr :| Processes(local, ms, s.msg, src, s.now, Absorb(ms, Heard(local.id, s.msg), s.now), actions);
      EventsOfReceive(local, ms, s.msg, src, s.now, Absorb(ms, Heard(local.id, s.msg), s.now), actions);
    } else {
      var ids :| Enumerates(ids, Expired(ms, timeout, s.now)) && actions == LeaveActions(ids);
      EventsOfLeaves(ids);
      LeavesFollowChanges(ids);
    }
  }

  /** Over a whole run the MemberJoined events name every known id exactly once, and nobody else. */
  lemma {:induction false} KnownIsAnnounced(local: Entry, timeout: nat, steps: seq<NodeStep>, out: seq<seq<Action>>)
    requires Trace(local, timeout, steps, out)
    ensures Enumerates(AllJoinEvents(out), After(local.id, timeout, steps).Keys)
  {
    JoinEventsAreJoined(local, timeout, steps, out);
    JoinedExactlyOnce(local.id, timeout, steps);
  }

  /** A MemberLeft event names an id at most once per step, directly after its change to dead, and exactly when
      the step is a check that finds it overdue for the first time since it was last heard of. */
  lemma {:induction false} TimeoutIsAnnounced(local: Entry, timeout: nat, steps: seq<NodeStep>, out: seq<seq<Action>>,
      i: nat, id: string)
    requires Trace(local, timeout, steps, out) && i < |steps|
    ensures id in LeaveEvents(out[i]) <==>
            Overdue(local.id, timeout, steps, i, id) && !TimedOut(local.id, timeout, steps[..i], id)
    ensures forall p, q :: 0 <= p < q < |LeaveEvents(out[i])| ==> LeaveEvents(out[i])[p] != LeaveEvents(out[i])[q]
    ensures steps[i].Check? ==> ChangesBeforeLeaving(out[i])
  {
    StepEvents(local, timeout, After(local.id, timeout, steps[..i]), steps[i], out[i]);
    LeavesAreTimeouts(local.id, timeout, steps, i, id);
  }

  lemma {:induction false} JoinsComeFromEntries(ms: Members, entries: seq<Entry>, now: nat)
    ensures forall m <- Joins(ms, entries, now) ::
              exists e <- entries :: m == Member(e.id, e.gossipAddr, e.transportAddr, Alive, now, e.incarnation)
  {
    if entries != [] {
      var n := |entries| - 1;
      JoinsComeFromEntries(ms, entries[..n], now);
      assert entries[n] in entries && forall e <- entries[..n] :: e in entries;
    }
  }

  /** A MemberJoined event describes the member as the message did, alive at that moment. */
  lemma {:induction false} AnnouncedAsHeard(local: Entry, timeout: nat, steps: seq<NodeStep>, out: seq<seq<Action>>,
      i: nat, m: Member)
    requires Trace(local, timeout, steps, out) && i < |steps| && Emit(MemberJoined(m)) in out[i]
    ensures steps[i].Receive?
    ensures exists e <- Heard(local.id, steps[i].msg) ::
              m == Member(e.id, e.gossipAddr, e.transportAddr, Alive, steps[i].now, e.incarnation)
  {
    var ms, s := After(local.id, timeout, steps[..i]), steps[i];
    if s.Check? {
      var ids :| Enumerates(ids, Expired(ms, timeout, s.now)) && out[i] == LeaveActions(ids);
      LeavesJoinNobody(ids, m);
    } else {
      var entries := Heard(local.id, s.msg);
      var src: Addr :| Processes(local, ms, s.msg, src, s.now, Absorb(ms, entries, s.now), out[i]);
      JoinedFromReceive(local, ms, s.msg, src, s.now, Absorb(ms, entries, s.now), out[i], m);
      JoinsComeFromEntries(ms, entries, s.now);
    }
  }

  lemma {:induction false} LeavesJoinNobody(ids: seq<string>, m: Member)
    ensures Emit(MemberJoined(m)) !in LeaveActions(ids)
  {
    if ids != [] {
      LeavesJoinNobody(ids[..|ids| - 1], m);
    }
  }

  lemma {:induction false} JoinedFromReceive(local: Entry, ms: Members, msg: Message, src: Addr, now: nat,
      after: Members, actions: seq<Action>, m: Member)
    requires Processes(local, ms, msg, src, now, after, actions) && Emit(MemberJoined(m)) in actions
    ensures m in Joins(ms, Heard(local.id, msg), now)
  {
    var joined := Joins(ms, Heard(local.id, msg), now);
    var reply: seq<Action> :| IsReply(local, msg, src, after, reply) && actions == reply + JoinActions(joined);
    ReplyOnlySends(local, msg, src, after, reply);
    var p :| 0 <= p < |actions| && actions[p] == Emit(MemberJoined(m));
    assert Emit(MemberJoined(m)) !in reply;
    assert joined[p - |reply|] == m;
  }
}
