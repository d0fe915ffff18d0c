/** Event accounting over whole runs of one gossip node: who is announced as joined or left, and when. */
module GossipRuns {
  import opened Common
  import opened Gossip

  datatype NodeStep = Receive(msg: Message, now: nat) | Check(now: nat)

  function Next(local: string, timeout: nat, ms: Members, s: NodeStep): Members {
    match s
    case Receive(msg, now) => Absorb(ms, Heard(local, msg), now)
    case Check(now) => Expire(ms, timeout, now)
  }

  /** The member map after a run that starts with nobody known. */
  function After(local: string, timeout: nat, steps: seq<NodeStep>): Members {
    if steps == [] then map[]
    else Next(local, timeout, After(local, timeout, steps[..|steps| - 1]), steps[|steps| - 1])
  }

  function Ids(joined: seq<Member>): seq<string> {
    seq(|joined|, i requires 0 <= i < |joined| => joined[i].nodeId)
  }

  /** The ids announced by MemberJoined events over a run. */
  function Joined(local: string, timeout: nat, steps: seq<NodeStep>): seq<string> {
    if steps == [] then []
    else
      var front, last := steps[..|steps| - 1], steps[|steps| - 1];
      Joined(local, timeout, front)
      + if last.Receive? then Ids(Joins(After(local, timeout, front), Heard(local, last.msg), last.now)) else []
  }

  /** The ids announced by MemberLeft events at step i. */
  function LeftAt(local: string, timeout: nat, steps: seq<NodeStep>, i: nat): set<string>
    requires i < |steps|
  {
    if steps[i].Check? then Expired(After(local, timeout, steps[..i]), timeout, steps[i].now) else {}
  }

  /** A step in which the node hears of an id. */
  predicate Hears(local: string, s: NodeStep, id: string) {
    s.Receive? && exists e <- Heard(local, s.msg) :: e.id == id
  }

  /** When an id was last heard of. */
  function LastHeard(local: string, steps: seq<NodeStep>, id: string): Option<nat> {
    if steps == [] then None
    else if Hears(local, steps[|steps| - 1], id) then Some(steps[|steps| - 1].now)
    else LastHeard(local, steps[..|steps| - 1], id)
  }

  // ----- joins --------------------------------------------------------------------------

  lemma {:induction false} EnumeratesExtend(ids: seq<string>, s: set<string>, more: seq<string>, t: set<string>)
    requires Enumerates(ids, s) && Enumerates(more, t) && s !! t
    ensures Enumerates(ids + more, s + t)
  {
    var all := ids + more;
    forall i, j | 0 <= i < j < |all| ensures all[i] != all[j] {
      if i < |ids| <= j {
        assert ids[i] in s && more[j - |ids|] in t;
      }
    }
  }

  lemma {:induction false} EnumerationSize(ids: seq<string>, s: set<string>)
    requires Enumerates(ids, s)
    ensures |ids| == |s|
  {
    if ids == [] {
      assert s == {};
    } else {
      var n := |ids| - 1;
      var front, last := ids[..n], ids[n];
      forall id ensures id in front <==> id in s - {last} {
        assert id in ids <==> id in front || id == last;
      }
      EnumerationSize(front, s - {last});
    }
  }

  /** Per message, the announced ids are exactly the new keys, each once. */
  lemma {:induction false} JoinsAreNewKeys(ms: Members, entries: seq<Entry>, now: nat)
    ensures ms.Keys <= Absorb(ms, entries, now).Keys
    ensures Enumerates(Ids(Joins(ms, entries, now)), Absorb(ms, entries, now).Keys - ms.Keys)
  {
    if entries != [] {
      var n := |entries| - 1;
      var front, last := entries[..n], entries[n];
      JoinsAreNewKeys(ms, front, now);
      var mid := Absorb(ms, front, now);
      if last.id in mid {
        assert Absorb(ms, entries, now).Keys == mid.Keys;
        assert Joins(ms, entries, now) == Joins(ms, front, now);
      } else {
        assert Enumerates([last.id], {last.id});
        EnumeratesExtend(Ids(Joins(ms, front, now)), mid.Keys - ms.Keys, [last.id], {last.id});
        assert Ids(Joins(ms, entries, now)) == Ids(Joins(ms, front, now)) + [last.id];
        assert Absorb(ms, entries, now).Keys - ms.Keys == mid.Keys - ms.Keys + {last.id};
      }
    }
  }

  /** The number of joins a message announces is the growth of the map. */
  lemma {:induction false} JoinsCountGrowth(ms: Members, entries: seq<Entry>, now: nat)
    ensures |Absorb(ms, entries, now)| == |ms| + |Joins(ms, entries, now)|
  {
    JoinsAreNewKeys(ms, entries, now);
    var after := Absorb(ms, entries, now);
    EnumerationSize(Ids(Joins(ms, entries, now)), after.Keys - ms.Keys);
    assert after.Keys == ms.Keys + (after.Keys - ms.Keys);
  }

  /** Over a whole run every known id has been announced as joined exactly once, and nobody else has. */
  lemma {:induction false} JoinedExactlyOnce(local: string, timeout: nat, steps: seq<NodeStep>)
    ensures Enumerates(Joined(local, timeout, steps), After(local, timeout, steps).Keys)
  {
    if steps != [] {
      var front, last := steps[..|steps| - 1], steps[|steps| - 1];
      JoinedExactlyOnce(local, timeout, front);
      var ms := After(local, timeout, front);
      if last.Receive? {
        var entries := Heard(local, last.msg);
        JoinsAreNewKeys(ms, entries, last.now);
        EnumeratesExtend(Joined(local, timeout, front), ms.Keys,
                         Ids(Joins(ms, entries, last.now)), Absorb(ms, entries, last.now).Keys - ms.Keys);
        assert ms.Keys + (Absorb(ms, entries, last.now).Keys - ms.Keys) == Absorb(ms, entries, last.now).Keys;
      } else {
        assert Joined(local, timeout, steps) == Joined(local, timeout, front);
        assert After(local, timeout, steps).Keys == ms.Keys;
      }
    }
  }

  // ----- leaves -------------------------------------------------------------------------

  lemma {:induction false} AbsorbRefreshes(ms: Members, entries: seq<Entry>, now: nat, id: string)
    ensures if exists e <- entries :: e.id == id
            then id in Absorb(ms, entries, now) && Absorb(ms, entries, now)[id].state == Alive
                 && Absorb(ms, entries, now)[id].lastSeen == now
            else (id in Absorb(ms, entries, now) <==> id in ms)
                 && (id in ms ==> Absorb(ms, entries, now)[id] == ms[id])
  {
    if entries != [] {
      var n := |entries| - 1;
      AbsorbRefreshes(ms, entries[..n], now, id);
      assert forall e :: e in entries <==> e in entries[..n] || e == entries[n];
    }
  }

  /** An id is known exactly when it has been heard of, and its `lastSeen` is when. */
  lemma {:induction false} LastSeenIsLastHeard(local: string, timeout: nat, steps: seq<NodeStep>, id: string)
    ensures var ms := After(local, timeout, steps);
            LastHeard(local, steps, id) == if id in ms then Some(ms[id].lastSeen) else None
  {
    if steps != [] {
      var front, last := steps[..|steps| - 1], steps[|steps| - 1];
      LastSeenIsLastHeard(local, timeout, front, id);
      if last.Receive? {
        AbsorbRefreshes(After(local, timeout, front), Heard(local, last.msg), last.now, id);
      }
    }
  }

  /** Some check since the id was last heard of came later than that by more than the timeout. */
  ghost predicate TimedOut(local: string, timeout: nat, steps: seq<NodeStep>, id: string) {
    exists j :: 0 <= j < |steps| && Overdue(local, timeout, steps, j, id)
      && forall m :: j < m < |steps| ==> !Hears(local, steps[m], id)
  }

  /** Step j is a check that finds the id silent for longer than the timeout. */
  predicate Overdue(local: string, timeout: nat, steps: seq<NodeStep>, j: nat, id: string)
    requires j < |steps|
  {
    && steps[j].Check? && LastHeard(local, steps[..j], id).Some?
    && LastHeard(local, steps[..j], id).value + timeout < steps[j].now
  }

  lemma {:induction false} TimedOutUnfolds(local: string, timeout: nat, steps: seq<NodeStep>, id: string)
    requires steps != []
    ensures var front, n := steps[..|steps| - 1], |steps| - 1;
            TimedOut(local, timeout, steps, id) <==>
              !Hears(local, steps[n], id)
              && (Overdue(local, timeout, steps, n, id) || TimedOut(local, timeout, front, id))
  {
    var n := |steps| - 1;
    var front := steps[..n];
    assert forall j :: 0 <= j < n ==> front[..j] == steps[..j] && front[j] == steps[j];
    if TimedOut(local, timeout, front, id) && !Hears(local, steps[n], id) {
      var j :| 0 <= j < |front| && Overdue(local, timeout, front, j, id)
        && forall m :: j < m < |front| ==> !Hears(local, front[m], id);
      assert Overdue(local, timeout, steps, j, id);
    }
    if TimedOut(local, timeout, steps, id) {
      var j :| 0 <= j < |steps| && Overdue(local, timeout, steps, j, id)
        && forall m :: j < m < |steps| ==> !Hears(local, steps[m], id);
      if j < n {
        assert Overdue(local, timeout, front, j, id);
      }
    }
  }

  /** The state of a member is a matter of history: it is dead exactly when, since it was last heard of,
      some check came later than that by more than the timeout; otherwise it is alive. */
  lemma {:induction false} DeadIffTimedOut(local: string, timeout: nat, steps: seq<NodeStep>, id: string)
    requires id in After(local, timeout, steps)
    ensures After(local, timeout, steps)[id].state == if TimedOut(local, timeout, steps, id) then Dead else Alive
  {
    var n := |steps| - 1;
    var front, last := steps[..n], steps[n];
    TimedOutUnfolds(local, timeout, steps, id);
    LastSeenIsLastHeard(local, timeout, front, id);
    if last.Receive? {
      AbsorbRefreshes(After(local, timeout, front), Heard(local, last.msg), last.now, id);
    }
    if id in After(local, timeout, front) {
      DeadIffTimedOut(local, timeout, front, id);
    }
  }

  /** A member heard from within the timeout is never declared dead: an id leaves at a check exactly when it
      is overdue there and no check since it was last heard of found it overdue before. */
  lemma {:induction false} LeavesAreTimeouts(local: string, timeout: nat, steps: seq<NodeStep>, i: nat, id: string)
    requires i < |steps|
    ensures id in LeftAt(local, timeout, steps, i) <==>
            Overdue(local, timeout, steps, i, id) && !TimedOut(local, timeout, steps[..i], id)
    ensures id in LeftAt(local, timeout, steps, i) ==>
            id in After(local, timeout, steps[..i + 1]) && After(local, timeout, steps[..i + 1])[id].state == Dead
  {
    LastSeenIsLastHeard(local, timeout, steps[..i], id);
    if id in After(local, timeout, steps[..i]) {
      DeadIffTimedOut(local, timeout, steps[..i], id);
    }
    assert steps[..i + 1][..i] == steps[..i];
  }

  /** After a check nobody alive has been silent for longer than the timeout. */
  lemma {:induction false} CheckLeavesNobodyStale(local: string, timeout: nat, steps: seq<NodeStep>, id: string)
    requires steps != [] && steps[|steps| - 1].Check?
    requires id in After(local, timeout, steps) && After(local, timeout, steps)[id].state == Alive
    ensures LastHeard(local, steps, id).Some? && steps[|steps| - 1].now <= LastHeard(local, steps, id).value + timeout
  {
    LastSeenIsLastHeard(local, timeout, steps, id);
  }

  /** A dead member stays dead until it is heard of again. */
  lemma {:induction false} DeadUntilHeard(local: string, timeout: nat, steps: seq<NodeStep>, i: nat, j: nat, id: string)
    requires i <= j <= |steps|
    requires id in After(local, timeout, steps[..i]) && After(local, timeout, steps[..i])[id].state == Dead
    requires forall m :: i <= m < j ==> !Hears(local, steps[m], id)
    ensures id in After(local, timeout, steps[..j]) && After(local, timeout, steps[..j])[id].state == Dead
  {
    if i < j {
      DeadUntilHeard(local, timeout, steps, i, j - 1, id);
      assert steps[..j][..j - 1] == steps[..j - 1];
      if steps[j - 1].Receive? {
        assert !Hears(local, steps[j - 1], id);
        AbsorbRefreshes(After(local, timeout, steps[..j - 1]), Heard(local, steps[j - 1].msg), steps[j - 1].now, id);
      }
    }
  }

  /** Between two departures of the same id, the node has heard of it again. */
  lemma {:induction false} HeardBetweenLeaves(local: string, timeout: nat, steps: seq<NodeStep>, i: nat,
      j: nat, id: string)
    requires i < j < |steps|
    requires id in LeftAt(local, timeout, steps, i) && id in LeftAt(local, timeout, steps, j)
    ensures exists m :: i < m < j && Hears(local, steps[m], id)
  {
    LeavesAreTimeouts(local, timeout, steps, i, id);
    if forall m :: i < m < j ==> !Hears(local, steps[m], id) {
      DeadUntilHeard(local, timeout, steps, i + 1, j, id);
    }
  }
}
