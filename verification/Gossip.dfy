/** Gossip message processing and failure detection at one node, and whole runs of a node. */
module Gossip {
  import opened Common

  type Addr = string

  datatype MemberState = Alive | Suspect | Dead

  datatype Member = Member(
    nodeId: string,
    gossipAddr: Addr,
    transportAddr: Addr,
    state: MemberState,
    lastSeen: nat,
    incarnation: nat)

  /** What a message says about a node; also the local node's own description. */
  datatype Entry = Entry(id: string, gossipAddr: Addr, transportAddr: Addr, incarnation: nat)

  datatype Message =
    | Ping(sender: Entry)
    | Ack(sender: Entry)
    | Join(id: string, gossipAddr: Addr, transportAddr: Addr)
    | MemberList(members: seq<Entry>)

  datatype GossipEvent =
    | MemberJoined(member: Member)
    | MemberLeft(id: string)
    | MemberStateChanged(id: string, oldState: MemberState, newState: MemberState)

  datatype Action = Send(to: Addr, message: Message) | Emit(event: GossipEvent)

  type Members = map<string, Member>

  // ----- what a message does to the map -------------------------------------------------

  function AliveMember(e: Entry, now: nat): Member {
    Member(e.id, e.gossipAddr, e.transportAddr, Alive, now, e.incarnation)
  }

  function Others(local: string, entries: seq<Entry>): seq<Entry> {
    if entries == [] then []
    else Others(local, entries[..|entries| - 1])
         + if entries[|entries| - 1].id == local then [] else [entries[|entries| - 1]]
  }

  /** The entries a message makes its receiver insert, in order. Only a member list is checked for the local id. */
  function Heard(local: string, msg: Message): seq<Entry> {
    match msg
    case Ping(e) => [e]
    case Ack(e) => [e]
    case Join(id, g, t) => [Entry(id, g, t, 0)]
    case MemberList(entries) => Others(local, entries)
  }

  function Absorb(ms: Members, entries: seq<Entry>, now: nat): Members {
    if entries == [] then ms
    else
      var last := entries[|entries| - 1];
      Absorb(ms, entries[..|entries| - 1], now)[last.id := AliveMember(last, now)]
  }

  /** The members announced as joined while absorbing: those absent at the moment of their insertion. */
  function Joins(ms: Members, entries: seq<Entry>, now: nat): seq<Member> {
    if entries == [] then []
    else
      var front, last := entries[..|entries| - 1], entries[|entries| - 1];
      Joins(ms, front, now) + if last.id in Absorb(ms, front, now) then [] else [AliveMember(last, now)]
  }

  function JoinActions(joined: seq<Member>): seq<Action> {
    seq(|joined|, i requires 0 <= i < |joined| => Emit(MemberJoined(joined[i])))
  }

  function EntryOf(m: Member): Entry {
    Entry(m.nodeId, m.gossipAddr, m.transportAddr, m.incarnation)
  }

  /** A member list in some iteration order of the map: one entry per member. */
  ghost predicate Lists(entries: seq<Entry>, ms: Members) {
    exists ids: seq<string> :: Enumerates(ids, ms.Keys) && |entries| == |ids|
      && forall i :: 0 <= i < |ids| ==> ids[i] in ms && entries[i] == EntryOf(ms[ids[i]])
  }

  ghost predicate Enumerates(ids: seq<string>, s: set<string>) {
    && (forall id :: id in ids <==> id in s)
    && (forall i, j :: 0 <= i < j < |ids| ==> ids[i] != ids[j])
  }

  ghost predicate IsReply(local: Entry, msg: Message, src: Addr, after: Members, reply: seq<Action>) {
    match msg
    case Ping(_) => reply == [Send(src, Ack(local))]
    case Join(_, _, _) =>
      |reply| == 1 && reply[0].Send? && reply[0].to == src && reply[0].message.MemberList?
      && Lists(reply[0].message.members, after)
    case _ => reply == []
  }

  /** `process_message` as a relation, the order of a member list being free. */
  ghost predicate Processes(local: Entry, before: Members, msg: Message, src: Addr, now: nat, after: Members,
      actions: seq<Action>) {
    && after == Absorb(before, Heard(local.id, msg), now)
    && exists reply :: IsReply(local, msg, src, after, reply)
                       && actions == reply + JoinActions(Joins(before, Heard(local.id, msg), now))
  }

  // ----- failure detection --------------------------------------------------------------

  function Expired(ms: Members, timeout: nat, now: nat): set<string> {
    set id | id in ms && ms[id].state == Alive && Since(ms[id].lastSeen, now) > timeout
  }

  function Expire(ms: Members, timeout: nat, now: nat): Members {
    map id | id in ms :: if id in Expired(ms, timeout, now) then ms[id].(state := Dead) else ms[id]
  }

  function LeaveActions(ids: seq<string>): seq<Action> {
    if ids == [] then []
    else LeaveActions(ids[..|ids| - 1])
         + [Emit(MemberStateChanged(ids[|ids| - 1], Alive, Dead)), Emit(MemberLeft(ids[|ids| - 1]))]
  }

  // ----- the node object ----------------------------------------------------------------

  class GossipNode {
    const local: Entry
    var members: Members

    constructor (local: Entry)
      ensures this.local == local && members == map[]
    {
      this.local, members := local, map[];
    }

    method Insert(e: Entry, now: nat) returns (joined: seq<Action>)
      modifies this
      ensures members == old(members)[e.id := AliveMember(e, now)]
      ensures joined == if e.id in old(members) then [] else [Emit(MemberJoined(AliveMember(e, now)))]
    {
      var isNew := e.id !in members;
      members := members[e.id := AliveMember(e, now)];
      joined := if isNew then [Emit(MemberJoined(AliveMember(e, now)))] else [];
    }

    method ListMembers() returns (entries: seq<Entry>)
      ensures Lists(entries, members)
    {
      entries := [];
      ghost var ids := [];
      var todo := members.Keys;
      while todo != {}
        invariant todo <= members.Keys && Enumerates(ids, members.Keys - todo) && |entries| == |ids|
        invariant forall i :: 0 <= i < |ids| ==> ids[i] in members && entries[i] == EntryOf(members[ids[i]])
        decreases todo
      {
        var id :| id in todo;
        entries, ids := entries + [EntryOf(members[id])], ids + [id];
        todo := todo - {id};
      }
      assert members.Keys - todo == members.Keys;
    }

    /** One entry of a message about a single node. */
    method AbsorbEntry(e: Entry, now: nat) returns (actions: seq<Action>)
      modifies this
      ensures members == Absorb(old(members), [e], now)
      ensures actions == JoinActions(Joins(old(members), [e], now))
    {
      actions := Insert(e, now);
      AbsorbOne(old(members), e, now);
    }

    method AbsorbList(list: seq<Entry>, now: nat) returns (actions: seq<Action>)
      modifies this
      ensures members == Absorb(old(members), Others(local.id, list), now)
      ensures actions == JoinActions(Joins(old(members), Others(local.id, list), now))
    {
      actions := [];
      for i := 0 to |list|
        invariant members == Absorb(old(members), Others(local.id, list[..i]), now)
        invariant actions == JoinActions(Joins(old(members), Others(local.id, list[..i]), now))
      {
        assert list[..i + 1][..i] == list[..i];
        ghost var done := Others(local.id, list[..i]);
        if list[i].id == local.id {
          assert Others(local.id, list[..i + 1]) == done;
          continue;
        }
        AbsorbNext(old(members), done, list[i], now);
        assert Others(local.id, list[..i + 1]) == done + [list[i]];
        var joined := Insert(list[i], now);
        actions := actions + joined;
      }
      assert list[..|list|] == list;
    }

    /** Any message but a member list announces one entry; a member list announces many. */
    method ProcessMessage(msg: Message, src: Addr, now: nat) returns (actions: seq<Action>, discovered: bool)
      modifies this
      ensures Processes(local, old(members), msg, src, now, members, actions)
      ensures discovered <==> Joins(old(members), Heard(local.id, msg), now) != []
    {
      var reply: seq<Action> := [];
      var joined: seq<Action>;
      match msg {
        case Ping(sender) =>
          joined := AbsorbEntry(sender, now);
          reply := [Send(src, Ack(local))];
        case Ack(sender) =>
          joined := AbsorbEntry(sender, now);
        case Join(id, gossipAddr, transportAddr) =>
          joined := AbsorbEntry(Entry(id, gossipAddr, transportAddr, 0), now);
          var list := ListMembers();
          reply := [Send(src, MemberList(list))];
        case MemberList(list) =>
          joined := AbsorbList(list, now);
      }
      assert joined == JoinActions(Joins(old(members), Heard(local.id, msg), now));
      assert IsReply(local, msg, src, members, reply);
      actions, discovered := reply + joined, joined != [];
    }

    method CheckMemberFailures(timeout: nat, now: nat) returns (actions: seq<Action>)
      modifies this
      ensures members == Expire(old(members), timeout, now)
      ensures exists ids :: Enumerates(ids, Expired(old(members), timeout, now)) && actions == LeaveActions(ids)
    {
      var dead: seq<string> := [];
      ghost var expired := Expired(members, timeout, now);
      var todo := members.Keys;
      while todo != {}
        invariant todo <= members.Keys == old(members).Keys
        invariant forall id :: id in todo ==> members[id] == old(members)[id]
        invariant forall id :: id in members && id !in todo ==>
                    members[id] == if id in expired then old(members)[id].(state := Dead) else old(members)[id]
        invariant Enumerates(dead, expired - todo)
        decreases todo
      {
        var id :| id in todo;
        var m := members[id];
        if m.state == Alive && Since(m.lastSeen, now) > timeout {
          members := members[id := m.(state := Dead)];
          dead := dead + [id];
        }
        todo := todo - {id};
      }
      assert expired - todo == expired;
      actions := [];
      for i := 0 to |dead|
        invariant actions == LeaveActions(dead[..i])
        invariant members == Expire(old(members), timeout, now)
      {
        assert dead[..i + 1][..i] == dead[..i];
        actions := actions + [Emit(MemberStateChanged(dead[i], Alive, Dead)), Emit(MemberLeft(dead[i]))];
      }
      assert dead[..|dead|] == dead;
    }

    /** Any alive member's address may be chosen; none is returned exactly when nobody is alive. */
    method SelectPingTarget(choice: nat) returns (target: Option<Addr>)
      ensures target.None? <==> forall id <- members :: members[id].state != Alive
      ensures target.Some? ==>
                exists id <- members :: members[id].state == Alive && members[id].gossipAddr == target.value
    {
      var addrs: seq<Addr> := [];
      var todo := members.Keys;
      while todo != {}
        invariant todo <= members.Keys
        invariant forall a <- addrs :: exists id <- members :: members[id].state == Alive && members[id].gossipAddr == a
        invariant addrs == [] ==> forall id <- members.Keys - todo :: members[id].state != Alive
        decreases todo
      {
        var id :| id in todo;
        if members[id].state == Alive {
          addrs := addrs + [members[id].gossipAddr];
        }
        todo := todo - {id};
      }
      if addrs == [] {
        return None;
      }
      assert addrs[choice % |addrs|] in addrs;
      target := Some(addrs[choice % |addrs|]);
    }
  }

  lemma {:induction false} AbsorbOne(ms: Members, e: Entry, now: nat)
    ensures Absorb(ms, [e], now) == ms[e.id := AliveMember(e, now)]
    ensures Joins(ms, [e], now) == if e.id in ms then [] else [AliveMember(e, now)]
  {
    assert [e][..0] == [];
  }

  lemma {:induction false} AbsorbNext(ms: Members, entries: seq<Entry>, e: Entry, now: nat)
    ensures Absorb(ms, entries + [e], now) == Absorb(ms, entries, now)[e.id := AliveMember(e, now)]
    ensures Joins(ms, entries + [e], now)
         == Joins(ms, entries, now) + if e.id in Absorb(ms, entries, now) then [] else [AliveMember(e, now)]
  {
    assert (entries + [e])[..|entries|] == entries;
  }
}
