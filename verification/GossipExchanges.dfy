/** What an exchange of gossip messages achieves: pings are answered, and joiners learn the members. */
module GossipExchanges {
  import opened Gossip
  import opened GossipCluster
  import GossipRuns

  /** Node n knows the described node as alive, last seen at t. */
  predicate Knows(c: Cluster, n: string, e: Entry, t: nat) {
    && n in c.members && e.id in c.members[n]
    && c.members[n][e.id] == Member(e.id, e.gossipAddr, e.transportAddr, Alive, t, e.incarnation)
  }

  // ----- single deliveries --------------------------------------------------------------

  /** A delivered ping is answered with an ack to where it came from, and its sender is known from then. */
  lemma {:induction false} PingIsAnswered(nodes: Nodes, c: Cluster, s: Step, c': Cluster)
    requires Next(nodes, c, s, c') && s.Deliver? && s.packet.msg.Ping?
    ensures c'.sent == c.sent + {Packet(nodes[s.node].gossipAddr, s.packet.src, Ack(nodes[s.node]))}
    ensures Knows(c', s.node, s.packet.msg.sender, s.now)
  {
    var reply := SendsAreReply(nodes[s.node], c.members[s.node], s.packet.msg, s.packet.src, s.now,
                               c'.members[s.node], s.actions);
    assert Send(s.packet.src, Ack(nodes[s.node])) in s.actions;
    AbsorbOne(c.members[s.node], s.packet.msg.sender, s.now);
  }

  /** A delivered ack makes its sender known as alive, and is not answered. */
  lemma {:induction false} AckRefreshes(nodes: Nodes, c: Cluster, s: Step, c': Cluster)
    requires Next(nodes, c, s, c') && s.Deliver? && s.packet.msg.Ack?
    ensures Knows(c', s.node, s.packet.msg.sender, s.now) && c'.sent == c.sent
  {
    AbsorbOne(c.members[s.node], s.packet.msg.sender, s.now);
    assert forall a <- s.actions :: !a.Send?;
  }

  /** The entries name every member of the map, as the map describes it. */
  ghost predicate NamesAll(entries: seq<Entry>, ms: Members) {
    forall id <- ms :: EntryOf(ms[id]) in entries
  }

  lemma {:induction false} ListsNamesAll(entries: seq<Entry>, ms: Members)
    requires Lists(entries, ms)
    ensures NamesAll(entries, ms) && |entries| == |ms|
  {
    var ids: seq<string> :| Enumerates(ids, ms.Keys) && |entries| == |ids|
      && forall i :: 0 <= i < |ids| ==> ids[i] in ms && entries[i] == EntryOf(ms[ids[i]]);
    forall id <- ms ensures EntryOf(ms[id]) in entries {
      EnumerationNames(entries, ms, ids, id);
    }
    GossipRuns.EnumerationSize(ids, ms.Keys);
    assert |ms.Keys| == |ms|;
  }

  lemma {:induction false} EnumerationNames(entries: seq<Entry>, ms: Members, ids: seq<string>, id: string)
    requires Enumerates(ids, ms.Keys) && |entries| == |ids| && id in ms
    requires forall i :: 0 <= i < |ids| ==> ids[i] in ms && entries[i] == EntryOf(ms[ids[i]])
    ensures EntryOf(ms[id]) in entries
  {
    assert id in ids;
    var i :| 0 <= i < |ids| && ids[i] == id;
    assert entries[i] == EntryOf(ms[id]);
  }

  /** A delivered join makes the joiner known and is answered with a list that names every member, each once,
      the joiner among them. */
  lemma {:induction false} JoinIsAnswered(nodes: Nodes, c: Cluster, s: Step, c': Cluster) returns (list: seq<Entry>)
    requires Next(nodes, c, s, c') && s.Deliver? && s.packet.msg.Join?
    ensures c'.sent == c.sent + {Packet(nodes[s.node].gossipAddr, s.packet.src, MemberList(list))}
    ensures NamesAll(list, c'.members[s.node]) && |list| == |c'.members[s.node]|
    ensures var m := s.packet.msg;
            Knows(c', s.node, Entry(m.id, m.gossipAddr, m.transportAddr, 0), s.now)
  {
    var m := s.packet.msg;
    AbsorbOne(c.members[s.node], Entry(m.id, m.gossipAddr, m.transportAddr, 0), s.now);
    var joined: seq<Member>;
    list, joined := ReplyToJoin(nodes[s.node], c.members[s.node], m, s.packet.src, s.now, c'.members[s.node],
                                s.actions);
    OneSend(nodes[s.node].gossipAddr, Send(s.packet.src, MemberList(list)), joined);
    ListsNamesAll(list, c'.members[s.node]);
  }

  lemma {:induction false} ReplyToJoin(local: Entry, ms: Members, msg: Message, src: Addr, now: nat, ms': Members,
      actions: seq<Action>) returns (list: seq<Entry>, joined: seq<Member>)
    requires Processes(local, ms, msg, src, now, ms', actions) && msg.Join?
    ensures actions == [Send(src, MemberList(list))] + JoinActions(joined) && Lists(list, ms')
  {
    joined := Joins(ms, Heard(local.id, msg), now);
    var reply: seq<Action> :| IsReply(local, msg, src, ms', reply) && actions == reply + JoinActions(joined);
    list := reply[0].message.members;
    assert reply == [Send(src, MemberList(list))];
  }

  lemma {:induction false} OneSend(src: Addr, send: Action, joined: seq<Member>)
    requires send.Send?
    ensures Outgoing(src, [send] + JoinActions(joined)) == {Packet(src, send.to, send.message)}
  {
    var actions := [send] + JoinActions(joined);
    assert actions[0] == send;
    assert forall a <- actions :: a.Send? ==> a == send;
  }

  /** A delivered list makes everybody it names known as alive, except the receiver, and is not answered. */
  lemma {:induction false} ListIsLearned(nodes: Nodes, c: Cluster, s: Step, c': Cluster, e: Entry)
    requires WellConfigured(nodes) && Next(nodes, c, s, c') && s.Deliver? && s.packet.msg.MemberList?
    requires e in s.packet.msg.members && e.id != s.node
    ensures e.id in c'.members[s.node]
    ensures c'.members[s.node][e.id].state == Alive && c'.members[s.node][e.id].lastSeen == s.now
    ensures c'.sent == c.sent
  {
    var reply := SendsAreReply(nodes[s.node], c.members[s.node], s.packet.msg, s.packet.src, s.now,
                               c'.members[s.node], s.actions);
    OthersKeeps(s.node, s.packet.msg.members);
    GossipRuns.AbsorbRefreshes(c.members[s.node], Heard(s.node, s.packet.msg), s.now, e.id);
  }

  // ----- round trips --------------------------------------------------------------------

  /** Steps i, j and k are a ping by a of b, its delivery and the delivery of the ack. */
  predicate PingExchange(nodes: Nodes, steps: seq<Step>, i: nat, j: nat, k: nat, a: string, b: string) {
    && i < j < k < |steps| && a in nodes && b in nodes
    && steps[i] == PingMember(a, b)
    && steps[j].Deliver? && steps[j].node == b
    && steps[j].packet == Packet(nodes[a].gossipAddr, nodes[b].gossipAddr, Ping(nodes[a]))
    && steps[k].Deliver? && steps[k].node == a
    && steps[k].packet == Packet(nodes[b].gossipAddr, nodes[a].gossipAddr, Ack(nodes[b]))
  }

  /** A ping, its delivery and the delivery of its ack: each packet is in the network when its turn comes, and
      in the end both know each other as alive since they last heard. */
  lemma {:induction false} PingRoundTrip(nodes: Nodes, states: seq<Cluster>, steps: seq<Step>, i: nat, j: nat, k: nat,
      a: string, b: string)
    requires WellConfigured(nodes) && Behaviour(nodes, states, steps) && forall s <- steps :: !DeliversOwnJoin(s)
    requires PingExchange(nodes, steps, i, j, k, a, b)
    ensures steps[j].packet in states[i + 1].sent && steps[k].packet in states[j + 1].sent
    ensures Knows(states[j + 1], b, nodes[a], steps[j].now)
    ensures Knows(states[k + 1], a, nodes[b], steps[k].now)
  {
    AlwaysTruthful(nodes, states, steps, i);
    assert MapOk(nodes, a, states[i].members[a]);
    assert Next(nodes, states[i], steps[i], states[i + 1]);
    assert Next(nodes, states[j], steps[j], states[j + 1]);
    PingIsAnswered(nodes, states[j], steps[j], states[j + 1]);
    assert Next(nodes, states[k], steps[k], states[k + 1]);
    AckRefreshes(nodes, states[k], steps[k], states[k + 1]);
  }

  /** Steps i and j are a bootstrap of a from b and the delivery of its join. */
  predicate JoinExchange(nodes: Nodes, steps: seq<Step>, i: nat, j: nat, a: string, b: string) {
    && i < j < |steps| && a in nodes && b in nodes && a != b
    && steps[i] == Bootstrap(a, nodes[b].gossipAddr)
    && steps[j].Deliver? && steps[j].node == b
    && steps[j].packet == Packet(nodes[a].gossipAddr, nodes[b].gossipAddr,
                                 Join(a, nodes[a].gossipAddr, nodes[a].transportAddr))
  }

  /** Everybody in the map is known to node n, as alive since t and with the true addresses. */
  ghost predicate KnowsAllOf(nodes: Nodes, c: Cluster, n: string, ms: Members, t: nat)
    requires n in c.members
  {
    forall id <- ms :: id != n ==>
      && id in c.members[n] && c.members[n][id].state == Alive && c.members[n][id].lastSeen == t
      && Truthful(nodes, id, c.members[n][id].gossipAddr, c.members[n][id].transportAddr)
  }

  /** A bootstrap and the delivery of its join put a list into the network for the joiner; whenever that list
      is delivered, the joiner knows everybody else the peer knew when it answered, and the peer knows
      the joiner from the moment of the join. */
  lemma {:induction false} JoinRoundTrip(nodes: Nodes, states: seq<Cluster>, steps: seq<Step>, i: nat, j: nat,
      a: string, b: string) returns (list: Packet)
    requires WellConfigured(nodes) && Behaviour(nodes, states, steps) && forall s <- steps :: !DeliversOwnJoin(s)
    requires JoinExchange(nodes, steps, i, j, a, b)
    ensures steps[j].packet in states[i + 1].sent
    ensures Knows(states[j + 1], b, nodes[a].(incarnation := 0), steps[j].now)
    ensures list.dst == nodes[a].gossipAddr && list in states[j + 1].sent
    ensures b in states[j + 1].members
    ensures forall k :: j < k < |steps| && steps[k].Deliver? && steps[k].node == a && steps[k].packet == list ==>
              a in states[k + 1].members
              && KnowsAllOf(nodes, states[k + 1], a, states[j + 1].members[b], steps[k].now)
  {
    assert Next(nodes, states[i], steps[i], states[i + 1]);
    assert Next(nodes, states[j], steps[j], states[j + 1]);
    var entries := JoinIsAnswered(nodes, states[j], steps[j], states[j + 1]);
    list := Packet(nodes[b].gossipAddr, nodes[a].gossipAddr, MemberList(entries));
    forall k | j < k < |steps| && steps[k].Deliver? && steps[k].node == a && steps[k].packet == list
      ensures a in states[k + 1].members
      ensures KnowsAllOf(nodes, states[k + 1], a, states[j + 1].members[b], steps[k].now)
    {
      DeliveryTeaches(nodes, states, steps, j, k, b);
    }
  }

  /** A list of what a peer knew at some time teaches its receiver all of that whenever it is delivered. */
  lemma {:induction false} DeliveryTeaches(nodes: Nodes, states: seq<Cluster>, steps: seq<Step>, j: nat, k: nat,
      b: string)
    requires WellConfigured(nodes) && Behaviour(nodes, states, steps) && forall s <- steps :: !DeliversOwnJoin(s)
    requires j < k < |steps| && steps[k].Deliver? && steps[k].packet.msg.MemberList?
    requires b in nodes && b in states[j + 1].members
    requires NamesAll(steps[k].packet.msg.members, states[j + 1].members[b])
    ensures steps[k].node in states[k + 1].members
    ensures KnowsAllOf(nodes, states[k + 1], steps[k].node, states[j + 1].members[b], steps[k].now)
  {
    var ms, c, s, c' := states[j + 1].members[b], states[k], steps[k], states[k + 1];
    AlwaysTruthful(nodes, states, steps, j + 1);
    assert MapOk(nodes, b, ms);
    AlwaysTruthful(nodes, states, steps, k + 1);
    StepOf(nodes, states, steps, k);
    ListTeaches(nodes, c, s, c', b, ms);
  }

  lemma {:induction false} StepOf(nodes: Nodes, states: seq<Cluster>, steps: seq<Step>, k: nat)
    requires Behaviour(nodes, states, steps) && k < |steps|
    ensures Next(nodes, states[k], steps[k], states[k + 1])
  {
  }

  lemma {:induction false} ListTeaches(nodes: Nodes, c: Cluster, s: Step, c': Cluster, peer: string, ms: Members)
    requires WellConfigured(nodes) && Next(nodes, c, s, c') && Invariant(nodes, c') && MapOk(nodes, peer, ms)
    requires s.Deliver? && s.packet.msg.MemberList? && NamesAll(s.packet.msg.members, ms)
    ensures KnowsAllOf(nodes, c', s.node, ms, s.now)
  {
    assert MapOk(nodes, s.node, c'.members[s.node]);
    forall id <- ms | id != s.node
      ensures id in c'.members[s.node] && c'.members[s.node][id].state == Alive
      ensures c'.members[s.node][id].lastSeen == s.now
    {
      ListIsLearned(nodes, c, s, c', EntryOf(ms[id]));
    }
  }
}
