/** A cluster of gossip nodes over a network that loses, duplicates and reorders datagrams. */
module GossipCluster {
  import opened Gossip

  datatype Packet = Packet(src: Addr, dst: Addr, msg: Message)

  /** Packets stay in `sent` for ever: delivering one twice, late, or never are all possible. */
  datatype Cluster = Cluster(members: map<string, Members>, sent: set<Packet>)

  type Nodes = map<string, Entry>

  /** Every node describes itself truthfully, and gossip addresses are distinct. */
  ghost predicate WellConfigured(nodes: Nodes) {
    && (forall n <- nodes :: nodes[n].id == n)
    && (forall m <- nodes, n <- nodes :: m != n ==> nodes[m].gossipAddr != nodes[n].gossipAddr)
  }

  ghost predicate Init(nodes: Nodes, c: Cluster) {
    c.members.Keys == nodes.Keys && (forall n <- nodes :: c.members[n] == map[]) && c.sent == {}
  }

  datatype Step =
    | Bootstrap(node: string, peer: Addr)
    | Deliver(node: string, packet: Packet, now: nat, actions: seq<Action>)
    | PingMember(node: string, target: string)
    | CheckFailures(node: string, timeout: nat, now: nat)

  ghost function Outgoing(src: Addr, actions: seq<Action>): set<Packet> {
    set a | a in actions && a.Send? :: Packet(src, a.to, a.message)
  }

  ghost predicate Next(nodes: Nodes, c: Cluster, s: Step, c': Cluster) {
    && s.node in nodes && s.node in c.members && c'.members.Keys == c.members.Keys
    && (forall n <- c.members :: n != s.node ==> c'.members[n] == c.members[n])
    && var local, ms, ms' := nodes[s.node], c.members[s.node], c'.members[s.node];
    match s
    case Bootstrap(_, peer) =>
      && ms' == ms
      && c'.sent == c.sent + {Packet(local.gossipAddr, peer, Join(local.id, local.gossipAddr, local.transportAddr))}
    case Deliver(_, packet, now, actions) =>
      && packet in c.sent && packet.dst == local.gossipAddr
      && Processes(local, ms, packet.msg, packet.src, now, ms', actions)
      && c'.sent == c.sent + Outgoing(local.gossipAddr, actions)
    case PingMember(_, target) =>
      && target in ms && ms[target].state == Alive && ms' == ms
      && c'.sent == c.sent + {Packet(local.gossipAddr, ms[target].gossipAddr, Ping(local))}
    case CheckFailures(_, timeout, now) =>
      ms' == Expire(ms, timeout, now) && c'.sent == c.sent
  }

  /** What an entry claims is true of a real node; the incarnation is carried along but never compared. */
  ghost predicate Truthful(nodes: Nodes, id: string, gossipAddr: Addr, transportAddr: Addr) {
    id in nodes && nodes[id].gossipAddr == gossipAddr && nodes[id].transportAddr == transportAddr
  }

  ghost predicate MapOk(nodes: Nodes, owner: string, ms: Members) {
    forall id <- ms ::
      && id != owner && ms[id].nodeId == id && ms[id].state != Suspect
      && Truthful(nodes, id, ms[id].gossipAddr, ms[id].transportAddr)
  }

  ghost predicate EntriesTruthful(nodes: Nodes, entries: seq<Entry>) {
    forall e <- entries :: Truthful(nodes, e.id, e.gossipAddr, e.transportAddr)
  }

  ghost predicate PacketOk(nodes: Nodes, p: Packet) {
    match p.msg
    case Ping(e) => Truthful(nodes, e.id, e.gossipAddr, e.transportAddr) && p.src == e.gossipAddr != p.dst
    case Ack(e) => Truthful(nodes, e.id, e.gossipAddr, e.transportAddr) && p.src == e.gossipAddr != p.dst
    case Join(id, g, t) => Truthful(nodes, id, g, t) && p.src == g
    case MemberList(entries) => EntriesTruthful(nodes, entries)
  }

  ghost predicate Invariant(nodes: Nodes, c: Cluster) {
    && c.members.Keys == nodes.Keys
    && (forall n <- nodes :: MapOk(nodes, n, c.members[n]))
    && (forall p <- c.sent :: PacketOk(nodes, p))
  }

  /** A node receives the join it sent to itself. */
  predicate DeliversOwnJoin(s: Step) {
    s.Deliver? && s.packet.msg.Join? && s.packet.msg.id == s.node
  }

  predicate BootstrapsItself(nodes: Nodes, s: Step) {
    s.Bootstrap? && s.node in nodes && s.peer == nodes[s.node].gossipAddr
  }

  /** Some node is in its own member map. */
  predicate SelfListed(c: Cluster) {
    exists n <- c.members :: n in c.members[n]
  }

  // ----- preservation -------------------------------------------------------------------

  lemma {:induction false} OthersKeeps(local: string, entries: seq<Entry>)
    ensures forall e :: e in Others(local, entries) <==> e in entries && e.id != local
  {
    if entries != [] {
      var n := |entries| - 1;
      OthersKeeps(local, entries[..n]);
      assert forall e :: e in entries <==> e in entries[..n] || e == entries[n];
    }
  }

  /** What a packet for this node makes it insert is true, and is never the node itself. */
  lemma {:induction false} HeardIsTruthful(nodes: Nodes, owner: string, p: Packet)
    requires owner in nodes && PacketOk(nodes, p) && p.dst == nodes[owner].gossipAddr
    requires p.msg.Join? ==> p.msg.id != owner
    ensures EntriesTruthful(nodes, Heard(owner, p.msg))
    ensures forall e <- Heard(owner, p.msg) :: e.id != owner
  {
    if p.msg.MemberList? {
      OthersKeeps(owner, p.msg.members);
    }
  }

  lemma {:induction false} AbsorbKeepsMap(nodes: Nodes, owner: string, ms: Members, entries: seq<Entry>, now: nat)
    requires MapOk(nodes, owner, ms) && EntriesTruthful(nodes, entries) && forall e <- entries :: e.id != owner
    ensures MapOk(nodes, owner, Absorb(ms, entries, now))
  {
    if entries != [] {
      AbsorbKeepsMap(nodes, owner, ms, entries[..|entries| - 1], now);
    }
  }

  lemma {:induction false} ListIsTruthful(nodes: Nodes, owner: string, ms: Members, entries: seq<Entry>)
    requires MapOk(nodes, owner, ms) && Lists(entries, ms)
    ensures EntriesTruthful(nodes, entries)
  {
    var ids: seq<string> :| Enumerates(ids, ms.Keys) && |entries| == |ids|
      && forall i :: 0 <= i < |ids| ==> ids[i] in ms && entries[i] == EntryOf(ms[ids[i]]);
    forall e | e in entries ensures Truthful(nodes, e.id, e.gossipAddr, e.transportAddr) {
      var i :| 0 <= i < |entries| && entries[i] == e;
      assert ids[i] in ms;
    }
  }

  /** What a node sends back is exactly its reply: announcements are not sent. */
  lemma {:induction false} SendsAreReply(local: Entry, ms: Members, msg: Message, src: Addr, now: nat, ms': Members,
      actions: seq<Action>) returns (reply: seq<Action>)
    requires Processes(local, ms, msg, src, now, ms', actions)
    ensures IsReply(local, msg, src, ms', reply)
    ensures forall a <- actions :: a.Send? ==> a in reply
  {
    var joins := JoinActions(Joins(ms, Heard(local.id, msg), now));
    reply :| IsReply(local, msg, src, ms', reply) && actions == reply + joins;
  }

  lemma {:induction false} ReplyIsOk(nodes: Nodes, owner: string, p: Packet, now: nat, ms: Members, ms': Members,
      actions: seq<Action>)
    requires WellConfigured(nodes) && owner in nodes && PacketOk(nodes, p) && p.dst == nodes[owner].gossipAddr
    requires p.msg.Join? ==> p.msg.id != owner
    requires MapOk(nodes, owner, ms') && Processes(nodes[owner], ms, p.msg, p.src, now, ms', actions)
    ensures forall q <- Outgoing(p.dst, actions) :: PacketOk(nodes, q)
  {
    var reply := SendsAreReply(nodes[owner], ms, p.msg, p.src, now, ms', actions);
    forall a <- actions | a.Send? ensures PacketOk(nodes, Packet(p.dst, a.to, a.message)) {
      assert a in reply;
      if a.message.MemberList? {
        ListIsTruthful(nodes, owner, ms', a.message.members);
      }
    }
  }

  lemma {:induction false} StepKeepsInvariant(nodes: Nodes, c: Cluster, s: Step, c': Cluster)
    requires WellConfigured(nodes) && Invariant(nodes, c) && Next(nodes, c, s, c') && !DeliversOwnJoin(s)
    ensures Invariant(nodes, c')
  {
    var ms := c.members[s.node];
    assert MapOk(nodes, s.node, ms);
    if s.Deliver? {
      var entries := Heard(s.node, s.packet.msg);
      HeardIsTruthful(nodes, s.node, s.packet);
      AbsorbKeepsMap(nodes, s.node, ms, entries, s.now);
      ReplyIsOk(nodes, s.node, s.packet, s.now, ms, c'.members[s.node], s.actions);
    } else if s.PingMember? {
      assert nodes[s.target].gossipAddr != nodes[s.node].gossipAddr;
    }
    assert MapOk(nodes, s.node, c'.members[s.node]);
    forall n <- nodes ensures MapOk(nodes, n, c'.members[n]) {
      assert n != s.node ==> c'.members[n] == c.members[n];
    }
  }

  /** A behaviour: states linked by steps. */
  ghost predicate Behaviour(nodes: Nodes, states: seq<Cluster>, steps: seq<Step>) {
    && |states| == |steps| + 1 && Init(nodes, states[0])
    && forall i :: 0 <= i < |steps| ==> Next(nodes, states[i], steps[i], states[i + 1])
  }

  /** In every state of every behaviour in which no node receives its own join, whatever is lost, repeated
      or reordered: every id in any map or packet is a real node with its true addresses, keys match,
      nobody is Suspect, and no node lists itself. */
  lemma {:induction false} AlwaysTruthful(nodes: Nodes, states: seq<Cluster>, steps: seq<Step>, i: nat)
    requires WellConfigured(nodes) && Behaviour(nodes, states, steps) && i < |states|
    requires forall s <- steps :: !DeliversOwnJoin(s)
    ensures Invariant(nodes, states[i]) && !SelfListed(states[i])
  {
    if i > 0 {
      AlwaysTruthful(nodes, states, steps, i - 1);
      assert Next(nodes, states[i - 1], steps[i - 1], states[i - 1 + 1]);
      StepKeepsInvariant(nodes, states[i - 1], steps[i - 1], states[i]);
    }
  }

  /** That hypothesis is exact: over a behaviour, no node ever lists itself if and only if no node ever
      receives its own join. */
  lemma {:induction false} SelfListedIffOwnJoin(nodes: Nodes, states: seq<Cluster>, steps: seq<Step>)
    requires WellConfigured(nodes) && Behaviour(nodes, states, steps)
    ensures (forall c <- states :: !SelfListed(c)) <==> (forall s <- steps :: !DeliversOwnJoin(s))
  {
    if forall s <- steps :: !DeliversOwnJoin(s) {
      forall c <- states ensures !SelfListed(c) {
        var i :| 0 <= i < |states| && states[i] == c;
        AlwaysTruthful(nodes, states, steps, i);
      }
    } else {
      var i :| 0 <= i < |steps| && DeliversOwnJoin(steps[i]);
      assert Next(nodes, states[i], steps[i], states[i + 1]);
      var s, p := steps[i], steps[i].packet.msg;
      AbsorbOne(states[i].members[s.node], Entry(p.id, p.gossipAddr, p.transportAddr, 0), s.now);
      assert s.node in states[i + 1].members[s.node];
      assert SelfListed(states[i + 1]) && states[i + 1] in states;
    }
  }

  /** Joins in flight come from the true address of their node and go elsewhere. */
  ghost predicate JoinsGoAbroad(nodes: Nodes, c: Cluster) {
    forall p <- c.sent :: p.msg.Join? ==>
      p.msg.id in nodes && p.dst != nodes[p.msg.id].gossipAddr
  }

  lemma {:induction false} StepKeepsJoinsAbroad(nodes: Nodes, c: Cluster, s: Step, c': Cluster)
    requires WellConfigured(nodes) && JoinsGoAbroad(nodes, c) && Next(nodes, c, s, c') && !BootstrapsItself(nodes, s)
    ensures JoinsGoAbroad(nodes, c') && !DeliversOwnJoin(s)
  {
    if s.Deliver? {
      RepliesAreNoJoins(nodes[s.node], c.members[s.node], s.packet.msg, s.packet.src, s.now, c'.members[s.node],
                        s.actions);
    }
  }

  lemma {:induction false} RepliesAreNoJoins(local: Entry, ms: Members, msg: Message, src: Addr, now: nat, ms': Members,
      actions: seq<Action>)
    requires Processes(local, ms, msg, src, now, ms', actions)
    ensures forall a <- actions :: a.Send? ==> !a.message.Join?
  {
    var reply := SendsAreReply(local, ms, msg, src, now, ms', actions);
    assert forall a <- reply :: a.Send? ==> !a.message.Join?;
  }

  /** A configuration can guarantee it: where no node bootstraps from its own address, none ever receives
      its own join, so the invariant holds throughout. */
  lemma {:induction false} NoSelfBootstrapSuffices(nodes: Nodes, states: seq<Cluster>, steps: seq<Step>, i: nat)
    requires WellConfigured(nodes) && Behaviour(nodes, states, steps) && i < |states|
    requires forall s <- steps :: !BootstrapsItself(nodes, s)
    ensures JoinsGoAbroad(nodes, states[i]) && forall s <- steps[..i] :: !DeliversOwnJoin(s)
  {
    if i > 0 {
      NoSelfBootstrapSuffices(nodes, states, steps, i - 1);
      assert Next(nodes, states[i - 1], steps[i - 1], states[i - 1 + 1]);
      StepKeepsJoinsAbroad(nodes, states[i - 1], steps[i - 1], states[i]);
      assert steps[..i] == steps[..i - 1] + [steps[i - 1]];
    }
  }

  lemma {:induction false} TruthfulWithoutSelfBootstrap(nodes: Nodes, states: seq<Cluster>, steps: seq<Step>, i: nat)
    requires WellConfigured(nodes) && Behaviour(nodes, states, steps) && i < |states|
    requires forall s <- steps :: !BootstrapsItself(nodes, s)
    ensures Invariant(nodes, states[i]) && !SelfListed(states[i])
  {
    NoSelfBootstrapSuffices(nodes, states, steps, |steps|);
    assert steps[..|steps|] == steps;
    AlwaysTruthful(nodes, states, steps, i);
  }
}
