/** Session affinity: bindings of clients to backends, resolution, expiry, and runs of all of them. */
module Affinity {
  import opened Common
  import opened LoadBalancing

  datatype Binding = Binding(backendId: string, createdAt: nat, lastSeen: nat)

  /** Bindings that a garbage-collection pass keeps. */
  function Unexpired(bindings: map<string, Binding>, ttl: nat, now: nat): map<string, Binding> {
    map c | c in bindings && Since(bindings[c].lastSeen, now) <= ttl :: bindings[c]
  }

  function Expired(bindings: map<string, Binding>, ttl: nat, now: nat): set<string> {
    set c | c in bindings && Since(bindings[c].lastSeen, now) > ttl
  }

  lemma {:induction false} ExpiryCounts(bindings: map<string, Binding>, ttl: nat, now: nat)
    ensures bindings - Expired(bindings, ttl, now) == Unexpired(bindings, ttl, now)
    ensures |Expired(bindings, ttl, now)| == |bindings| - |Unexpired(bindings, ttl, now)|
  {
    var gone, kept := Expired(bindings, ttl, now), Unexpired(bindings, ttl, now);
    assert bindings.Keys == kept.Keys + gone;
    assert |bindings.Keys| == |bindings| && |kept.Keys| == |kept|;
  }

  class BindingRepository {
    var bindings: map<string, Binding>

    constructor ()
      ensures bindings == map[]
    {
      bindings := map[];
    }

    method Get(client: string) returns (r: Option<Binding>)
      ensures r == if client in bindings then Some(bindings[client]) else None
    {
      r := if client in bindings then Some(bindings[client]) else None;
    }

    method Set(client: string, binding: Binding)
      modifies this
      ensures bindings == old(bindings)[client := binding]
    {
      bindings := bindings[client := binding];
    }

    method Remove(client: string)
      modifies this
      ensures bindings == old(bindings) - {client}
    {
      bindings := bindings - {client};
    }

    method Touch(client: string, now: nat)
      modifies this
      ensures bindings == if client in old(bindings)
                          then old(bindings)[client := old(bindings)[client].(lastSeen := now)] else old(bindings)
    {
      if client in bindings {
        bindings := bindings[client := bindings[client].(lastSeen := now)];
      }
    }

    method CollectExpired(ttl: nat, now: nat) returns (expired: set<string>)
      ensures expired == Expired(bindings, ttl, now)
    {
      expired := {};
      var todo := bindings.Keys;
      while todo != {}
        invariant todo <= bindings.Keys
        invariant expired == Expired(bindings, ttl, now) - todo
        decreases todo
      {
        var c :| c in todo;
        if Since(bindings[c].lastSeen, now) > ttl {
          expired := expired + {c};
        }
        todo := todo - {c};
      }
    }

    method RemoveAll(clients: set<string>)
      modifies this
      ensures bindings == old(bindings) - clients
    {
      var todo := clients;
      while todo != {}
        invariant todo <= clients
        invariant bindings.Keys == old(bindings).Keys - (clients - todo)
        invariant forall c <- bindings :: bindings[c] == old(bindings)[c]
        decreases todo
      {
        var c :| c in todo;
        Remove(c);
        todo := todo - {c};
      }
    }

    /** Expired keys are collected first and removed afterwards. */
    method CleanupExpired(ttl: nat, now: nat) returns (count: nat)
      modifies this
      ensures bindings == Unexpired(old(bindings), ttl, now)
      ensures count == |old(bindings)| - |bindings|
    {
      var toRemove := CollectExpired(ttl, now);
      count := |toRemove|;
      ExpiryCounts(bindings, ttl, now);
      RemoveAll(toRemove);
    }
  }

  // ----- resolution ---------------------------------------------------------------------

  function FindById(backends: seq<Backend>, id: string): Option<Backend> {
    if backends == [] then None
    else if backends[0].id == id then Some(backends[0])
    else FindById(backends[1..], id)
  }

  function Healthy(backends: seq<Backend>): seq<Backend> {
    if backends == [] then []
    else Healthy(backends[..|backends| - 1])
         + if backends[|backends| - 1].healthy then [backends[|backends| - 1]] else []
  }

  datatype World = World(bindings: map<string, Binding>, backends: seq<Backend>, counts: map<string, nat>)

  /** The backend a bound client goes back to, if it is still listed and healthy. */
  function Bound(w: World, client: string): Option<Backend> {
    if client !in w.bindings then None
    else
      var b := FindById(w.backends, w.bindings[client].backendId);
      if b.Some? && b.value.healthy then b else None
  }

  function FreshPick(w: World, localRegion: string, geo: Option<Geo>): Option<Backend> {
    var healthy := Healthy(w.backends);
    match Pick(Query(localRegion, geo, w.counts), healthy)
    case Some(i) => Some(healthy[i])
    case None => None
  }

  function Resolved(w: World, localRegion: string, client: string, geo: Option<Geo>): Option<Backend> {
    if Bound(w, client).Some? then Bound(w, client) else FreshPick(w, localRegion, geo)
  }

  function AfterResolve(w: World, localRegion: string, client: string, geo: Option<Geo>, now: nat): map<string,
      Binding> {
    if Bound(w, client).Some? then
      w.bindings[client := w.bindings[client].(lastSeen := now)]
    else
      match FreshPick(w, localRegion, geo)
      case Some(b) => w.bindings[client := Binding(b.id, now, now)]
      case None => w.bindings - {client}
  }

  class ProxyService {
    const localRegion: string
    const repo: BindingRepository
    var backends: seq<Backend>
    var counts: map<string, nat>

    constructor (localRegion: string, repo: BindingRepository)
      ensures this.localRegion == localRegion && this.repo == repo && backends == [] && counts == map[]
    {
      this.localRegion, this.repo, backends, counts := localRegion, repo, [], map[];
    }

    ghost function Value(): World
      reads this, repo
    {
      World(repo.bindings, backends, counts)
    }

    method GetById(id: string) returns (r: Option<Backend>)
      ensures r == FindById(backends, id)
    {
      for i := 0 to |backends|
        invariant FindById(backends[i..], id) == FindById(backends, id)
      {
        if backends[i].id == id {
          return Some(backends[i]);
        }
        assert backends[i..][1..] == backends[i + 1..];
      }
      r := None;
    }

    method GetHealthy() returns (r: seq<Backend>)
      ensures r == Healthy(backends)
    {
      r := [];
      for i := 0 to |backends|
        invariant r == Healthy(backends[..i])
      {
        assert backends[..i + 1][..i] == backends[..i];
        if backends[i].healthy {
          r := r + [backends[i]];
        }
      }
      assert backends[..|backends|] == backends;
    }

    /** `geo` is what the geo resolver, or the caller, says about the client. */
    method ResolveBackend(client: string, geo: Option<Geo>, now: nat) returns (r: Option<Backend>)
      modifies repo
      ensures r == Resolved(old(Value()), localRegion, client, geo)
      ensures repo.bindings == AfterResolve(old(Value()), localRegion, client, geo, now)
    {
      var binding := repo.Get(client);
      if binding.Some? {
        repo.Touch(client, now);
        var backend := GetById(binding.value.backendId);
        if backend.Some? && backend.value.healthy {
          return backend;
        }
        repo.Remove(client);
      }
      assert repo.bindings == old(repo.bindings) - {client};
      var healthy := GetHealthy();
      if healthy == [] {
        return None;
      }
      var picked := PickBackend(Query(localRegion, geo, counts), healthy);
      if picked.None? {
        return None;
      }
      repo.Set(client, Binding(picked.value.id, now, now));
      assert repo.bindings == old(repo.bindings)[client := Binding(picked.value.id, now, now)];
      r := picked;
    }
  }

  lemma {:induction false} HealthyKeeps(backends: seq<Backend>)
    ensures forall b :: b in Healthy(backends) <==> b in backends && b.healthy
  {
    if backends != [] {
      var n := |backends| - 1;
      HealthyKeeps(backends[..n]);
      assert forall b :: b in backends <==> b in backends[..n] || b == backends[n];
    }
  }

  lemma {:induction false} FoundIsListed(backends: seq<Backend>, id: string)
    ensures FindById(backends, id).Some? ==>
              FindById(backends, id).value in backends && FindById(backends, id).value.id == id
    ensures FindById(backends, id).None? <==> forall b <- backends :: b.id != id
  {
    if backends != [] {
      FoundIsListed(backends[1..], id);
      assert forall b :: b in backends <==> b == backends[0] || b in backends[1..];
    }
  }

  /** After every resolve: a backend is returned exactly when the client ends up bound, to that backend,
      which is listed and healthy; and no other client's binding changes. It fails only if no bound
      backend is usable and none is healthy with room. */
  lemma {:induction false} ResolveBinds(w: World, localRegion: string, client: string, geo: Option<Geo>, now: nat)
    ensures var r, after := Resolved(w, localRegion, client, geo), AfterResolve(w, localRegion, client, geo, now);
            && (client in after <==> r.Some?)
            && (r.Some? ==> after[client].backendId == r.value.id && after[client].lastSeen == now
                            && r.value in w.backends && r.value.healthy)
            && (r.None? ==> forall b <- w.backends :: !Eligible(Query(localRegion, geo, w.counts), b))
            && after - {client} == w.bindings - {client}
  {
    if Bound(w, client).Some? {
      FoundIsListed(w.backends, w.bindings[client].backendId);
    } else {
      FreshPickIsListed(w, localRegion, geo);
    }
  }

  lemma {:induction false} FreshPickIsListed(w: World, localRegion: string, geo: Option<Geo>)
    ensures var r := FreshPick(w, localRegion, geo);
            && (r.Some? ==> r.value in w.backends && r.value.healthy)
            && (r.None? ==> forall b <- w.backends :: !Eligible(Query(localRegion, geo, w.counts), b))
  {
    var q, healthy := Query(localRegion, geo, w.counts), Healthy(w.backends);
    HealthyKeeps(w.backends);
    PickIsEarliestLeast(q, healthy);
    var r := Pick(q, healthy);
    if r.Some? {
      assert healthy[r.value] in healthy;
    } else {
      forall b <- w.backends ensures !Eligible(q, b) {
        assert b.healthy ==> b in healthy;
      }
    }
  }

  /** The client is bound to a listed, healthy backend. */
  ghost predicate HasUsableBinding(w: World, client: string) {
    client in w.bindings && Serves(w.backends, w.bindings[client].backendId)
  }

  predicate Serves(backends: seq<Backend>, id: string) {
    var b := FindById(backends, id);
    b.Some? && b.value.healthy
  }

  /** Where the i-th healthy backend is listed: after exactly the healthy ones that precede it. */
  lemma {:induction false} HealthyPosition(backends: seq<Backend>, i: nat) returns (p: nat)
    requires i < |Healthy(backends)|
    ensures p < |backends| && backends[p] == Healthy(backends)[i]
    ensures forall j :: 0 <= j < p && backends[j].healthy ==> backends[j] in Healthy(backends)[..i]
  {
    var n := |backends| - 1;
    var front := Healthy(backends[..n]);
    if i < |front| {
      p := HealthyPosition(backends[..n], i);
      assert Healthy(backends)[..i] == front[..i];
    } else {
      p := n;
      HealthyKeeps(backends[..n]);
      assert Healthy(backends)[..i] == front;
    }
  }

  /** A client without a usable binding gets, if any listed backend is eligible, the earliest one of least
      score for its own location and the current load, and is bound to it anew. */
  lemma {:induction false} FreshChoice(w: World, localRegion: string, client: string, geo: Option<Geo>, now: nat)
    requires !HasUsableBinding(w, client)
    ensures var q, r := Query(localRegion, geo, w.counts), Resolved(w, localRegion, client, geo);
            var after := AfterResolve(w, localRegion, client, geo, now);
            && (r.None? ==> forall b <- w.backends :: !Eligible(q, b))
            && (r.Some? ==> client in after && after[client] == Binding(r.value.id, now, now)
                            && exists p: nat :: EarliestLeast(q, w.backends, p) && w.backends[p] == r.value)
  {
    var q, healthy := Query(localRegion, geo, w.counts), Healthy(w.backends);
    FreshPickIsListed(w, localRegion, geo);
    PickIsEarliestLeast(q, healthy);
    if Pick(q, healthy).Some? {
      var i := Pick(q, healthy).value;
      var p := HealthyPosition(w.backends, i);
      HealthyEarliest(q, w.backends, i, p);
    }
  }

  lemma {:induction false} HealthyEarliest(q: Query, backends: seq<Backend>, i: nat, p: nat)
    requires i < |Healthy(backends)| && EarliestLeast(q, Healthy(backends), i)
    requires p < |backends| && backends[p] == Healthy(backends)[i]
    requires forall j :: 0 <= j < p && backends[j].healthy ==> backends[j] in Healthy(backends)[..i]
    ensures EarliestLeast(q, backends, p)
  {
    var healthy := Healthy(backends);
    HealthyKeeps(backends);
    forall j | 0 <= j < |backends| && Eligible(q, backends[j]) ensures Score(q, backends[p]) <= Score(q, backends[j]) {
      assert backends[j] in healthy;
      var k :| 0 <= k < |healthy| && healthy[k] == backends[j];
    }
    forall j | 0 <= j < p && Eligible(q, backends[j]) ensures Score(q, backends[p]) < Score(q, backends[j]) {
      assert backends[j] in healthy[..i];
      var k :| 0 <= k < i && healthy[..i][k] == backends[j];
      assert healthy[k] == backends[j];
    }
  }

  /** With capped limits no eligible backend is closer to the client than the one it gets, which meets every
      criterion of proximity that some eligible backend meets, or a better one. */
  lemma {:induction false} FreshChoiceIsNearest(w: World, localRegion: string, client: string, geo: Option<Geo>,
      b: Backend, k: nat)
    requires !HasUsableBinding(w, client) && forall x <- w.backends :: Capped(x)
    requires b in w.backends && Eligible(Query(localRegion, geo, w.counts), b)
    ensures var q, r := Query(localRegion, geo, w.counts), Resolved(w, localRegion, client, geo);
            && r.Some? && Eligible(q, r.value) && !Closer(q, b, r.value)
            && (Near(q, b, k) ==> exists l: nat :: l <= k && Near(q, r.value, l))
  {
    var q, r := Query(localRegion, geo, w.counts), Resolved(w, localRegion, client, geo);
    FreshChoice(w, localRegion, client, geo, 0);
    var p: nat :| EarliestLeast(q, w.backends, p) && w.backends[p] == r.value;
    SelectionIsLexicographic(q, w.backends, p);
    var j :| 0 <= j < |w.backends| && w.backends[j] == b;
    assert !Closer(q, w.backends[j], w.backends[p]);
    assert Near(q, b, k) ==> Tier(q, r.value) <= Tier(q, b) <= k;
    assert Near(q, r.value, Tier(q, r.value));
  }

  // ----- runs ---------------------------------------------------------------------------

  datatype Step =
    | Resolve(client: string, geo: Option<Geo>, now: nat)
    | Collect(now: nat)
    | Reload(backends: seq<Backend>)
    | ClearBinding(client: string)
    | Connections(counts: map<string, nat>)

  function Next(w: World, localRegion: string, ttl: nat, s: Step): World {
    match s
    case Resolve(client, geo, now) => w.(bindings := AfterResolve(w, localRegion, client, geo, now))
    case Collect(now) => w.(bindings := Unexpired(w.bindings, ttl, now))
    case Reload(backends) => w.(backends := backends)
    case ClearBinding(client) => w.(bindings := w.bindings - {client})
    case Connections(counts) => w.(counts := counts)
  }

  function After(w: World, localRegion: string, ttl: nat, steps: seq<Step>): World {
    if steps == [] then w
    else Next(After(w, localRegion, ttl, steps[..|steps| - 1]), localRegion, ttl, steps[|steps| - 1])
  }

  /** When the client last connected, having first done so at `start`. */
  function LastConnect(steps: seq<Step>, client: string, start: nat): nat {
    if steps == [] then start
    else
      var last := steps[|steps| - 1];
      if last.Resolve? && last.client == client then last.now else LastConnect(steps[..|steps| - 1], client, start)
  }

  /** The client is never away for longer than the TTL when bindings are collected, its backend stays
      listed and healthy, and nobody clears its binding. */
  ghost predicate Loyal(steps: seq<Step>, client: string, id: string, ttl: nat, start: nat) {
    forall i :: 0 <= i < |steps| ==>
      match steps[i]
      case Collect(now) => Since(LastConnect(steps[..i], client, start), now) <= ttl
      case Reload(backends) => Serves(backends, id)
      case ClearBinding(c) => c != client
      case _ => true
  }

  lemma {:induction false} LoyalFront(steps: seq<Step>, client: string, id: string, ttl: nat, start: nat)
    requires steps != [] && Loyal(steps, client, id, ttl, start)
    ensures Loyal(steps[..|steps| - 1], client, id, ttl, start)
  {
    var front := steps[..|steps| - 1];
    forall i | 0 <= i < |front|
      ensures match front[i]
              case Collect(now) => Since(LastConnect(front[..i], client, start), now) <= ttl
              case Reload(backends) => Serves(backends, id)
              case ClearBinding(c) => c != client
              case _ => true
    {
      assert front[i] == steps[i] && front[..i] == steps[..i];
    }
  }

  /** Affinity over runs: such a client keeps its backend, across any interleaving of other clients,
      reloads and collections, and its binding remembers exactly when it last connected. */
  lemma {:induction false} BindingSticks(w: World, localRegion: string, ttl: nat, steps: seq<Step>,
      client: string, id: string, start: nat)
    requires client in w.bindings && w.bindings[client].backendId == id && w.bindings[client].lastSeen == start
    requires Serves(w.backends, id) && Loyal(steps, client, id, ttl, start)
    ensures var a := After(w, localRegion, ttl, steps);
            && client in a.bindings && a.bindings[client].backendId == id && Serves(a.backends, id)
            && a.bindings[client].lastSeen == LastConnect(steps, client, start)
            && a.bindings[client].createdAt == w.bindings[client].createdAt
  {
    if steps != [] {
      var n := |steps| - 1;
      LoyalFront(steps, client, id, ttl, start);
      BindingSticks(w, localRegion, ttl, steps[..n], client, id, start);
      var before := After(w, localRegion, ttl, steps[..n]);
      assert match steps[n]
             case Collect(now) => Since(LastConnect(steps[..n], client, start), now) <= ttl
             case Reload(backends) => Serves(backends, id)
             case ClearBinding(c) => c != client
             case _ => true;
      if steps[n].Resolve? {
        ResolveBinds(before, localRegion, steps[n].client, steps[n].geo, steps[n].now);
        if steps[n].client != client {
          OtherResolve(before, localRegion, steps[n].client, steps[n].geo, steps[n].now, client);
        }
      }
    }
  }

  lemma OtherResolve(w: World, localRegion: string, other: string, geo: Option<Geo>, now: nat, client: string)
    requires other != client && client in w.bindings
    ensures var after := AfterResolve(w, localRegion, other, geo, now);
            client in after && after[client] == w.bindings[client]
  {
  }

  /** Hence every connection of the client during the run reaches the same backend. */
  lemma {:induction false} EveryConnectReachesIt(w: World, localRegion: string, ttl: nat, steps: seq<Step>,
      i: nat, client: string, id: string, start: nat)
    requires client in w.bindings && w.bindings[client].backendId == id && w.bindings[client].lastSeen == start
    requires Serves(w.backends, id) && Loyal(steps, client, id, ttl, start)
    requires i < |steps| && steps[i].Resolve? && steps[i].client == client
    ensures var r := Resolved(After(w, localRegion, ttl, steps[..i]), localRegion, client, steps[i].geo);
            r.Some? && r.value.id == id && r.value.healthy
  {
    forall j | 0 <= j < i ensures steps[..i][..j] == steps[..j] {
    }
    assert Loyal(steps[..i], client, id, ttl, start);
    BindingSticks(w, localRegion, ttl, steps[..i], client, id, start);
    FoundIsListed(After(w, localRegion, ttl, steps[..i]).backends, id);
  }

  /** When the client last connected in a run, if it did. */
  function LatestConnect(steps: seq<Step>, client: string): Option<nat> {
    if steps == [] then None
    else
      var last := steps[|steps| - 1];
      if last.Resolve? && last.client == client then Some(last.now) else LatestConnect(steps[..|steps| - 1], client)
  }

  /** In every run, a bound client has connected, and its binding remembers when it last did. */
  lemma {:induction false} LastSeenIsLatestConnect(w: World, localRegion: string, ttl: nat, steps: seq<Step>,
      client: string)
    requires w.bindings == map[]
    ensures var a := After(w, localRegion, ttl, steps);
            client in a.bindings ==> LatestConnect(steps, client) == Some(a.bindings[client].lastSeen)
  {
    if steps != [] {
      var n := |steps| - 1;
      LastSeenIsLatestConnect(w, localRegion, ttl, steps[..n], client);
      var before := After(w, localRegion, ttl, steps[..n]);
      if steps[n].Resolve? {
        ResolveBinds(before, localRegion, steps[n].client, steps[n].geo, steps[n].now);
        if steps[n].client != client && client in before.bindings {
          OtherResolve(before, localRegion, steps[n].client, steps[n].geo, steps[n].now, client);
        }
      }
    }
  }

  predicate SeenWithin(steps: seq<Step>, client: string, ttl: nat, now: nat) {
    LatestConnect(steps, client).Some? && Since(LatestConnect(steps, client).value, now) <= ttl
  }

  /** A collection forgets exactly the clients that have been away for longer than the TTL. */
  lemma {:induction false} CollectForgetsIff(w: World, localRegion: string, ttl: nat, steps: seq<Step>, client: string,
      now: nat)
    requires w.bindings == map[]
    ensures var before := After(w, localRegion, ttl, steps).bindings;
            var after := After(w, localRegion, ttl, steps + [Collect(now)]).bindings;
            && (client in after <==> client in before && SeenWithin(steps, client, ttl, now))
            && (client in after ==> after[client] == before[client])
  {
    LastSeenIsLatestConnect(w, localRegion, ttl, steps, client);
    assert (steps + [Collect(now)])[..|steps|] == steps;
  }
}
