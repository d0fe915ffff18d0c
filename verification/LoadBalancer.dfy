/** Backend selection by geography, load and weight. Scores are exact reals. */
module LoadBalancing {
  import opened Common

  datatype Backend = Backend(
    id: string,
    region: string,
    country: string,
    healthy: bool,
    weight: nat,
    softLimit: nat,
    hardLimit: nat)

  datatype Geo = Geo(country: string, region: string)

  /** What a selection looks at besides the backends: the POP's region, the client's location, the connection counts. */
  datatype Query = Query(localRegion: string, geo: Option<Geo>, counts: map<string, nat>)

  function Count(counts: map<string, nat>, id: string): nat {
    if id in counts then counts[id] else 0
  }

  function OneIfZero(n: nat): (r: real)
    ensures r > 0.0
  {
    if n == 0 then 1.0 else n as real
  }

  /** A hard limit of zero stands for the greatest float, which no count reaches. */
  predicate BelowHard(b: Backend, n: nat) {
    b.hardLimit == 0 || n < b.hardLimit
  }

  predicate Eligible(q: Query, b: Backend) {
    b.healthy && BelowHard(b, Count(q.counts, b.id))
  }

  function Tier(q: Query, b: Backend): nat {
    if q.geo.Some? && b.country == q.geo.value.country then 0
    else if q.geo.Some? && b.region == q.geo.value.region then 1
    else if b.region == q.localRegion then 2
    else 3
  }

  /** The criteria of proximity, best first: the client's country, its region, the POP's region, anything. */
  predicate Near(q: Query, b: Backend, k: nat) {
    match k
    case 0 => q.geo.Some? && q.geo.value.country == b.country
    case 1 => q.geo.Some? && q.geo.value.region == b.region
    case 2 => q.localRegion == b.region
    case _ => true
  }

  function Load(b: Backend, n: nat): real {
    (n as real / OneIfZero(b.softLimit)) / OneIfZero(b.weight)
  }

  function LoadOf(q: Query, b: Backend): real {
    Load(b, Count(q.counts, b.id))
  }

  function Score(q: Query, b: Backend): real {
    Tier(q, b) as real * 100.0 + LoadOf(q, b)
  }

  /** The position of the best backend so far, replaced only by a strictly smaller score. */
  function Pick(q: Query, backends: seq<Backend>): (best: Option<nat>)
    ensures best.Some? ==> best.value < |backends|
  {
    if backends == [] then None
    else
      var n := |backends| - 1;
      var best := Pick(q, backends[..n]);
      if !Eligible(q, backends[n]) then best
      else if best.None? || Score(q, backends[n]) < Score(q, backends[best.value]) then Some(n)
      else best
  }

  method PickBackend(q: Query, backends: seq<Backend>) returns (r: Option<Backend>)
    ensures r == match Pick(q, backends) case Some(i) => Some(backends[i]) case None => None
  {
    var best: Option<(Backend, real)> := None;
    for k := 0 to |backends|
      invariant best == match Pick(q, backends[..k])
                        case Some(i) => Some((backends[i], Score(q, backends[i])))
                        case None => None
    {
      assert backends[..k + 1][..k] == backends[..k];
      var b := backends[k];
      if !b.healthy {
        continue;
      }
      var current := Count(q.counts, b.id);
      if b.hardLimit != 0 && current >= b.hardLimit {
        continue;
      }
      var score := Tier(q, b) as real * 100.0 + current as real / OneIfZero(b.softLimit) / OneIfZero(b.weight);
      match best {
        case Some((_, bestScore)) =>
          if score < bestScore {
            best := Some((b, score));
          }
        case None =>
          best := Some((b, score));
      }
    }
    assert backends[..|backends|] == backends;
    r := match best case Some((b, _)) => Some(b) case None => None;
  }

  // ----- what is picked -----------------------------------------------------------------

  /** Position i holds the earliest eligible backend of least score. */
  ghost predicate EarliestLeast(q: Query, backends: seq<Backend>, i: nat) {
    && i < |backends| && Eligible(q, backends[i])
    && (forall j :: 0 <= j < |backends| && Eligible(q, backends[j]) ==> Score(q, backends[i]) <= Score(q, backends[j]))
    && (forall j :: 0 <= j < i && Eligible(q, backends[j]) ==> Score(q, backends[i]) < Score(q, backends[j]))
  }

  /** Nothing is picked exactly when no backend is healthy and below its hard limit; otherwise the
      earliest of least score is. */
  lemma {:induction false} PickIsEarliestLeast(q: Query, backends: seq<Backend>)
    ensures Pick(q, backends).None? <==> forall b <- backends :: !Eligible(q, b)
    ensures Pick(q, backends).Some? ==> EarliestLeast(q, backends, Pick(q, backends).value)
  {
    if backends != [] {
      var n := |backends| - 1;
      PickIsEarliestLeast(q, backends[..n]);
      assert backends == backends[..n] + [backends[n]];
    }
  }

  /** Lexicographic order on tier and load. */
  predicate Closer(q: Query, a: Backend, b: Backend) {
    Tier(q, a) < Tier(q, b) || (Tier(q, a) == Tier(q, b) && LoadOf(q, a) < LoadOf(q, b))
  }

  ghost predicate EarliestClosest(q: Query, backends: seq<Backend>, i: nat) {
    && i < |backends| && Eligible(q, backends[i])
    && (forall j :: 0 <= j < |backends| && Eligible(q, backends[j]) ==> !Closer(q, backends[j], backends[i]))
    && (forall j :: 0 <= j < i && Eligible(q, backends[j]) ==> Closer(q, backends[i], backends[j]))
  }

  /** The hard limit keeps the load below one tier's worth of score. */
  predicate Capped(b: Backend) {
    b.hardLimit != 0 && b.hardLimit as real <= 100.0 * OneIfZero(b.softLimit) * OneIfZero(b.weight)
  }

  lemma {:induction false} DivideTwice(x: real, s: real, w: real, k: real)
    requires s > 0.0 && w > 0.0
    ensures (x / s) / w < k <==> x < k * s * w
    ensures (x / s) / w == k <==> x == k * s * w
  {
    var q := x / s;
    var p := q / w;
    assert q * s == x && p * w == q;
    assert x == p * w * s;
    assert p * w * s == p * (s * w) && k * s * w == k * (s * w);
    Cancel(p, k, s * w);
  }

  lemma Cancel(p: real, k: real, c: real)
    requires c > 0.0
    ensures p < k <==> p * c < k * c
    ensures p == k <==> p * c == k * c
  {
  }

  lemma {:induction false} LoadNonNegative(b: Backend, n: nat)
    ensures Load(b, n) >= 0.0
  {
    DivideTwice(n as real, OneIfZero(b.softLimit), OneIfZero(b.weight), 0.0);
  }

  lemma {:induction false} CappedLoad(q: Query, b: Backend)
    requires Eligible(q, b) && Capped(b)
    ensures 0.0 <= LoadOf(q, b) < 100.0
  {
    LoadNonNegative(b, Count(q.counts, b.id));
    DivideTwice(Count(q.counts, b.id) as real, OneIfZero(b.softLimit), OneIfZero(b.weight), 100.0);
  }

  lemma ScoreIsLexicographic(q: Query, a: Backend, b: Backend)
    requires 0.0 <= LoadOf(q, a) < 100.0 && 0.0 <= LoadOf(q, b) < 100.0
    ensures Score(q, a) < Score(q, b) <==> Closer(q, a, b)
  {
  }

  /** When every hard limit is set and at most 100 * soft * weight, selection is lexicographic: first the
      geographic tier, then the load, then the position. */
  lemma {:induction false} SelectionIsLexicographic(q: Query, backends: seq<Backend>, i: nat)
    requires forall b <- backends :: Capped(b)
    ensures EarliestLeast(q, backends, i) <==> EarliestClosest(q, backends, i)
  {
    if i < |backends| && Eligible(q, backends[i]) {
      forall j | 0 <= j < |backends| && Eligible(q, backends[j])
        ensures Score(q, backends[i]) < Score(q, backends[j]) <==> Closer(q, backends[i], backends[j])
        ensures Score(q, backends[j]) < Score(q, backends[i]) <==> Closer(q, backends[j], backends[i])
      {
        CappedLoad(q, backends[i]);
        CappedLoad(q, backends[j]);
        ScoreIsLexicographic(q, backends[i], backends[j]);
        ScoreIsLexicographic(q, backends[j], backends[i]);
      }
    }
  }

  /** The bound is sharp: with a backend listed after one in the next farther tier, the nearer one is
      chosen whenever it is eligible, at every pair of counts, exactly when it is capped. */
  lemma {:induction false} CapIsSharp(localRegion: string, geo: Option<Geo>, near: Backend, far: Backend)
    requires near.healthy && far.healthy && near.id != far.id
    requires var q := Query(localRegion, geo, map[]); Tier(q, far) == Tier(q, near) + 1
    ensures (forall m: nat, n: nat :: NearChosen(localRegion, geo, near, far, m, n)) <==> Capped(near)
  {
    if Capped(near) {
      forall m: nat, n: nat ensures NearChosen(localRegion, geo, near, far, m, n) {
        NearChosenWhenCapped(localRegion, geo, near, far, m, n);
      }
    } else {
      NearMissedWhenUncapped(localRegion, geo, near, far);
    }
  }

  function AtCap(b: Backend): nat {
    100 * (if b.softLimit == 0 then 1 else b.softLimit) * (if b.weight == 0 then 1 else b.weight)
  }

  lemma {:induction false} LoadAtCap(b: Backend)
    ensures Load(b, AtCap(b)) == 100.0 && (Capped(b) <==> b.hardLimit != 0 && b.hardLimit <= AtCap(b))
  {
    assert AtCap(b) as real == 100.0 * OneIfZero(b.softLimit) * OneIfZero(b.weight);
    DivideTwice(AtCap(b) as real, OneIfZero(b.softLimit), OneIfZero(b.weight), 100.0);
  }

  lemma {:induction false} NearMissedWhenUncapped(localRegion: string, geo: Option<Geo>, near: Backend, far: Backend)
    requires near.healthy && far.healthy && near.id != far.id && !Capped(near)
    requires var q := Query(localRegion, geo, map[]); Tier(q, far) == Tier(q, near) + 1
    ensures !NearChosen(localRegion, geo, near, far, AtCap(near), 0)
  {
    LoadAtCap(near);
    DivideTwice(0.0, OneIfZero(far.softLimit), OneIfZero(far.weight), 0.0);
    TwoPicks(Query(localRegion, geo, map[near.id := AtCap(near), far.id := 0]), near, far);
  }

  /** With these counts, an eligible nearer backend wins over the farther one listed first. */
  predicate NearChosen(localRegion: string, geo: Option<Geo>, near: Backend, far: Backend, m: nat, n: nat) {
    var q := Query(localRegion, geo, map[near.id := m, far.id := n]);
    Eligible(q, near) ==> Pick(q, [far, near]) == Some(1)
  }

  lemma {:induction false} TwoPicks(q: Query, near: Backend, far: Backend)
    ensures Pick(q, [far, near])
         == if Eligible(q, near) && (Eligible(q, far) ==> Score(q, near) < Score(q, far)) then Some(1)
            else if Eligible(q, far) then Some(0) else None
  {
    assert [far, near][..1] == [far] && [far][..0] == [];
    assert Pick(q, [far]) == if Eligible(q, far) then Some(0) else None;
  }

  lemma {:induction false} NearChosenWhenCapped(localRegion: string, geo: Option<Geo>, near: Backend,
      far: Backend, m: nat, n: nat)
    requires near.healthy && far.healthy && near.id != far.id && Capped(near)
    requires var q := Query(localRegion, geo, map[]); Tier(q, far) == Tier(q, near) + 1
    ensures NearChosen(localRegion, geo, near, far, m, n)
  {
    var q := Query(localRegion, geo, map[near.id := m, far.id := n]);
    if Eligible(q, near) {
      CappedLoad(q, near);
      LoadNonNegative(far, Count(q.counts, far.id));
      TwoPicks(q, near, far);
    }
  }

  /** Proximity decides first: as soon as an eligible backend meets a criterion, the pick meets that one or a
      better one. */
  lemma {:induction false} PickIsNearest(q: Query, backends: seq<Backend>, b: Backend, k: nat)
    requires forall x <- backends :: Capped(x)
    requires b in backends && Eligible(q, b) && Near(q, b, k)
    ensures var i := Pick(q, backends);
            i.Some? && exists l: nat :: l <= k && Near(q, backends[i.value], l)
  {
    PickIsEarliestLeast(q, backends);
    var i := Pick(q, backends).value;
    SelectionIsLexicographic(q, backends, i);
    var j :| 0 <= j < |backends| && backends[j] == b;
    assert !Closer(q, backends[j], backends[i]);
    assert Tier(q, backends[i]) <= Tier(q, b) <= k;
    assert Near(q, backends[i], Tier(q, backends[i]));
  }

  // ----- the score listing --------------------------------------------------------------

  function AllScores(q: Query, backends: seq<Backend>): seq<(string, real)> {
    if backends == [] then []
    else (if backends[0].healthy then [(backends[0].id, Score(q, backends[0]))] else []) + AllScores(q, backends[1..])
  }

  lemma {:induction false} AllScoresHolds(q: Query, backends: seq<Backend>, id: string, score: real)
    ensures (id, score) in AllScores(q, backends) <==>
            exists b <- backends :: b.healthy && b.id == id && Score(q, b) == score
  {
    if backends != [] {
      AllScoresHolds(q, backends[1..], id, score);
      assert forall b :: b in backends <==> b == backends[0] || b in backends[1..];
    }
  }

  /** The picked backend is listed with the least score among the listed eligible ones. */
  lemma {:induction false} PickHasLeastListedScore(q: Query, backends: seq<Backend>)
    requires Pick(q, backends).Some?
    ensures var p := backends[Pick(q, backends).value];
            && (p.id, Score(q, p)) in AllScores(q, backends)
            && forall b <- backends :: Eligible(q, b) ==>
                 (b.id, Score(q, b)) in AllScores(q, backends) && Score(q, p) <= Score(q, b)
  {
    PickIsEarliestLeast(q, backends);
    forall b <- backends | Eligible(q, b)
      ensures (b.id, Score(q, b)) in AllScores(q, backends)
    {
      AllScoresHolds(q, backends, b.id, Score(q, b));
    }
  }

  // ----- balance over runs --------------------------------------------------------------

  /** A client arrives: the backends listed at that moment and where the client is. */
  datatype Arrival = Arrival(backends: seq<Backend>, localRegion: string, geo: Option<Geo>)

  function QueryOf(a: Arrival, counts: map<string, nat>): Query {
    Query(a.localRegion, a.geo, counts)
  }

  /** Each arrival picks a backend and starts a connection to it. */
  function CountsAfter(arrivals: seq<Arrival>): map<string, nat> {
    if arrivals == [] then map[]
    else
      var counts, a := CountsAfter(arrivals[..|arrivals| - 1]), arrivals[|arrivals| - 1];
      match Pick(QueryOf(a, counts), a.backends)
      case Some(i) => counts[a.backends[i].id := Count(counts, a.backends[i].id) + 1]
      case None => counts
  }

  /** Both backends are listed unchanged and healthy, and ids are unique. */
  ghost predicate Lists(a: Arrival, x: Backend, y: Backend) {
    && x in a.backends && y in a.backends
    && forall i, j :: 0 <= i < j < |a.backends| ==> a.backends[i].id != a.backends[j].id
  }

  lemma {:induction false} LoadAdds(b: Backend, n: nat)
    ensures Load(b, n + 1) == Load(b, n) + Load(b, 1)
  {
    var s, w := OneIfZero(b.softLimit), OneIfZero(b.weight);
    assert (n + 1) as real / s == n as real / s + 1.0 / s;
    assert (n as real / s + 1.0 / s) / w == n as real / s / w + 1.0 / s / w;
  }

  /** Over any run of arrivals, wherever the clients are and whatever happens to the other backends, two
      backends of one place stay balanced: the load of either exceeds that of the other by at most one
      connection's worth, as long as the other is below its hard limit. */
  lemma {:induction false} GreedyBalance(arrivals: seq<Arrival>, x: Backend, y: Backend)
    requires x.healthy && y.healthy && x.id != y.id && x.country == y.country && x.region == y.region
    requires forall a <- arrivals :: Lists(a, x, y)
    requires BelowHard(y, Count(CountsAfter(arrivals), y.id))
    ensures var counts := CountsAfter(arrivals);
            Load(x, Count(counts, x.id)) <= Load(y, Count(counts, y.id)) + Load(x, 1)
  {
    if arrivals == [] {
      LoadNonNegative(x, 1);
      LoadNonNegative(y, 0);
      DivideTwice(0.0, OneIfZero(x.softLimit), OneIfZero(x.weight), 0.0);
    } else {
      var n := |arrivals| - 1;
      var counts, a := CountsAfter(arrivals[..n]), arrivals[n];
      GreedyBalance(arrivals[..n], x, y);
      ArrivalKeepsBalance(counts, a, x, y);
    }
  }

  lemma {:induction false} ArrivalKeepsBalance(counts: map<string, nat>, a: Arrival, x: Backend, y: Backend)
    requires x.healthy && y.healthy && x.id != y.id && x.country == y.country && x.region == y.region
    requires Lists(a, x, y) && BelowHard(y, Count(counts, y.id))
    requires Load(x, Count(counts, x.id)) <= Load(y, Count(counts, y.id)) + Load(x, 1)
    ensures match Pick(QueryOf(a, counts), a.backends)
            case None => true
            case Some(i) =>
              var after := counts[a.backends[i].id := Count(counts, a.backends[i].id) + 1];
              Load(x, Count(after, x.id)) <= Load(y, Count(after, y.id)) + Load(x, 1)
  {
    var q := QueryOf(a, counts);
    LoadAdds(x, Count(counts, x.id));
    LoadAdds(y, Count(counts, y.id));
    LoadNonNegative(y, 1);
    match Pick(q, a.backends) {
      case None =>
      case Some(i) =>
        if a.backends[i].id == x.id {
          PickedIsLighter(q, a, x, y);
        }
    }
  }

  /** Picking one of two backends of the same place means it is no more loaded than the other. */
  lemma {:induction false} PickedIsLighter(q: Query, a: Arrival, x: Backend, y: Backend)
    requires x.country == y.country && x.region == y.region && Lists(a, x, y) && Eligible(q, y)
    requires Pick(q, a.backends).Some? && a.backends[Pick(q, a.backends).value].id == x.id
    ensures LoadOf(q, x) <= LoadOf(q, y)
  {
    PickIsEarliestLeast(q, a.backends);
    var i := Pick(q, a.backends).value;
    var j :| 0 <= j < |a.backends| && a.backends[j] == y;
    var k :| 0 <= k < |a.backends| && a.backends[k] == x;
    assert a.backends[i] == x;
    assert Score(q, x) <= Score(q, y);
  }
}
