/** What the rate limiter grants: exactly which requests are allowed, as a matter of the request history. */
module RateGuarantees {
  import opened Common
  import opened RepeatedArithmetic
  import opened RateLimiting

  /** A check is allowed exactly when the cost is within the burst and within the tokens held plus the whole
      tokens earned since the last refill; a client without an entry may spend the whole burst. */
  lemma {:induction false} AllowedIff(cfg: Config, b: Bucket, now: nat, cost: nat)
    requires cfg.windowMs > 0 && b.lastRefill <= now && b.tokens <= cfg.burst
    ensures Check(cfg, Some(b), now, cost).allowed <==>
            cost <= cfg.burst && cost <= b.tokens + (now - b.lastRefill) * cfg.maxRequests / cfg.windowMs
    ensures Check(cfg, None, now, cost).allowed <==> cost <= cfg.burst
  {
    EarnedIsFloor(cfg, now - b.lastRefill);
    OpenedFresh(cfg, now);
  }

  // ----- what the history says ----------------------------------------------------------

  /** The time from which request k earns, read off the times of the requests: the latest request so far that
      earned a whole token, or the first one. */
  function EarnsFrom(cfg: Config, rs: seq<Request>, k: nat): nat
    requires cfg.windowMs > 0 && k < |rs|
    decreases k, 1
  {
    if k == 0 then rs[0].now
    else if Gain(cfg, rs, k) > 0 then rs[k].now
    else EarnsFrom(cfg, rs, k - 1)
  }

  /** The whole tokens that request k finds earned. */
  function Gain(cfg: Config, rs: seq<Request>, k: nat): nat
    requires cfg.windowMs > 0 && 0 < k < |rs|
    decreases k, 0
  {
    Earned(cfg, Since(EarnsFrom(cfg, rs, k - 1), rs[k].now))
  }

  /** All that is earned after request j and up to request k. */
  function Gains(cfg: Config, rs: seq<Request>, j: nat, k: nat): nat
    requires cfg.windowMs > 0 && j <= k < |rs|
  {
    if j == k then 0 else Gains(cfg, rs, j, k - 1) + Gain(cfg, rs, k)
  }

  predicate AllowedAt(cfg: Config, rs: seq<Request>, k: nat)
    requires k < |rs|
  {
    Check(cfg, Serve(cfg, None, rs[..k]), rs[k].now, rs[k].cost).allowed
  }

  /** The cost admitted from request j up to but not including request k. */
  function Spent(cfg: Config, rs: seq<Request>, j: nat, k: nat): nat
    requires j <= k <= |rs|
  {
    if j == k then 0 else Spent(cfg, rs, j, k - 1) + if AllowedAt(cfg, rs, k - 1) then rs[k - 1].cost else 0
  }

  // ----- the bucket is a minimum over the past ------------------------------------------

  /** The bucket request k draws from. */
  function BucketAt(cfg: Config, rs: seq<Request>, k: nat): Bucket
    requires k < |rs|
  {
    Opened(cfg, Serve(cfg, None, rs[..k]), rs[k].now)
  }

  lemma {:induction false} BucketMoves(cfg: Config, rs: seq<Request>, k: nat)
    requires 0 < k < |rs|
    ensures var b := BucketAt(cfg, rs, k - 1);
            var spent := if AllowedAt(cfg, rs, k - 1) then rs[k - 1].cost else 0;
            && spent <= b.tokens
            && BucketAt(cfg, rs, k) == Refilled(cfg, b.(tokens := b.tokens - spent), rs[k].now)
  {
    assert rs[..k][..k - 1] == rs[..k - 1];
  }

  /** Tokens are capped at the burst and otherwise carried over: spent ones off, earned ones on. */
  lemma {:induction false} BucketTells(cfg: Config, rs: seq<Request>, k: nat)
    requires cfg.windowMs > 0 && k < |rs|
    ensures var b := BucketAt(cfg, rs, k);
            && b.lastRefill == EarnsFrom(cfg, rs, k) && b.tokens <= cfg.burst
            && if k == 0 then b.tokens == cfg.burst
               else var carried := BucketAt(cfg, rs, k - 1).tokens - Spent(cfg, rs, k - 1, k) + Gain(cfg, rs, k);
                    b.tokens == if carried < cfg.burst then carried else cfg.burst
  {
    if k == 0 {
      assert rs[..0] == [];
      OpenedFresh(cfg, rs[0].now);
    } else {
      BucketTells(cfg, rs, k - 1);
      BucketMoves(cfg, rs, k);
    }
  }

  /** What the stretch from j leaves for request k, had the bucket been full at j. */
  function Room(cfg: Config, rs: seq<Request>, j: nat, k: nat): int
    requires cfg.windowMs > 0 && j <= k < |rs|
  {
    cfg.burst + Gains(cfg, rs, j, k) - Spent(cfg, rs, j, k)
  }

  lemma {:induction false} RoomMoves(cfg: Config, rs: seq<Request>, j: nat, k: nat)
    requires cfg.windowMs > 0 && j < k < |rs|
    ensures Room(cfg, rs, j, k) == Room(cfg, rs, j, k - 1) - Spent(cfg, rs, k - 1, k) + Gain(cfg, rs, k)
  {
  }

  lemma {:induction false} BucketBelowRoom(cfg: Config, rs: seq<Request>, j: nat, k: nat)
    requires cfg.windowMs > 0 && j <= k < |rs|
    ensures BucketAt(cfg, rs, k).tokens <= Room(cfg, rs, j, k)
  {
    BucketTells(cfg, rs, k);
    if j < k {
      BucketBelowRoom(cfg, rs, j, k - 1);
      RoomMoves(cfg, rs, j, k);
    }
  }

  lemma {:induction false} BucketMeetsRoom(cfg: Config, rs: seq<Request>, k: nat) returns (j: nat)
    requires cfg.windowMs > 0 && k < |rs|
    ensures j <= k && BucketAt(cfg, rs, k).tokens == Room(cfg, rs, j, k)
  {
    BucketTells(cfg, rs, k);
    if k == 0 || BucketAt(cfg, rs, k).tokens == cfg.burst {
      j := k;
    } else {
      j := BucketMeetsRoom(cfg, rs, k - 1);
      RoomMoves(cfg, rs, j, k);
    }
  }

  /** Exactly which requests are allowed, over every run of a client: those whose cost fits, for every earlier
      request j, into the burst plus all that was earned since j less all that was admitted since j. */
  lemma {:induction false} AllowedByHistoryIff(cfg: Config, rs: seq<Request>, k: nat)
    requires cfg.windowMs > 0 && k < |rs|
    ensures AllowedAt(cfg, rs, k) <==>
            forall j: nat :: j <= k ==>
              Spent(cfg, rs, j, k) + rs[k].cost <= cfg.burst + Gains(cfg, rs, j, k)
  {
    assert AllowedAt(cfg, rs, k) <==> rs[k].cost <= BucketAt(cfg, rs, k).tokens;
    forall j: nat | j <= k
      ensures BucketAt(cfg, rs, k).tokens <= cfg.burst + Gains(cfg, rs, j, k) - Spent(cfg, rs, j, k)
    {
      BucketBelowRoom(cfg, rs, j, k);
    }
    var m := BucketMeetsRoom(cfg, rs, k);
    assert Room(cfg, rs, m, k) == cfg.burst + Gains(cfg, rs, m, k) - Spent(cfg, rs, m, k);
  }

  // ----- clients that are never denied --------------------------------------------------

  /** All that is asked for from request j up to but not including request k. */
  function Demand(rs: seq<Request>, j: nat, k: nat): nat
    requires j <= k <= |rs|
  {
    if j == k then 0 else Demand(rs, j, k - 1) + rs[k - 1].cost
  }

  /** In every stretch of the run, demand stays within the burst and what is earned meanwhile. */
  ghost predicate WithinMeans(cfg: Config, rs: seq<Request>)
    requires cfg.windowMs > 0
  {
    forall j: nat, k: nat :: j <= k < |rs| ==> Demand(rs, j, k) + rs[k].cost <= cfg.burst + Gains(cfg, rs, j, k)
  }

  lemma {:induction false} SpentIsDemand(cfg: Config, rs: seq<Request>, j: nat, k: nat)
    requires j <= k <= |rs|
    ensures Spent(cfg, rs, j, k) <= Demand(rs, j, k)
    ensures (forall i :: 0 <= i < k ==> AllowedAt(cfg, rs, i)) ==> Spent(cfg, rs, j, k) == Demand(rs, j, k)
  {
    if j < k {
      SpentIsDemand(cfg, rs, j, k - 1);
    }
  }

  /** A client is never denied if and only if its demand stays within its means, a matter of the times and
      costs of its requests alone. */
  lemma {:induction false} NeverDeniedIff(cfg: Config, rs: seq<Request>)
    requires cfg.windowMs > 0
    ensures (forall k :: 0 <= k < |rs| ==> AllowedAt(cfg, rs, k)) <==> WithinMeans(cfg, rs)
  {
    if forall k :: 0 <= k < |rs| ==> AllowedAt(cfg, rs, k) {
      forall j: nat, k: nat | j <= k < |rs|
        ensures Demand(rs, j, k) + rs[k].cost <= cfg.burst + Gains(cfg, rs, j, k)
      {
        SpentIsDemand(cfg, rs, j, k);
        AllowedByHistoryIff(cfg, rs, k);
      }
    }
    if WithinMeans(cfg, rs) {
      forall k | 0 <= k < |rs| ensures AllowedAt(cfg, rs, k) {
        forall j: nat | j <= k ensures Spent(cfg, rs, j, k) + rs[k].cost <= cfg.burst + Gains(cfg, rs, j, k) {
          SpentIsDemand(cfg, rs, j, k);
        }
        AllowedByHistoryIff(cfg, rs, k);
      }
    }
  }

  /** Every cost is within the burst, and every gap earns back the cost of the request before it. */
  ghost predicate Patient(cfg: Config, rs: seq<Request>)
    requires cfg.windowMs > 0
  {
    && (forall k :: 0 <= k < |rs| ==> rs[k].cost <= cfg.burst)
    && (forall k :: 0 < k < |rs| ==> rs[k - 1].cost <= Earned(cfg, Since(rs[k - 1].now, rs[k].now)))
  }

  lemma {:induction false} EarnsFromPast(cfg: Config, rs: seq<Request>, k: nat)
    requires cfg.windowMs > 0 && InOrder(rs) && k < |rs|
    ensures EarnsFrom(cfg, rs, k) <= rs[k].now
  {
    if k > 0 {
      EarnsFromPast(cfg, rs, k - 1);
    }
  }

  lemma {:induction false} PatientGains(cfg: Config, rs: seq<Request>, j: nat, k: nat)
    requires cfg.windowMs > 0 && InOrder(rs) && Patient(cfg, rs) && j <= k < |rs|
    ensures Demand(rs, j, k) <= Gains(cfg, rs, j, k)
  {
    if j < k {
      PatientGains(cfg, rs, j, k - 1);
      EarnsFromPast(cfg, rs, k - 1);
      EarnedMonotone(cfg, Since(rs[k - 1].now, rs[k].now), Since(EarnsFrom(cfg, rs, k - 1), rs[k].now));
    }
  }

  /** In particular, a client that waits until each request has been earned back is never denied. */
  lemma {:induction false} PatientNeverDenied(cfg: Config, rs: seq<Request>, k: nat)
    requires cfg.windowMs > 0 && InOrder(rs) && Patient(cfg, rs) && k < |rs|
    ensures AllowedAt(cfg, rs, k)
  {
    forall j: nat, i: nat | j <= i < |rs|
      ensures Demand(rs, j, i) + rs[i].cost <= cfg.burst + Gains(cfg, rs, j, i)
    {
      PatientGains(cfg, rs, j, i);
    }
    NeverDeniedIff(cfg, rs);
  }
}
