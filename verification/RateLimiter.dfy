/** Token-bucket rate limiting per client. Times are milliseconds of one monotonic clock; the refill
    rate is the exact rational maxRequests / windowMs. */
module RateLimiting {
  import opened Common
  import opened RepeatedArithmetic

  datatype Config = Config(maxRequests: nat, windowMs: nat, burst: nat)

  datatype Bucket = Bucket(tokens: nat, lastRefill: nat)

  /** Whole tokens earned in an interval; the fraction is dropped. */
  function Earned(cfg: Config, elapsed: nat): nat
    requires cfg.windowMs > 0
  {
    Quotient(Times(elapsed, cfg.maxRequests), cfg.windowMs)
  }

  /** The tokens earned are the floor of elapsed * maxRequests / windowMs. */
  lemma {:induction false} EarnedIsFloor(cfg: Config, elapsed: nat)
    requires cfg.windowMs > 0
    ensures Earned(cfg, elapsed) == elapsed * cfg.maxRequests / cfg.windowMs
  {
    TimesIsProduct(elapsed, cfg.maxRequests);
    QuotientIsDivision(Times(elapsed, cfg.maxRequests), cfg.windowMs);
  }

  function Min(a: nat, b: nat): nat {
    if a < b then a else b
  }

  const U64_MAX: nat := 0xFFFF_FFFF_FFFF_FFFF

  /** With a window of zero the rate is infinite: every positive elapsed time earns the largest 64-bit
      number, and the 64-bit sum wraps. */
  function RefilledAtOnce(cfg: Config, b: Bucket, now: nat): Bucket {
    if cfg.maxRequests > 0 && b.lastRefill < now
    then Bucket(Min((b.tokens + U64_MAX) % (U64_MAX + 1), cfg.burst), now)
    else b
  }

  function Refilled(cfg: Config, b: Bucket, now: nat): Bucket {
    if cfg.windowMs == 0 then RefilledAtOnce(cfg, b, now)
    else
      var add := Earned(cfg, Since(b.lastRefill, now));
      if add > 0 then Bucket(Min(b.tokens + add, cfg.burst), now) else b
  }

  /** An infinite rate fills only an empty bucket: any other one loses a token instead. */
  lemma ZeroWindowDrains(cfg: Config, b: Bucket, now: nat)
    requires cfg.windowMs == 0 && cfg.maxRequests > 0 && b.lastRefill < now && b.tokens <= cfg.burst <= U64_MAX
    ensures Refilled(cfg, b, now).tokens == if b.tokens == 0 then cfg.burst else b.tokens - 1
  {
    if b.tokens > 0 {
      assert b.tokens + U64_MAX == (b.tokens - 1) + (U64_MAX + 1);
    }
  }

  datatype Verdict = Verdict(bucket: Bucket, allowed: bool)

  function Check(cfg: Config, entry: Option<Bucket>, now: nat, cost: nat): Verdict {
    var b := Refilled(cfg, if entry.Some? then entry.value else Bucket(cfg.burst, now), now);
    if b.tokens < cost then Verdict(b, false) else Verdict(b.(tokens := b.tokens - cost), true)
  }

  function Lookup(clients: map<string, Bucket>, ip: string): Option<Bucket> {
    if ip in clients then Some(clients[ip]) else None
  }

  function Retained(clients: map<string, Bucket>, maxAge: nat, now: nat): map<string, Bucket> {
    map ip | ip in clients && Since(clients[ip].lastRefill, now) < maxAge :: clients[ip]
  }

  class RateLimiter {
    const cfg: Config
    var clients: map<string, Bucket>

    constructor (cfg: Config)
      ensures this.cfg == cfg && clients == map[]
    {
      this.cfg, clients := cfg, map[];
    }

    /** `spurious` is how often the weak compare-exchange fails before it succeeds. */
    method CheckWithCost(ip: string, cost: nat, now: nat, spurious: nat) returns (allowed: bool)
      modifies this
      ensures var v := Check(cfg, Lookup(old(clients), ip), now, cost);
              clients == old(clients)[ip := v.bucket] && allowed == v.allowed
    {
      if ip !in clients {
        clients := clients[ip := Bucket(cfg.burst, now)];
      }
      var state := clients[ip];
      var elapsed := if state.lastRefill <= now then now - state.lastRefill else 0;
      if cfg.windowMs == 0 {
        if elapsed > 0 && cfg.maxRequests > 0 {
          clients := clients[ip := Bucket(Min((state.tokens + U64_MAX) % (U64_MAX + 1), cfg.burst), now)];
        }
      } else {
        var add := elapsed * cfg.maxRequests / cfg.windowMs;
        EarnedIsFloor(cfg, elapsed);
        if add > 0 {
          clients := clients[ip := Bucket(Min(state.tokens + add, cfg.burst), now)];
        }
      }
      ghost var refilled := clients;
      assert refilled == old(clients)[ip := Refilled(cfg, state, now)];
      var failures := spurious;
      var current := clients[ip].tokens;
      while true
        invariant clients == refilled && current == clients[ip].tokens
        decreases failures
      {
        if current < cost {
          return false;
        }
        if failures == 0 {
          clients := clients[ip := clients[ip].(tokens := current - cost)];
          return true;
        }
        failures, current := failures - 1, clients[ip].tokens;
      }
    }

    method Cleanup(maxAge: nat, now: nat)
      modifies this
      ensures clients == Retained(old(clients), maxAge, now)
    {
      clients := map ip | ip in clients && Since(clients[ip].lastRefill, now) < maxAge :: clients[ip];
    }
  }

  // ----- how much one client can get ----------------------------------------------------

  datatype Request = Request(now: nat, cost: nat)

  ghost predicate InOrder(rs: seq<Request>) {
    forall i, j :: 0 <= i < j < |rs| ==> rs[i].now <= rs[j].now
  }

  function Serve(cfg: Config, entry: Option<Bucket>, rs: seq<Request>): Option<Bucket> {
    if rs == [] then entry
    else
      var last := rs[|rs| - 1];
      Some(Check(cfg, Serve(cfg, entry, rs[..|rs| - 1]), last.now, last.cost).bucket)
  }

  /** The total cost of the admitted requests. */
  function Admitted(cfg: Config, entry: Option<Bucket>, rs: seq<Request>): nat {
    if rs == [] then 0
    else
      var front, last := rs[..|rs| - 1], rs[|rs| - 1];
      Admitted(cfg, entry, front)
      + if Check(cfg, Serve(cfg, entry, front), last.now, last.cost).allowed then last.cost else 0
  }

  lemma {:induction false} EarnedIsPaid(cfg: Config, e: nat)
    requires cfg.windowMs > 0
    ensures Times(Earned(cfg, e), cfg.windowMs) <= Times(e, cfg.maxRequests)
    ensures Earned(cfg, e) == 0 <==> Times(e, cfg.maxRequests) < cfg.windowMs
  {
    QuotientTimes(Times(e, cfg.maxRequests), cfg.windowMs);
  }

  /** One check: what is admitted and what is left in the bucket is paid for by the old content and by
      the time since the last refill. */
  lemma {:induction false} CheckConserves(cfg: Config, b: Bucket, now: nat, cost: nat)
    requires cfg.windowMs > 0 && b.lastRefill <= now
    ensures var v := Check(cfg, Some(b), now, cost);
            Conserved(cfg, b, if v.allowed then cost else 0, v.bucket)
  {
    var e := now - b.lastRefill;
    var add := Earned(cfg, e);
    EarnedIsPaid(cfg, e);
    var v := Check(cfg, Some(b), now, cost);
    var got := (if v.allowed then cost else 0) + v.bucket.tokens;
    if add > 0 {
      TimesAdds(b.tokens, add, cfg.windowMs);
      TimesAdds(got, b.tokens + add - got, cfg.windowMs);
    }
  }

  lemma CheckMovesForward(cfg: Config, b: Bucket, now: nat, cost: nat)
    requires cfg.windowMs > 0 && b.lastRefill <= now
    ensures b.lastRefill <= Check(cfg, Some(b), now, cost).bucket.lastRefill <= now
  {
  }

  lemma {:induction false} ServeMovesForward(cfg: Config, b: Bucket, rs: seq<Request>)
    requires cfg.windowMs > 0 && InOrder(rs) && (rs != [] ==> b.lastRefill <= rs[0].now)
    ensures var after := Serve(cfg, Some(b), rs);
            && after.Some? && b.lastRefill <= after.value.lastRefill
            && after.value.lastRefill <= if rs == [] then b.lastRefill else rs[|rs| - 1].now
  {
    if rs != [] {
      var n := |rs| - 1;
      ServeMovesForward(cfg, b, rs[..n]);
      CheckMovesForward(cfg, Serve(cfg, Some(b), rs[..n]).value, rs[n].now, rs[n].cost);
    }
  }

  /** What was admitted and what is left is paid for by what was there and by the time since. */
  ghost predicate Paid(cfg: Config, got: nat, had: nat, span: nat) {
    Times(got, cfg.windowMs) <= Times(had, cfg.windowMs) + Times(span, cfg.maxRequests)
  }

  /** A bucket that became `after` while `got` was admitted from it. */
  ghost predicate Conserved(cfg: Config, before: Bucket, got: nat, after: Bucket) {
    && before.lastRefill <= after.lastRefill
    && Paid(cfg, got + after.tokens, before.tokens, after.lastRefill - before.lastRefill)
  }

  /** A run of checks in order, conserved over all of it. */
  lemma {:induction false} ServeConserves(cfg: Config, b: Bucket, rs: seq<Request>)
    requires cfg.windowMs > 0 && InOrder(rs) && (rs != [] ==> b.lastRefill <= rs[0].now)
    ensures Serve(cfg, Some(b), rs).Some?
    ensures Conserved(cfg, b, Admitted(cfg, Some(b), rs), Serve(cfg, Some(b), rs).value)
  {
    if rs != [] {
      var n := |rs| - 1;
      var front, last := rs[..n], rs[n];
      ServeConserves(cfg, b, front);
      ServeMovesForward(cfg, b, front);
      StepConserves(cfg, b, Serve(cfg, Some(b), front).value, Admitted(cfg, Some(b), front), last.now, last.cost);
    }
  }

  lemma {:induction false} StepConserves(cfg: Config, start: Bucket, mid: Bucket, paid: nat, now: nat, cost: nat)
    requires cfg.windowMs > 0 && mid.lastRefill <= now && Conserved(cfg, start, paid, mid)
    ensures var v := Check(cfg, Some(mid), now, cost);
            Conserved(cfg, start, paid + if v.allowed then cost else 0, v.bucket)
  {
    var v := Check(cfg, Some(mid), now, cost);
    CheckConserves(cfg, mid, now, cost);
    var spent, e1, e2 :=
      if v.allowed then cost else 0, mid.lastRefill - start.lastRefill, v.bucket.lastRefill - mid.lastRefill;
    Telescope(cfg, paid, mid.tokens, spent, v.bucket.tokens, start.tokens, e1, e2);
    assert v.bucket.lastRefill - start.lastRefill == e1 + e2;
  }

  lemma {:induction false} Telescope(cfg: Config, paid: nat, mid: nat, spent: nat, left: nat, start: nat,
      e1: nat, e2: nat)
    requires Paid(cfg, paid + mid, start, e1) && Paid(cfg, spent + left, mid, e2)
    ensures Paid(cfg, paid + spent + left, start, e1 + e2)
  {
    TimesAdds(paid, mid, cfg.windowMs);
    TimesAdds(paid, spent + left, cfg.windowMs);
    TimesAdds(e1, e2, cfg.maxRequests);
  }

  /** Refilling first and then serving the same instant changes nothing. */
  lemma {:induction false} RefillFirst(cfg: Config, entry: Option<Bucket>, rs: seq<Request>)
    requires cfg.windowMs > 0 && rs != []
    ensures var b := Opened(cfg, entry, rs[0].now);
            Serve(cfg, entry, rs) == Serve(cfg, Some(b), rs) && Admitted(cfg, entry, rs) == Admitted(cfg, Some(b), rs)
  {
    var n := |rs| - 1;
    if n == 0 {
      assert rs[..0] == [];
      EarnedIsPaid(cfg, 0);
    } else {
      RefillFirst(cfg, entry, rs[..n]);
    }
  }

  /** The bucket a request at `now` draws from. */
  function Opened(cfg: Config, entry: Option<Bucket>, now: nat): Bucket {
    Refilled(cfg, if entry.Some? then entry.value else Bucket(cfg.burst, now), now)
  }

  lemma {:induction false} BoundFrom(cfg: Config, b: Bucket, rs: seq<Request>, span: nat)
    requires cfg.windowMs > 0 && InOrder(rs) && rs != [] && b.lastRefill <= rs[0].now && b.tokens <= cfg.burst
    requires span == rs[|rs| - 1].now - b.lastRefill
    ensures Paid(cfg, Admitted(cfg, Some(b), rs), cfg.burst, span)
  {
    ServeConserves(cfg, b, rs);
    ServeMovesForward(cfg, b, rs);
    var after := Serve(cfg, Some(b), rs).value;
    Weaken(cfg, Admitted(cfg, Some(b), rs), after.tokens, b.tokens, cfg.burst, after.lastRefill - b.lastRefill, span);
  }

  lemma {:induction false} Weaken(cfg: Config, got: nat, left: nat, had: nat, more: nat, e: nat, span: nat)
    requires Paid(cfg, got + left, had, e) && had <= more && e <= span
    ensures Paid(cfg, got, more, span)
  {
    TimesAdds(got, left, cfg.windowMs);
    TimesAdds(had, more - had, cfg.windowMs);
    TimesAdds(e, span - e, cfg.maxRequests);
  }

  lemma {:induction false} BoundOpened(cfg: Config, entry: Option<Bucket>, rs: seq<Request>, span: nat)
    requires cfg.windowMs > 0 && InOrder(rs) && rs != []
    requires var o := Opened(cfg, entry, rs[0].now);
             o.lastRefill <= rs[0].now && o.tokens <= cfg.burst && span == rs[|rs| - 1].now - o.lastRefill
    ensures Paid(cfg, Admitted(cfg, entry, rs), cfg.burst, span)
  {
    RefillFirst(cfg, entry, rs);
    BoundFrom(cfg, Opened(cfg, entry, rs[0].now), rs, span);
  }

  lemma {:induction false} OpenedFresh(cfg: Config, now: nat)
    requires cfg.windowMs > 0
    ensures Opened(cfg, None, now) == Bucket(cfg.burst, now)
  {
    EarnedIsPaid(cfg, 0);
  }

  /** From the creation of its entry on, a client is admitted at most the burst plus what the rate
      allows for the elapsed time. */
  lemma {:induction false} AdmittedSinceCreation(cfg: Config, rs: seq<Request>)
    requires cfg.windowMs > 0 && InOrder(rs) && rs != []
    ensures Admitted(cfg, None, rs) <= cfg.burst + Earned(cfg, Since(rs[0].now, rs[|rs| - 1].now))
  {
    var span := Since(rs[0].now, rs[|rs| - 1].now);
    OpenedFresh(cfg, rs[0].now);
    BoundOpened(cfg, None, rs, span);
    PaidBound(cfg, Admitted(cfg, None, rs), cfg.burst, span);
  }

  lemma {:induction false} PaidBound(cfg: Config, got: nat, had: nat, span: nat)
    requires cfg.windowMs > 0 && Paid(cfg, got, had, span)
    ensures got <= had + Earned(cfg, span)
  {
    if got > had {
      TimesAdds(had, got - had, cfg.windowMs);
      QuotientGreatest(got - had, Times(span, cfg.maxRequests), cfg.windowMs);
    }
  }

  lemma {:induction false} PaidBoundWithGap(cfg: Config, got: nat, had: nat, span: nat, gap: nat, rest: nat)
    requires cfg.windowMs > 0 && Paid(cfg, got, had, span)
    requires span == gap + rest && Times(gap, cfg.maxRequests) < cfg.windowMs
    ensures got <= had + Earned(cfg, rest) + 1
  {
    TimesAdds(gap, rest, cfg.maxRequests);
    TimesAdds(had, 1, cfg.windowMs);
    PaidBound(cfg, got, had + 1, rest);
  }

  /** Over any later interval, from whatever the earlier requests left behind, the same bound holds up
      to one token: the dropped fractions never add up to more. */
  lemma {:induction false} AdmittedInInterval(cfg: Config, b: Bucket, rs: seq<Request>)
    requires cfg.windowMs > 0 && InOrder(rs) && rs != [] && b.lastRefill <= rs[0].now && b.tokens <= cfg.burst
    ensures Admitted(cfg, Some(b), rs) <= cfg.burst + Earned(cfg, Since(rs[0].now, rs[|rs| - 1].now)) + 1
  {
    var o := Opened(cfg, Some(b), rs[0].now);
    OpenedGap(cfg, b, rs[0].now);
    var gap, rest := rs[0].now - o.lastRefill, Since(rs[0].now, rs[|rs| - 1].now);
    var span := rs[|rs| - 1].now - o.lastRefill;
    BoundOpened(cfg, Some(b), rs, span);
    PaidBoundWithGap(cfg, Admitted(cfg, Some(b), rs), cfg.burst, span, gap, rest);
  }

  /** After opening, less than one token's worth of time is unaccounted for. */
  lemma {:induction false} OpenedGap(cfg: Config, b: Bucket, now: nat)
    requires cfg.windowMs > 0 && b.lastRefill <= now && b.tokens <= cfg.burst
    ensures var o := Opened(cfg, Some(b), now);
            o.lastRefill <= now && o.tokens <= cfg.burst && Times(now - o.lastRefill, cfg.maxRequests) < cfg.windowMs
  {
    EarnedIsPaid(cfg, now - b.lastRefill);
  }

  /** Every bucket a run leaves behind meets the hypotheses of the interval bound. */
  lemma {:induction false} BucketsStayInBounds(cfg: Config, rs: seq<Request>)
    requires cfg.windowMs > 0 && InOrder(rs) && rs != []
    ensures var b := Serve(cfg, None, rs);
            b.Some? && b.value.tokens <= cfg.burst && b.value.lastRefill <= rs[|rs| - 1].now
  {
    if |rs| > 1 {
      BucketsStayInBounds(cfg, rs[..|rs| - 1]);
    }
  }

  lemma {:induction false} ServeConcat(cfg: Config, entry: Option<Bucket>, a: seq<Request>, b: seq<Request>)
    requires cfg.windowMs > 0
    ensures Serve(cfg, entry, a + b) == Serve(cfg, Serve(cfg, entry, a), b)
    ensures Admitted(cfg, entry, a + b) == Admitted(cfg, entry, a) + Admitted(cfg, Serve(cfg, entry, a), b)
  {
    if b == [] {
      assert a + b == a;
    } else {
      var n := |b| - 1;
      assert (a + b)[..|a + b| - 1] == a + b[..n];
      ServeConcat(cfg, entry, a, b[..n]);
    }
  }

  /** So within one run the requests of any later stretch are admitted at most that much. */
  lemma {:induction false} AdmittedBetween(cfg: Config, earlier: seq<Request>, rs: seq<Request>)
    requires cfg.windowMs > 0 && earlier != [] && rs != [] && InOrder(earlier + rs)
    ensures Admitted(cfg, None, earlier + rs)
         <= Admitted(cfg, None, earlier) + cfg.burst + Earned(cfg, Since(rs[0].now, rs[|rs| - 1].now)) + 1
  {
    var all := earlier + rs;
    assert InOrder(earlier) && InOrder(rs) && earlier[|earlier| - 1].now <= rs[0].now by {
      assert forall i :: 0 <= i < |earlier| ==> all[i] == earlier[i];
      assert forall i :: 0 <= i < |rs| ==> all[|earlier| + i] == rs[i];
    }
    BucketsStayInBounds(cfg, earlier);
    ServeConcat(cfg, None, earlier, rs);
    AdmittedInInterval(cfg, Serve(cfg, None, earlier).value, rs);
  }

  // ----- eviction -----------------------------------------------------------------------

  datatype Op = CheckOp(ip: string, now: nat, cost: nat) | CleanupOp(now: nat)

  ghost predicate OpsInOrder(ops: seq<Op>) {
    forall i, j :: 0 <= i < j < |ops| ==> ops[i].now <= ops[j].now
  }

  /** The client map after a run, with cleanups taking effect or being ignored. */
  function Clients(cfg: Config, maxAge: nat, evicting: bool, ops: seq<Op>): map<string, Bucket> {
    if ops == [] then map[]
    else
      var before := Clients(cfg, maxAge, evicting, ops[..|ops| - 1]);
      match ops[|ops| - 1]
      case CheckOp(ip, now, cost) => before[ip := Check(cfg, Lookup(before, ip), now, cost).bucket]
      case CleanupOp(now) => if evicting then Retained(before, maxAge, now) else before
  }

  function Decisions(cfg: Config, maxAge: nat, evicting: bool, ops: seq<Op>): seq<bool> {
    if ops == [] then []
    else
      var front := ops[..|ops| - 1];
      Decisions(cfg, maxAge, evicting, front)
      + match ops[|ops| - 1]
        case CheckOp(ip, now, cost) =>
          [Check(cfg, Lookup(Clients(cfg, maxAge, evicting, front), ip), now, cost).allowed]
        case CleanupOp(_) => []
  }

  /** Two buckets that decide alike for ever: equal ones, or empty ones when nothing can be stored. */
  predicate Alike(cfg: Config, b: Bucket, c: Bucket) {
    b == c || (cfg.burst == 0 && b.tokens == c.tokens == 0)
  }

  /** What the evicting and the keeping limiter may hold for one client: the evicting one lacks only an
      entry that would be refilled to the brim. */
  ghost predicate RelatedEntries(cfg: Config, e: Option<Bucket>, k: Option<Bucket>, now: nat)
    requires cfg.windowMs > 0
  {
    if k.None? then e.None?
    else
      && k.value.lastRefill <= now && k.value.tokens <= cfg.burst
      && if e.None? then cfg.burst <= Earned(cfg, now - k.value.lastRefill)
         else e.value.lastRefill <= now && Alike(cfg, e.value, k.value)
  }

  ghost predicate Related(cfg: Config, evicting: map<string, Bucket>, keeping: map<string, Bucket>, now: nat)
    requires cfg.windowMs > 0
  {
    forall ip :: RelatedEntries(cfg, Lookup(evicting, ip), Lookup(keeping, ip), now)
  }

  lemma {:induction false} EarnedMonotone(cfg: Config, e1: nat, e2: nat)
    requires cfg.windowMs > 0 && e1 <= e2
    ensures Earned(cfg, e1) <= Earned(cfg, e2)
  {
    TimesAdds(e1, e2 - e1, cfg.maxRequests);
    EarnedIsPaid(cfg, e1);
    QuotientGreatest(Earned(cfg, e1), Times(e2, cfg.maxRequests), cfg.windowMs);
  }

  lemma {:induction false} RelatedLater(cfg: Config, e: map<string, Bucket>, k: map<string, Bucket>, now: nat,
      later: nat)
    requires cfg.windowMs > 0 && Related(cfg, e, k, now) && now <= later
    ensures Related(cfg, e, k, later)
  {
    forall ip ensures RelatedEntries(cfg, Lookup(e, ip), Lookup(k, ip), later) {
      assert RelatedEntries(cfg, Lookup(e, ip), Lookup(k, ip), now);
      if ip in k && ip !in e {
        EarnedMonotone(cfg, now - k[ip].lastRefill, later - k[ip].lastRefill);
      }
    }
  }

  lemma {:induction false} EntriesDecideAlike(cfg: Config, e: Option<Bucket>, k: Option<Bucket>, now: nat, cost: nat)
    requires cfg.windowMs > 0 && RelatedEntries(cfg, e, k, now)
    ensures var v, w := Check(cfg, e, now, cost), Check(cfg, k, now, cost);
            v.allowed == w.allowed && RelatedEntries(cfg, Some(v.bucket), Some(w.bucket), now)
  {
    EarnedIsPaid(cfg, 0);
  }

  lemma {:induction false} CheckKeepsRelated(cfg: Config, e: map<string, Bucket>, k: map<string, Bucket>,
      ip: string, now: nat, cost: nat)
    requires cfg.windowMs > 0 && Related(cfg, e, k, now)
    ensures var v, w := Check(cfg, Lookup(e, ip), now, cost), Check(cfg, Lookup(k, ip), now, cost);
            v.allowed == w.allowed && Related(cfg, e[ip := v.bucket], k[ip := w.bucket], now)
  {
    var v, w := Check(cfg, Lookup(e, ip), now, cost), Check(cfg, Lookup(k, ip), now, cost);
    EntriesDecideAlike(cfg, Lookup(e, ip), Lookup(k, ip), now, cost);
    var e', k' := e[ip := v.bucket], k[ip := w.bucket];
    forall other ensures RelatedEntries(cfg, Lookup(e', other), Lookup(k', other), now) {
      assert RelatedEntries(cfg, Lookup(e, other), Lookup(k, other), now);
    }
  }

  lemma {:induction false} CleanupKeepsRelated(cfg: Config, e: map<string, Bucket>, k: map<string, Bucket>,
      maxAge: nat, now: nat)
    requires cfg.windowMs > 0 && Related(cfg, e, k, now) && cfg.burst <= Earned(cfg, maxAge)
    ensures Related(cfg, Retained(e, maxAge, now), k, now)
  {
    forall ip ensures RelatedEntries(cfg, Lookup(Retained(e, maxAge, now), ip), Lookup(k, ip), now) {
      assert RelatedEntries(cfg, Lookup(e, ip), Lookup(k, ip), now);
      if ip in e && ip !in Retained(e, maxAge, now) && cfg.burst > 0 {
        EarnedMonotone(cfg, maxAge, now - k[ip].lastRefill);
      }
    }
  }

  lemma {:induction false} RunsStayRelated(cfg: Config, maxAge: nat, ops: seq<Op>)
    requires cfg.windowMs > 0 && OpsInOrder(ops) && cfg.burst <= Earned(cfg, maxAge)
    ensures Decisions(cfg, maxAge, true, ops) == Decisions(cfg, maxAge, false, ops)
    ensures ops != [] ==>
              Related(cfg, Clients(cfg, maxAge, true, ops), Clients(cfg, maxAge, false, ops), ops[|ops| - 1].now)
  {
    if ops != [] {
      var n := |ops| - 1;
      var front, now := ops[..n], ops[n].now;
      RunsStayRelated(cfg, maxAge, front);
      var e, k := Clients(cfg, maxAge, true, front), Clients(cfg, maxAge, false, front);
      if n > 0 {
        RelatedLater(cfg, e, k, front[n - 1].now, now);
      }
      assert Related(cfg, e, k, now);
      match ops[n] {
        case CheckOp(ip, _, cost) => CheckKeepsRelated(cfg, e, k, ip, now, cost);
        case CleanupOp(_) => CleanupKeepsRelated(cfg, e, k, maxAge, now);
      }
    }
  }

  /** Cleanups never change a decision. */
  ghost predicate EvictionInvisible(cfg: Config, maxAge: nat) {
    forall ops :: OpsInOrder(ops) ==> Decisions(cfg, maxAge, true, ops) == Decisions(cfg, maxAge, false, ops)
  }

  /** What a bucket is sure to earn in an interval: nothing when the window is zero, because a full
      bucket then loses a token. */
  function EarnsBack(cfg: Config, maxAge: nat): nat {
    if cfg.windowMs == 0 then 0 else Earned(cfg, maxAge)
  }

  /** Eviction is invisible exactly when the maximum age earns back a full burst. */
  lemma {:induction false} EvictionInvisibleIff(cfg: Config, maxAge: nat)
    ensures EvictionInvisible(cfg, maxAge) <==> cfg.burst <= EarnsBack(cfg, maxAge)
  {
    if cfg.burst <= EarnsBack(cfg, maxAge) {
      forall ops | OpsInOrder(ops)
        ensures Decisions(cfg, maxAge, true, ops) == Decisions(cfg, maxAge, false, ops)
      {
        if cfg.windowMs == 0 {
          NothingToEvict(cfg, maxAge, ops);
        } else {
          RunsStayRelated(cfg, maxAge, ops);
        }
      }
    } else {
      EvictionVisible(cfg, maxAge);
    }
  }

  /** Without a burst no bucket ever holds a token. */
  lemma {:induction false} NothingToEvict(cfg: Config, maxAge: nat, ops: seq<Op>)
    requires cfg.windowMs == 0 && cfg.burst == 0
    ensures Decisions(cfg, maxAge, true, ops) == Decisions(cfg, maxAge, false, ops)
    ensures AllEmpty(Clients(cfg, maxAge, true, ops)) && AllEmpty(Clients(cfg, maxAge, false, ops))
  {
    if ops != [] {
      NothingToEvict(cfg, maxAge, ops[..|ops| - 1]);
    }
  }

  ghost predicate AllEmpty(clients: map<string, Bucket>) {
    forall ip :: ip in clients ==> clients[ip].tokens == 0
  }

  /** A run whose last decision tells whether the cleanup took effect: the first request spends `first`,
      which leaves too little for a full burst at `later`. */
  function TellingRun(cfg: Config, maxAge: nat, first: nat, later: nat): seq<Op> {
    [CheckOp("c", 0, first), CleanupOp(maxAge), CheckOp("c", later, cfg.burst)]
  }

  lemma {:induction false} EvictionVisible(cfg: Config, maxAge: nat)
    requires EarnsBack(cfg, maxAge) < cfg.burst
    ensures !EvictionInvisible(cfg, maxAge)
  {
    var atOnce := cfg.windowMs == 0 && cfg.maxRequests > 0;
    var first, later := if atOnce then 0 else cfg.burst, if atOnce then maxAge + 1 else maxAge;
    var ops := TellingRun(cfg, maxAge, first, later);
    assert OpsInOrder(ops);
    FirstLeaves(cfg, first);
    assert Refilled(cfg, Bucket(cfg.burst - first, 0), later).tokens < cfg.burst;
    VisibleRun(cfg, maxAge, first, later, true);
    VisibleRun(cfg, maxAge, first, later, false);
    assert Decisions(cfg, maxAge, true, ops)[1] != Decisions(cfg, maxAge, false, ops)[1];
  }

  lemma {:induction false} FirstLeaves(cfg: Config, cost: nat)
    requires cost <= cfg.burst
    ensures Check(cfg, None, 0, cost) == Verdict(Bucket(cfg.burst - cost, 0), true)
  {
    if cfg.windowMs > 0 {
      EarnedIsPaid(cfg, 0);
    }
  }

  lemma {:induction false} VisibleRun(cfg: Config, maxAge: nat, first: nat, later: nat, evicting: bool)
    requires first <= cfg.burst && Refilled(cfg, Bucket(cfg.burst - first, 0), later).tokens < cfg.burst
    ensures Decisions(cfg, maxAge, evicting, TellingRun(cfg, maxAge, first, later)) == [true, evicting]
  {
    var ops := TellingRun(cfg, maxAge, first, later);
    var o1, o2 := ops[0], ops[1];
    FirstLeaves(cfg, first);
    assert [o1][..0] == [] && [o1, o2][..1] == [o1] && ops[..2] == [o1, o2];
    var left := Bucket(cfg.burst - first, 0);
    var c0: map<string, Bucket> := map[];
    assert Clients(cfg, maxAge, evicting, []) == c0 && Lookup(c0, "c") == None;
    var c1 := Clients(cfg, maxAge, evicting, [o1]);
    assert c1 == c0["c" := left];
    assert c1 == map["c" := left];
    assert Decisions(cfg, maxAge, evicting, [o1]) == [true];
    var c2 := Clients(cfg, maxAge, evicting, [o1, o2]);
    assert c2 == if evicting then map[] else c1;
    assert Decisions(cfg, maxAge, evicting, [o1, o2]) == [true];
    if cfg.windowMs > 0 {
      EarnedIsPaid(cfg, 0);
    }
  }
}
