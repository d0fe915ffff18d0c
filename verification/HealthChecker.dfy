/** Health hysteresis: consecutive probe results move a backend between healthy and unhealthy. */
module HealthChecking {
  import opened Common

  datatype Config = Config(unhealthyThreshold: nat, healthyThreshold: nat)

  datatype Status = Status(
    healthy: bool,
    lastCheck: nat,
    latencyMs: Option<nat>,
    consecutiveFailures: U32,
    consecutiveSuccesses: U32,
    lastError: Option<string>)

  datatype Result = Success(latencyMs: nat) | Failure(error: string, latencyMs: nat)

  datatype Action = HealthChanged(healthy: bool) | NoChange

  function Initial(now: nat): Status {
    Status(true, now, None, 0, 0, None)
  }

  /** `calculate_health_transition`; the time of the check is not touched. */
  function Transition(cfg: Config, s: Status, r: Result): (Status, Action) {
    var s' := match r
      case Success(latency) =>
        var n := Increment(s.consecutiveSuccesses);
        s.(consecutiveSuccesses := n, consecutiveFailures := 0, latencyMs := Some(latency), lastError := None,
           healthy := s.healthy || n >= cfg.healthyThreshold)
      case Failure(error, latency) =>
        var n := Increment(s.consecutiveFailures);
        s.(consecutiveFailures := n, consecutiveSuccesses := 0, latencyMs := Some(latency), lastError := Some(error),
           healthy := s.healthy && n < cfg.unhealthyThreshold);
    (s', if s.healthy != s'.healthy then HealthChanged(s'.healthy) else NoChange)
  }

  class HealthChecker {
    const cfg: Config
    var statuses: map<string, Status>

    constructor (cfg: Config)
      ensures this.cfg == cfg && statuses == map[]
    {
      this.cfg, statuses := cfg, map[];
    }

    /** The in-place update agrees with the pure transition, except that it also notes the time. */
    method UpdateStatus(backend: string, result: Result, now: nat) returns (callback: Action)
      modifies this
      ensures var before := if backend in old(statuses) then old(statuses)[backend] else Initial(now);
              var (after, action) := Transition(cfg, before, result);
              statuses == old(statuses)[backend := after.(lastCheck := now)] && callback == action
    {
      if backend !in statuses {
        statuses := statuses[backend := Initial(now)];
      }
      var entry := statuses[backend];
      var wasHealthy := entry.healthy;
      match result {
        case Success(latency) =>
          entry := entry.(consecutiveSuccesses := Increment(entry.consecutiveSuccesses));
          entry := entry.(consecutiveFailures := 0, latencyMs := Some(latency), lastError := None);
          if !entry.healthy && entry.consecutiveSuccesses >= cfg.healthyThreshold {
            entry := entry.(healthy := true);
          }
        case Failure(error, latency) =>
          entry := entry.(consecutiveFailures := Increment(entry.consecutiveFailures));
          entry := entry.(consecutiveSuccesses := 0, latencyMs := Some(latency), lastError := Some(error));
          if entry.healthy && entry.consecutiveFailures >= cfg.unhealthyThreshold {
            entry := entry.(healthy := false);
          }
      }
      statuses := statuses[backend := entry.(lastCheck := now)];
      callback := if wasHealthy != entry.healthy then HealthChanged(entry.healthy) else NoChange;
    }
  }

  // ----- runs of probe results ----------------------------------------------------------

  function After(cfg: Config, rs: seq<Result>): Status {
    if rs == [] then Initial(0) else Transition(cfg, After(cfg, rs[..|rs| - 1]), rs[|rs| - 1]).0
  }

  function Callbacks(cfg: Config, rs: seq<Result>): seq<bool> {
    if rs == [] then []
    else
      var front := rs[..|rs| - 1];
      Callbacks(cfg, front)
      + match Transition(cfg, After(cfg, front), rs[|rs| - 1]).1
        case HealthChanged(healthy) => [healthy]
        case NoChange => []
  }

  /** The length of the run of successes, or of failures, at the end. */
  function Trailing(rs: seq<Result>, success: bool): (n: nat)
    ensures n <= |rs|
  {
    if rs == [] || rs[|rs| - 1].Success? != success then 0 else Trailing(rs[..|rs| - 1], success) + 1
  }

  /** The kind of the latest run that was long enough to decide. */
  function LatestDecisive(cfg: Config, rs: seq<Result>): Option<bool> {
    if rs == [] then None
    else if Trailing(rs, false) >= AtLeastOne(cfg.unhealthyThreshold) then Some(false)
    else if Trailing(rs, true) >= AtLeastOne(cfg.healthyThreshold) then Some(true)
    else LatestDecisive(cfg, rs[..|rs| - 1])
  }

  lemma {:induction false} CountersAreRuns(cfg: Config, rs: seq<Result>)
    requires |rs| < 0x1_0000_0000
    ensures After(cfg, rs).consecutiveFailures == Trailing(rs, false)
    ensures After(cfg, rs).consecutiveSuccesses == Trailing(rs, true)
    ensures rs != [] ==>
              var last := rs[|rs| - 1];
              && After(cfg, rs).latencyMs == Some(last.latencyMs)
              && After(cfg, rs).lastError == if last.Failure? then Some(last.error) else None
  {
    if rs != [] {
      CountersAreRuns(cfg, rs[..|rs| - 1]);
    }
  }

  /** A backend is unhealthy exactly when the latest decisive run of results was a failing one. */
  lemma {:induction false} HealthIsLatestDecisive(cfg: Config, rs: seq<Result>)
    requires |rs| < 0x1_0000_0000
    ensures After(cfg, rs).healthy <==> LatestDecisive(cfg, rs) != Some(false)
  {
    if rs != [] {
      HealthIsLatestDecisive(cfg, rs[..|rs| - 1]);
      CountersAreRuns(cfg, rs);
    }
  }

  /** Callbacks alternate, starting with "unhealthy", and their number tells the current health. */
  lemma {:induction false} CallbacksAlternate(cfg: Config, rs: seq<Result>)
    ensures forall i :: 0 <= i < |Callbacks(cfg, rs)| ==> Callbacks(cfg, rs)[i] == (i % 2 == 1)
    ensures After(cfg, rs).healthy <==> |Callbacks(cfg, rs)| % 2 == 0
  {
    if rs != [] {
      CallbacksAlternate(cfg, rs[..|rs| - 1]);
    }
  }
}
