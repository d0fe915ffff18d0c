/** The per-backend circuit breaker, compared with the history of calls it has seen. */
module CircuitBreaking {
  import opened Common

  datatype Config = Config(failureThreshold: nat, resetTimeout: nat, successThreshold: nat, failureWindow: nat)

  datatype State = Closed | Open | HalfOpen

  datatype Circuit = Circuit(state: State, failures: nat, successes: nat, openedAt: nat, lastFailure: nat)

  const NEW := Circuit(Closed, 0, 0, 0, 0)

  // ----- the calls ----------------------------------------------------------------------

  predicate Admits(cfg: Config, c: Circuit, now: nat) {
    c.state == Open ==> Since(c.openedAt, now) >= cfg.resetTimeout
  }

  function AfterAllow(cfg: Config, c: Circuit, now: nat): Circuit {
    if c.state == Open && Admits(cfg, c, now) then c.(state := HalfOpen, successes := 0) else c
  }

  function AfterSuccess(cfg: Config, c: Circuit): Circuit {
    match c.state
    case HalfOpen =>
      if c.successes + 1 >= cfg.successThreshold then c.(state := Closed, failures := 0, successes := 0)
      else c.(successes := c.successes + 1)
    case Closed => c.(failures := 0)
    case Open => c
  }

  function AfterFailure(cfg: Config, c: Circuit, now: nat): Circuit {
    match c.state
    case Closed =>
      if Since(c.lastFailure, now) > cfg.failureWindow then c.(failures := 1, lastFailure := now)
      else if c.failures + 1 >= cfg.failureThreshold then
        c.(state := Open, failures := c.failures + 1, openedAt := now, lastFailure := now)
      else c.(failures := c.failures + 1, lastFailure := now)
    case HalfOpen => c.(state := Open, openedAt := now, successes := 0)
    case Open => c.(openedAt := now)
  }

  function AfterReset(c: Circuit): Circuit {
    c.(state := Closed, failures := 0, successes := 0)
  }

  class CircuitBreaker {
    const cfg: Config
    var circuits: map<string, Circuit>

    constructor (cfg: Config)
      ensures this.cfg == cfg && circuits == map[]
    {
      this.cfg, circuits := cfg, map[];
    }

    ghost function Of(backend: string): Circuit
      reads this
    {
      if backend in circuits then circuits[backend] else NEW
    }

    method GetOrCreate(backend: string) returns (c: Circuit)
      modifies this
      ensures c == old(Of(backend)) && circuits == old(circuits)[backend := c]
    {
      if backend !in circuits {
        circuits := circuits[backend := NEW];
      }
      c := circuits[backend];
    }

    method AllowRequest(backend: string, now: nat) returns (allowed: bool)
      modifies this
      ensures allowed == Admits(cfg, old(Of(backend)), now)
      ensures circuits == old(circuits)[backend := AfterAllow(cfg, old(Of(backend)), now)]
    {
      var c := GetOrCreate(backend);
      match c.state
      case Closed => allowed := true;
      case HalfOpen => allowed := true;
      case Open =>
        if Since(c.openedAt, now) >= cfg.resetTimeout {
          circuits := circuits[backend := c.(state := HalfOpen, successes := 0)];
          allowed := true;
        } else {
          allowed := false;
        }
    }

    method RecordSuccess(backend: string)
      modifies this
      ensures circuits == old(circuits)[backend := AfterSuccess(cfg, old(Of(backend)))]
    {
      var c := GetOrCreate(backend);
      match c.state
      case HalfOpen =>
        var successes := c.successes + 1;
        circuits := circuits[backend := c.(successes := successes)];
        if successes >= cfg.successThreshold {
          circuits := circuits[backend := c.(state := Closed, failures := 0, successes := 0)];
        }
      case Closed => circuits := circuits[backend := c.(failures := 0)];
      case Open =>
    }

    method RecordFailure(backend: string, now: nat)
      modifies this
      ensures circuits == old(circuits)[backend := AfterFailure(cfg, old(Of(backend)), now)]
    {
      var c := GetOrCreate(backend);
      match c.state
      case Closed =>
        if Since(c.lastFailure, now) > cfg.failureWindow {
          c := c.(failures := 1);
        } else {
          c := c.(failures := c.failures + 1);
          if c.failures >= cfg.failureThreshold {
            c := c.(state := Open, openedAt := now);
          }
        }
        circuits := circuits[backend := c.(lastFailure := now)];
      case HalfOpen => circuits := circuits[backend := c.(state := Open, openedAt := now, successes := 0)];
      case Open => circuits := circuits[backend := c.(openedAt := now)];
    }

    method Reset(backend: string)
      modifies this
      ensures circuits == if backend in old(circuits)
                          then old(circuits)[backend := AfterReset(old(circuits)[backend])] else old(circuits)
    {
      if backend in circuits {
        circuits := circuits[backend := circuits[backend].(state := Closed, failures := 0, successes := 0)];
      }
    }
  }

  // ----- histories ----------------------------------------------------------------------

  datatype Call = Allow(now: nat) | Success | Failure(now: nat) | ManualReset

  function Next(cfg: Config, c: Circuit, call: Call): Circuit {
    match call
    case Allow(now) => AfterAllow(cfg, c, now)
    case Success => AfterSuccess(cfg, c)
    case Failure(now) => AfterFailure(cfg, c, now)
    case ManualReset => AfterReset(c)
  }

  function After(cfg: Config, h: seq<Call>): Circuit {
    if h == [] then NEW else Next(cfg, After(cfg, h[..|h| - 1]), h[|h| - 1])
  }

  /** When the current state was entered: the length of the history then. */
  function Entered(cfg: Config, h: seq<Call>): (n: nat)
    ensures n <= |h|
  {
    if h == [] then 0
    else if After(cfg, h).state == After(cfg, h[..|h| - 1]).state then Entered(cfg, h[..|h| - 1])
    else |h|
  }

  /** The calls made since the current state was entered. */
  function Current(cfg: Config, h: seq<Call>): seq<Call> {
    h[Entered(cfg, h)..]
  }

  /** Time of the latest failure in a list of calls. */
  function LatestFailure(h: seq<Call>): Option<nat> {
    if h == [] then None
    else if h[|h| - 1].Failure? then Some(h[|h| - 1].now)
    else LatestFailure(h[..|h| - 1])
  }

  /** The length of the streak of failures at the end of a list: it is broken by a success or a manual
      reset, and by a gap longer than the window. */
  function Streak(window: nat, h: seq<Call>): nat {
    if h == [] then 0
    else
      var front, last := h[..|h| - 1], h[|h| - 1];
      match last
      case Allow(_) => Streak(window, front)
      case Success => 0
      case ManualReset => 0
      case Failure(now) =>
        var previous := LatestFailure(front);
        if previous.Some? && Since(previous.value, now) > window then 1 else Streak(window, front) + 1
  }

  function Successes(h: seq<Call>): nat {
    if h == [] then 0 else Successes(h[..|h| - 1]) + if h[|h| - 1].Success? then 1 else 0
  }

  predicate NoFailure(h: seq<Call>) {
    forall c <- h :: !c.Failure?
  }

  /** Time of the latest failure that met a closed circuit, or 0 if there was none. */
  function LatestWhileClosed(cfg: Config, h: seq<Call>): nat {
    if h == [] then 0
    else if h[|h| - 1].Failure? && After(cfg, h[..|h| - 1]).state == Closed then h[|h| - 1].now
    else LatestWhileClosed(cfg, h[..|h| - 1])
  }

  // ----- the circuit is its history -----------------------------------------------------

  /** What each field of the circuit says about the calls it has seen. */
  ghost predicate TellsHistory(cfg: Config, h: seq<Call>) {
    var c, current := After(cfg, h), Current(cfg, h);
    && c.lastFailure == LatestWhileClosed(cfg, h)
    && match c.state
    case Closed =>
      && c.failures == Streak(cfg.failureWindow, current)
      && (c.failures > 0 ==> LatestFailure(current) == Some(c.lastFailure))
      && (cfg.failureThreshold >= 2 ==> c.failures < cfg.failureThreshold)
    case Open =>
      && LatestFailure(h) == Some(c.openedAt)
    case HalfOpen =>
      && c.successes == Successes(current) < AtLeastOne(cfg.successThreshold) && NoFailure(current)
  }

  lemma {:induction false} NoStreakWithoutFailure(window: nat, h: seq<Call>)
    requires LatestFailure(h).None?
    ensures Streak(window, h) == 0
  {
    if h != [] {
      NoStreakWithoutFailure(window, h[..|h| - 1]);
    }
  }

  lemma {:induction false} CurrentGrows(cfg: Config, h: seq<Call>, call: Call)
    ensures After(cfg, h + [call]) == Next(cfg, After(cfg, h), call)
    ensures Current(cfg, h + [call])
         == if After(cfg, h + [call]).state == After(cfg, h).state then Current(cfg, h) + [call] else []
  {
    assert (h + [call])[..|h|] == h;
  }

  /** A streak counts at most one from a fresh start, so an old failure time cannot extend it. */
  lemma {:induction false} StreakGrows(cfg: Config, current: seq<Call>, now: nat, c: Circuit)
    requires c.failures == Streak(cfg.failureWindow, current)
    requires c.failures > 0 ==> LatestFailure(current) == Some(c.lastFailure)
    ensures Streak(cfg.failureWindow, current + [Failure(now)])
         == if Since(c.lastFailure, now) > cfg.failureWindow then 1 else c.failures + 1
    ensures LatestFailure(current + [Failure(now)]) == Some(now)
  {
    assert (current + [Failure(now)])[..|current|] == current;
    if LatestFailure(current).None? {
      NoStreakWithoutFailure(cfg.failureWindow, current);
    }
  }

  lemma {:induction false} StepTellsHistory(cfg: Config, h: seq<Call>, call: Call)
    requires TellsHistory(cfg, h)
    ensures TellsHistory(cfg, h + [call])
  {
    var c, current := After(cfg, h), Current(cfg, h);
    CurrentGrows(cfg, h, call);
    assert (h + [call])[..|h|] == h && (current + [call])[..|current|] == current;
    if call.Failure? && c.state == Closed {
      StreakGrows(cfg, current, call.now, c);
    }
  }

  /** The circuit refines its history: closed, it counts the streak of failures since it closed; open, it
      remembers the latest failure of all; half-open, it counts the successes since, without a failure. */
  lemma {:induction false} CircuitTellsHistory(cfg: Config, h: seq<Call>)
    ensures TellsHistory(cfg, h)
  {
    if h != [] {
      var n := |h| - 1;
      CircuitTellsHistory(cfg, h[..n]);
      StepTellsHistory(cfg, h[..n], h[n]);
      assert h == h[..n] + [h[n]];
    }
  }

  lemma {:induction false} ClosedTellsHistory(cfg: Config, h: seq<Call>)
    requires After(cfg, h).state == Closed
    ensures var c := After(cfg, h);
            && c.lastFailure == LatestWhileClosed(cfg, h)
            && c.failures == Streak(cfg.failureWindow, Current(cfg, h))
            && (c.failures > 0 ==> LatestFailure(Current(cfg, h)) == Some(c.lastFailure))
            && (cfg.failureThreshold >= 2 ==> c.failures < cfg.failureThreshold)
  {
    CircuitTellsHistory(cfg, h);
  }

  /** When a closed circuit opens, for every threshold: on a failure that comes within the window of the
      latest failure met while closed and brings the streak to the threshold. */
  lemma {:induction false} OpensExactly(cfg: Config, h: seq<Call>, call: Call)
    requires After(cfg, h).state == Closed
    ensures After(cfg, h + [call]).state == Open <==>
            && call.Failure? && Since(LatestWhileClosed(cfg, h), call.now) <= cfg.failureWindow
            && cfg.failureThreshold <= Streak(cfg.failureWindow, Current(cfg, h) + [call])
  {
    ClosedTellsHistory(cfg, h);
    CurrentGrows(cfg, h, call);
    var c := After(cfg, h);
    assert After(cfg, h + [call]) == Next(cfg, c, call);
    if call.Failure? {
      StreakGrows(cfg, Current(cfg, h), call.now, c);
    }
  }

  /** From a threshold of two on, it opens exactly when the streak reaches the threshold. */
  lemma {:induction false} OpensExactlyAtThreshold(cfg: Config, h: seq<Call>, call: Call)
    requires cfg.failureThreshold >= 2 && After(cfg, h).state == Closed
    ensures After(cfg, h + [call]).state == Open <==>
            call.Failure? && Streak(cfg.failureWindow, Current(cfg, h) + [call]) == cfg.failureThreshold
  {
    OpensExactly(cfg, h, call);
    ClosedTellsHistory(cfg, h);
    if call.Failure? {
      StreakGrows(cfg, Current(cfg, h), call.now, After(cfg, h));
    }
  }

  /** Open, it admits a request exactly when the reset timeout has passed since the latest failure. */
  lemma {:induction false} AdmitsAfterTimeout(cfg: Config, h: seq<Call>, now: nat)
    requires After(cfg, h).state == Open
    ensures LatestFailure(h).Some?
    ensures Admits(cfg, After(cfg, h), now) <==> Since(LatestFailure(h).value, now) >= cfg.resetTimeout
    ensures After(cfg, h + [Allow(now)]).state == if Admits(cfg, After(cfg, h), now) then HalfOpen else Open
    ensures forall call: Call :: !call.Allow? && !call.ManualReset? ==> After(cfg, h + [call]).state == Open
  {
    CircuitTellsHistory(cfg, h);
    CurrentGrows(cfg, h, Allow(now));
    forall call: Call ensures After(cfg, h + [call]) == Next(cfg, After(cfg, h), call) {
      CurrentGrows(cfg, h, call);
    }
  }

  /** Half-open, it closes exactly on the success that completes the threshold with no failure in
      between, re-opens exactly on a failure, and admits everything meanwhile. */
  lemma {:induction false} ClosesAfterSuccesses(cfg: Config, h: seq<Call>, call: Call)
    requires After(cfg, h).state == HalfOpen
    ensures NoFailure(Current(cfg, h)) && forall now :: Admits(cfg, After(cfg, h), now)
    ensures After(cfg, h + [call]).state == Closed <==>
            || call.ManualReset?
            || (call.Success? && Successes(Current(cfg, h) + [call]) == AtLeastOne(cfg.successThreshold))
    ensures After(cfg, h + [call]).state == Open <==> call.Failure?
  {
    CircuitTellsHistory(cfg, h);
    CurrentGrows(cfg, h, call);
    assert (Current(cfg, h) + [call])[..|Current(cfg, h)|] == Current(cfg, h);
  }

  /** With a threshold of at most one the streak no longer decides: a failure opens a closed circuit exactly
      when it comes within the window of the latest failure met while closed, because the branch for an
      expired window does not test the threshold. The very first failure opens it exactly when the
      breaker is no older than the window. */
  lemma {:induction false} ThresholdOneMayNotOpen(cfg: Config, h: seq<Call>, now: nat)
    requires cfg.failureThreshold <= 1 && After(cfg, h).state == Closed
    ensures After(cfg, h + [Failure(now)]).state == Open <==>
            Since(LatestWhileClosed(cfg, h), now) <= cfg.failureWindow
    ensures NoFailure(h) ==> (After(cfg, h + [Failure(now)]).state == Open <==> now <= cfg.failureWindow)
  {
    OpensExactly(cfg, h, Failure(now));
    assert (Current(cfg, h) + [Failure(now)])[..|Current(cfg, h)|] == Current(cfg, h);
    if NoFailure(h) {
      NoneWhileClosed(cfg, h);
    }
  }

  lemma {:induction false} NoneWhileClosed(cfg: Config, h: seq<Call>)
    requires NoFailure(h)
    ensures LatestWhileClosed(cfg, h) == 0
  {
    if h != [] {
      NoneWhileClosed(cfg, h[..|h| - 1]);
    }
  }

  /** The promise of the configuration: whatever happened before, a closed circuit opens exactly on the
      failure that brings the streak to the threshold. */
  ghost predicate OpensAtThreshold(cfg: Config) {
    forall h: seq<Call>, call: Call :: StreakDecides(cfg, h, call)
  }

  predicate StreakDecides(cfg: Config, h: seq<Call>, call: Call) {
    After(cfg, h).state == Closed ==>
      (After(cfg, h + [call]).state == Open <==>
       call.Failure? && cfg.failureThreshold <= Streak(cfg.failureWindow, Current(cfg, h) + [call]))
  }

  lemma {:induction false} StreakAlwaysDecides(cfg: Config, h: seq<Call>, call: Call)
    requires cfg.failureThreshold >= 2
    ensures StreakDecides(cfg, h, call)
  {
    if After(cfg, h).state == Closed {
      OpensExactly(cfg, h, call);
      ClosedTellsHistory(cfg, h);
      if call.Failure? {
        StreakGrows(cfg, Current(cfg, h), call.now, After(cfg, h));
      }
    }
  }

  /** Below two, a first failure that comes late does not open the circuit. */
  lemma {:induction false} LateFailureMissed(cfg: Config)
    requires cfg.failureThreshold <= 1
    ensures !StreakDecides(cfg, [], Failure(cfg.failureWindow + 1))
  {
    var late := Failure(cfg.failureWindow + 1);
    ThresholdOneMayNotOpen(cfg, [], cfg.failureWindow + 1);
    assert Current(cfg, []) + [late] == [late] && [late][..0] == [];
    assert After(cfg, []).state == Closed && After(cfg, [] + [late]).state != Open;
  }

  /** It is kept exactly from a threshold of two on. */
  lemma {:induction false} PromiseKeptIff(cfg: Config)
    ensures OpensAtThreshold(cfg) <==> cfg.failureThreshold >= 2
  {
    if cfg.failureThreshold >= 2 {
      forall h: seq<Call>, call: Call ensures StreakDecides(cfg, h, call) {
        StreakAlwaysDecides(cfg, h, call);
      }
    } else {
      LateFailureMissed(cfg);
    }
  }

  // ----- manual reset -------------------------------------------------------------------

  /** A manual reset closes the circuit whatever its state, so that it admits every request and has counted
      nothing. */
  lemma {:induction false} ResetCloses(cfg: Config, h: seq<Call>, now: nat)
    ensures var c := After(cfg, h + [ManualReset]);
            c.state == Closed && c.failures == 0 && c.successes == 0 && Admits(cfg, c, now)
  {
    CurrentGrows(cfg, h, ManualReset);
  }

  /** From here on the two circuits cannot be told apart. */
  predicate Alike(cfg: Config, c: Circuit, d: Circuit) {
    && c.state == d.state
    && (c.state == Closed ==> c.failures == d.failures && (c.failures > 0 ==> c.lastFailure == d.lastFailure))
    && (c.state == Open ==> c.openedAt == d.openedAt)
    && (c.state == HalfOpen ==> c.successes == d.successes)
    && (cfg.failureThreshold <= 1 ==> c.lastFailure == d.lastFailure)
  }

  lemma NextKeepsAlike(cfg: Config, c: Circuit, d: Circuit, call: Call)
    requires Alike(cfg, c, d)
    ensures Alike(cfg, Next(cfg, c, call), Next(cfg, d, call))
    ensures forall now :: Admits(cfg, c, now) == Admits(cfg, d, now)
  {
  }

  lemma {:induction false} StaysAlike(cfg: Config, h: seq<Call>, later: seq<Call>)
    requires Alike(cfg, After(cfg, h), NEW)
    ensures Alike(cfg, After(cfg, h + later), After(cfg, later))
  {
    if later == [] {
      assert h + later == h;
    } else {
      var n := |later| - 1;
      StaysAlike(cfg, h, later[..n]);
      assert (h + later)[..|h| + n] == h + later[..n];
      NextKeepsAlike(cfg, After(cfg, h + later[..n]), After(cfg, later[..n]), later[n]);
    }
  }

  /** Whatever follows a reset, the circuit goes through the states of a new one. */
  ghost predicate LikeNewAfterReset(cfg: Config, h: seq<Call>) {
    forall later: seq<Call> :: After(cfg, h + [ManualReset] + later).state == After(cfg, later).state
  }

  /** A reset makes a circuit like new exactly from a threshold of two on, or if no failure has ever met it
      closed after time 0: the time of the latest such failure survives the reset. */
  lemma {:induction false} LikeNewIff(cfg: Config, h: seq<Call>)
    ensures LikeNewAfterReset(cfg, h) <==> cfg.failureThreshold >= 2 || LatestWhileClosed(cfg, h) == 0
  {
    var reset, last := h + [ManualReset], LatestWhileClosed(cfg, h);
    ResetCloses(cfg, h, 0);
    CircuitTellsHistory(cfg, h);
    CurrentGrows(cfg, h, ManualReset);
    assert After(cfg, reset).lastFailure == last;
    if cfg.failureThreshold >= 2 || last == 0 {
      forall later: seq<Call> ensures After(cfg, reset + later).state == After(cfg, later).state {
        StaysAlike(cfg, reset, later);
      }
    } else {
      var call := Failure(last + cfg.failureWindow);
      CurrentGrows(cfg, reset, call);
      assert [call][..0] == [];
      assert After(cfg, [call]) == Next(cfg, NEW, call);
      assert After(cfg, reset + [call]).state == Open && After(cfg, [call]).state == Closed;
    }
  }
}
