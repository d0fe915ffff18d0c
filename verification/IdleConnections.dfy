/** The idle connections as a matter of history: which ones wait, in which order, and which one an acquire
    hands out. */
module IdleConnections {
  import opened Common
  import opened ConnectionPooling

  // ----- what the calls say -------------------------------------------------------------

  /** The connection a socket was opened as. */
  function Opened(ops: seq<Op>, id: nat): Option<Conn> {
    if ops == [] then None
    else
      var last := ops[|ops| - 1];
      if last.AcquireOp? && last.connect == Connected(id) then Some(Conn(id, last.backend, last.now, last.now))
      else Opened(ops[..|ops| - 1], id)
  }

  /** The connection that the release at step i gives back: its socket and age are those of its opening. */
  function Returned(ops: seq<Op>, i: nat): Conn {
    if i < |ops| && ops[i].ReleaseOp? && Opened(ops[..i], ops[i].id).Some?
    then Opened(ops[..i], ops[i].id).value.(lastUsed := ops[i].now)
    else Conn(0, "", 0, 0)
  }

  predicate Stale(cfg: Config, c: Conn, now: nat) {
    IsExpired(cfg, c, now) || IsIdleExpired(cfg, c, now)
  }

  /** Step i gives back a connection to backend b within its lifetime. */
  predicate GivesBack(cfg: Config, ops: seq<Op>, b: string, i: nat) {
    && i < |ops| && ops[i].ReleaseOp? && Opened(ops[..i], ops[i].id).Some?
    && Returned(ops, i).backend == b && !IsExpired(cfg, Returned(ops, i), ops[i].now)
  }

  /** The connection given back at step i still waits before step n: it has been neither dropped nor handed out. */
  ghost predicate Waits(cfg: Config, ops: seq<Op>, b: string, i: nat, n: nat)
    requires n <= |ops|
    decreases n, 0
  {
    i < n && GivesBack(cfg, ops, b, i) && forall k :: i < k < n ==> Stays(cfg, ops, b, i, k)
  }

  /** Step k leaves it waiting: a cleanup does unless it is stale; an acquire from the same backend does exactly
      when a usable one has been waiting for longer. */
  ghost predicate Stays(cfg: Config, ops: seq<Op>, b: string, i: nat, k: nat)
    requires k < |ops|
    decreases k, 1
  {
    match ops[k]
    case CleanupOp(now) => !Stale(cfg, Returned(ops, i), now)
    case AcquireOp(backend, now, _) =>
      backend == b ==> exists j: nat :: j < i && Waits(cfg, ops, b, j, k) && !Stale(cfg, Returned(ops, j), now)
    case _ => true
  }

  predicate Increasing(line: seq<nat>) {
    forall x, y :: 0 <= x < y < |line| ==> line[x] < line[y]
  }

  function Conns(ops: seq<Op>, line: seq<nat>): seq<Conn> {
    seq(|line|, x requires 0 <= x < |line| => Returned(ops, line[x]))
  }

  /** The line holds exactly the releases whose connections wait for backend b before step n, in order. */
  ghost predicate IsLine(cfg: Config, ops: seq<Op>, b: string, n: nat, line: seq<nat>)
    requires n <= |ops|
  {
    Increasing(line) && forall i: nat :: i in line <==> Waits(cfg, ops, b, i, n)
  }

  // ----- every connection remembers its opening -----------------------------------------

  predicate SameOrigin(o: Option<Conn>, c: Conn) {
    o.Some? && o.value.id == c.id && o.value.backend == c.backend && o.value.createdAt == c.createdAt
  }

  ghost predicate Remembered(ops: seq<Op>, s: System) {
    && (forall id :: id in s.sockets <==> Opened(ops, id).Some?)
    && (forall id <- s.out :: s.out[id].id == id && SameOrigin(Opened(ops, id), s.out[id]))
    && (forall b <- s.pools, c <- s.pools[b].idle :: SameOrigin(Opened(ops, c.id), c))
  }

  lemma {:induction false} DropStaleSplit(cfg: Config, idle: seq<Conn>, now: nat) returns (m: nat)
    ensures m <= |idle| && DropStale(cfg, idle, now) == idle[m..]
    ensures forall x :: 0 <= x < m ==> Stale(cfg, idle[x], now)
    ensures m < |idle| ==> !Stale(cfg, idle[m], now)
  {
    if idle != [] && Stale(cfg, idle[0], now) {
      var k := DropStaleSplit(cfg, idle[1..], now);
      m := k + 1;
      assert idle[1..][k..] == idle[m..];
    } else {
      m := 0;
    }
  }

  lemma {:induction false} FreshAreOld(cfg: Config, idle: seq<Conn>, now: nat)
    ensures forall c <- Fresh(cfg, idle, now) :: c in idle
  {
    if idle != [] {
      FreshAreOld(cfg, idle[..|idle| - 1], now);
    }
  }

  lemma {:induction false} OpenedGrows(ops: seq<Op>, op: Op, id: nat)
    ensures Opened(ops + [op], id)
         == if op.AcquireOp? && op.connect == Connected(id) then Some(Conn(id, op.backend, op.now, op.now))
            else Opened(ops, id)
  {
    assert (ops + [op])[..|ops|] == ops;
  }

  /** A legal call does not open an old socket again. */
  lemma {:induction false} OriginStays(ops: seq<Op>, s: System, op: Op, c: Conn)
    requires Legal(s, op) && Remembered(ops, s) && SameOrigin(Opened(ops, c.id), c)
    ensures SameOrigin(Opened(ops + [op], c.id), c)
  {
    OpenedGrows(ops, op, c.id);
    assert c.id in s.sockets;
  }

  lemma {:induction false} AcquireRemembersIdle(cfg: Config, ops: seq<Op>, s: System, op: Op)
    requires op.AcquireOp? && Legal(s, op) && Remembered(ops, s)
    ensures var idle, p := DropStale(cfg, PoolOf(s.pools, op.backend).idle, op.now), Do(cfg, s, op).pools;
            && (idle != [] ==> SameOrigin(Opened(ops + [op], idle[0].id), idle[0]))
            && forall b <- p, c <- p[b].idle :: SameOrigin(Opened(ops + [op], c.id), c)
  {
    var all, idle := PoolOf(s.pools, op.backend).idle, DropStale(cfg, PoolOf(s.pools, op.backend).idle, op.now);
    var m := DropStaleSplit(cfg, all, op.now);
    assert forall c <- idle :: c in all;
    if idle != [] {
      OriginStays(ops, s, op, idle[0]);
    }
    var p := Do(cfg, s, op).pools;
    forall b <- p, c <- p[b].idle ensures SameOrigin(Opened(ops + [op], c.id), c) {
      assert b == op.backend ==> c in all;
      assert b in s.pools && c in s.pools[b].idle;
      OriginStays(ops, s, op, c);
    }
  }

  lemma {:induction false} AcquireRemembers(cfg: Config, ops: seq<Op>, s: System, op: Op)
    requires op.AcquireOp? && Legal(s, op) && Remembered(ops, s)
    ensures Remembered(ops + [op], Do(cfg, s, op))
  {
    var s' := Do(cfg, s, op);
    AcquireRemembersIdle(cfg, ops, s, op);
    forall id ensures id in s'.sockets <==> Opened(ops + [op], id).Some? {
      OpenedGrows(ops, op, id);
    }
    forall id <- s'.out ensures s'.out[id].id == id && SameOrigin(Opened(ops + [op], id), s'.out[id]) {
      OpenedGrows(ops, op, id);
      if id in s.out && s'.out[id] == s.out[id] {
        OriginStays(ops, s, op, s.out[id]);
      }
    }
  }

  lemma {:induction false} OtherRemembers(cfg: Config, ops: seq<Op>, s: System, op: Op)
    requires !op.AcquireOp? && Legal(s, op) && Remembered(ops, s)
    ensures Remembered(ops + [op], Do(cfg, s, op))
  {
    var all, s' := ops + [op], Do(cfg, s, op);
    forall id ensures Opened(all, id) == Opened(ops, id) {
      OpenedGrows(ops, op, id);
    }
    forall b <- s'.pools, c <- s'.pools[b].idle ensures SameOrigin(Opened(ops, c.id), c) {
      if op.CleanupOp? {
        FreshAreOld(cfg, s.pools[b].idle, op.now);
        assert c in s.pools[b].idle;
      }
    }
  }

  lemma {:induction false} AlwaysRemembered(cfg: Config, states: seq<System>, ops: seq<Op>, n: nat)
    requires Behaviour(cfg, states, ops) && n < |states|
    ensures Remembered(ops[..n], states[n])
  {
    if n > 0 {
      AlwaysRemembered(cfg, states, ops, n - 1);
      StepOf(cfg, states, ops, n - 1);
      StepRemembers(cfg, ops[..n - 1], states[n - 1], ops[n - 1]);
      assert ops[..n] == ops[..n - 1] + [ops[n - 1]];
    } else {
      assert ops[..0] == [];
    }
  }

  lemma {:induction false} StepRemembers(cfg: Config, ops: seq<Op>, s: System, op: Op)
    requires Legal(s, op) && Remembered(ops, s)
    ensures Remembered(ops + [op], Do(cfg, s, op))
  {
    if op.AcquireOp? {
      AcquireRemembers(cfg, ops, s, op);
    } else {
      OtherRemembers(cfg, ops, s, op);
    }
  }

  lemma {:induction false} StepOf(cfg: Config, states: seq<System>, ops: seq<Op>, n: nat)
    requires Behaviour(cfg, states, ops) && n < |ops|
    ensures Legal(states[n], ops[n]) && states[n + 1] == Do(cfg, states[n], ops[n])
  {
  }

  // ----- how the line moves -------------------------------------------------------------

  lemma {:induction false} WaitsUnfolds(cfg: Config, ops: seq<Op>, b: string, i: nat, n: nat)
    requires n < |ops|
    ensures Waits(cfg, ops, b, i, n + 1) <==>
            (Waits(cfg, ops, b, i, n) && Stays(cfg, ops, b, i, n)) || (i == n && GivesBack(cfg, ops, b, n))
  {
  }

  /** After an acquire, only those behind the first usable one still wait. */
  lemma {:induction false} LineAfterAcquire(cfg: Config, ops: seq<Op>, b: string, n: nat, line: seq<nat>, m: nat)
    requires n < |ops| && ops[n].AcquireOp? && ops[n].backend == b && IsLine(cfg, ops, b, n, line) && m <= |line|
    requires forall x :: 0 <= x < m ==> Stale(cfg, Returned(ops, line[x]), ops[n].now)
    requires m < |line| ==> !Stale(cfg, Returned(ops, line[m]), ops[n].now)
    ensures IsLine(cfg, ops, b, n + 1, if m < |line| then line[m + 1..] else [])
  {
    var rest := if m < |line| then line[m + 1..] else [];
    forall i: nat ensures i in rest <==> Waits(cfg, ops, b, i, n + 1) {
      WaitsUnfolds(cfg, ops, b, i, n);
      if i in rest {
        assert line[m] in line && i in line && line[m] < i;
      }
      if Waits(cfg, ops, b, i, n + 1) {
        assert i in line && Stays(cfg, ops, b, i, n);
        var j: nat :| j < i && Waits(cfg, ops, b, j, n) && !Stale(cfg, Returned(ops, j), ops[n].now);
        assert j in line;
        var x :| 0 <= x < |line| && line[x] == j;
        var y :| 0 <= y < |line| && line[y] == i;
        assert m <= x < y;
        assert rest[y - m - 1] == i;
      }
    }
  }

  lemma {:induction false} LineAfterRelease(cfg: Config, ops: seq<Op>, b: string, n: nat, line: seq<nat>)
    requires n < |ops| && !ops[n].CleanupOp? && (ops[n].AcquireOp? ==> ops[n].backend != b)
    requires IsLine(cfg, ops, b, n, line)
    ensures IsLine(cfg, ops, b, n + 1, if GivesBack(cfg, ops, b, n) then line + [n] else line)
  {
    var all := if GivesBack(cfg, ops, b, n) then line + [n] else line;
    forall i: nat ensures i in all <==> Waits(cfg, ops, b, i, n + 1) {
      WaitsUnfolds(cfg, ops, b, i, n);
    }
    forall x | 0 <= x < |line| ensures line[x] < n {
      assert line[x] in line;
    }
  }

  lemma {:induction false} FreshLine(cfg: Config, ops: seq<Op>, line: seq<nat>, now: nat) returns (kept: seq<nat>)
    requires Increasing(line)
    ensures Increasing(kept) && Conns(ops, kept) == Fresh(cfg, Conns(ops, line), now)
    ensures forall i :: i in kept <==> i in line && !Stale(cfg, Returned(ops, i), now)
  {
    if line == [] {
      kept := [];
    } else {
      var n := |line| - 1;
      var front := FreshLine(cfg, ops, line[..n], now);
      kept := front + if Stale(cfg, Returned(ops, line[n]), now) then [] else [line[n]];
      assert Conns(ops, line)[..n] == Conns(ops, line[..n]);
      assert forall i :: i in line <==> i in line[..n] || i == line[n];
      assert forall x :: 0 <= x < |front| ==> front[x] in line[..n];
      assert Conns(ops, kept) == Conns(ops, front) + Conns(ops, kept[|front|..]);
    }
  }

  lemma {:induction false} LineAfterCleanup(cfg: Config, ops: seq<Op>, b: string, n: nat, line: seq<nat>,
      kept: seq<nat>)
    requires n < |ops| && ops[n].CleanupOp? && IsLine(cfg, ops, b, n, line) && Increasing(kept)
    requires forall i :: i in kept <==> i in line && !Stale(cfg, Returned(ops, i), ops[n].now)
    ensures IsLine(cfg, ops, b, n + 1, kept)
  {
    forall i: nat ensures i in kept <==> Waits(cfg, ops, b, i, n + 1) {
      WaitsUnfolds(cfg, ops, b, i, n);
    }
  }

  // ----- the queue is the line ----------------------------------------------------------

  /** A release within the lifetime always finds room: the connection given back was counted. */
  lemma {:induction false} ReleaseQueues(cfg: Config, ops: seq<Op>, s: System, n: nat, b: string)
    requires n < |ops| && ops[n].ReleaseOp? && Legal(s, ops[n]) && Invariant(cfg, s) && Remembered(ops[..n], s)
    ensures PoolOf(Do(cfg, s, ops[n]).pools, b).idle
         == PoolOf(s.pools, b).idle + if GivesBack(cfg, ops, b, n) then [Returned(ops, n)] else []
  {
    var c := s.out[ops[n].id];
    assert SameOrigin(Opened(ops[..n], ops[n].id), c);
    assert c.backend in s.pools;
    assert ops[n].id in HeldOf(s, c.backend);
    assert s.pools[c.backend].inUse >= 1;
    assert Returned(ops, n) == c.(lastUsed := ops[n].now);
  }

  lemma {:induction false} AcquireTakes(cfg: Config, ops: seq<Op>, s: System, n: nat, b: string, line: seq<nat>)
      returns (rest: seq<nat>)
    requires n < |ops| && ops[n].AcquireOp? && ops[n].backend == b && Legal(s, ops[n])
    requires IsLine(cfg, ops, b, n, line) && PoolOf(s.pools, b).idle == Conns(ops, line)
    ensures IsLine(cfg, ops, b, n + 1, rest) && PoolOf(Do(cfg, s, ops[n]).pools, b).idle == Conns(ops, rest)
  {
    var idle := Conns(ops, line);
    var m := DropStaleSplit(cfg, idle, ops[n].now);
    assert forall x :: 0 <= x < |line| ==> idle[x] == Returned(ops, line[x]);
    LineAfterAcquire(cfg, ops, b, n, line, m);
    rest := if m < |line| then line[m + 1..] else [];
    QueueAfterAcquire(cfg, s, ops[n], m);
    if m < |line| {
      ConnsTail(ops, line, m + 1);
    }
  }

  lemma {:induction false} QueueAfterAcquire(cfg: Config, s: System, op: Op, m: nat)
    requires op.AcquireOp? && Legal(s, op)
    requires var idle := PoolOf(s.pools, op.backend).idle;
             m <= |idle| && DropStale(cfg, idle, op.now) == idle[m..]
    ensures var idle := PoolOf(s.pools, op.backend).idle;
            PoolOf(Do(cfg, s, op).pools, op.backend).idle == if m < |idle| then idle[m + 1..] else []
  {
    var idle := PoolOf(s.pools, op.backend).idle;
    assert m < |idle| ==> idle[m..][1..] == idle[m + 1..];
  }

  lemma {:induction false} ConnsTail(ops: seq<Op>, line: seq<nat>, k: nat)
    requires k <= |line|
    ensures Conns(ops, line)[k..] == Conns(ops, line[k..])
  {
  }

  lemma {:induction false} OtherMoves(cfg: Config, ops: seq<Op>, s: System, n: nat, b: string, line: seq<nat>)
      returns (rest: seq<nat>)
    requires n < |ops| && Legal(s, ops[n]) && (ops[n].AcquireOp? ==> ops[n].backend != b)
    requires Invariant(cfg, s) && Remembered(ops[..n], s)
    requires IsLine(cfg, ops, b, n, line) && PoolOf(s.pools, b).idle == Conns(ops, line)
    ensures IsLine(cfg, ops, b, n + 1, rest) && PoolOf(Do(cfg, s, ops[n]).pools, b).idle == Conns(ops, rest)
  {
    if ops[n].CleanupOp? {
      rest := FreshLine(cfg, ops, line, ops[n].now);
      LineAfterCleanup(cfg, ops, b, n, line, rest);
    } else {
      LineAfterRelease(cfg, ops, b, n, line);
      rest := if GivesBack(cfg, ops, b, n) then line + [n] else line;
      if ops[n].ReleaseOp? {
        ReleaseQueues(cfg, ops, s, n, b);
        assert GivesBack(cfg, ops, b, n) ==> Conns(ops, rest) == Conns(ops, line) + [Returned(ops, n)];
      }
    }
  }

  /** Over every run, the idle queue of a backend holds exactly the connections that were given back within
      their lifetime and still wait, in the order in which they were given back. */
  lemma {:induction false} QueueIsLine(cfg: Config, states: seq<System>, ops: seq<Op>, b: string, n: nat)
      returns (line: seq<nat>)
    requires Behaviour(cfg, states, ops) && n < |states|
    ensures IsLine(cfg, ops, b, n, line) && PoolOf(states[n].pools, b).idle == Conns(ops, line)
  {
    if n == 0 {
      line := [];
    } else {
      var before := QueueIsLine(cfg, states, ops, b, n - 1);
      StepOf(cfg, states, ops, n - 1);
      if ops[n - 1].AcquireOp? && ops[n - 1].backend == b {
        line := AcquireTakes(cfg, ops, states[n - 1], n - 1, b, before);
      } else {
        CapacityHolds(cfg, states, ops, n - 1);
        AlwaysRemembered(cfg, states, ops, n - 1);
        line := OtherMoves(cfg, ops, states[n - 1], n - 1, b, before);
      }
    }
  }

  /** Step i gave back the connection that has waited longest among the usable ones. */
  ghost predicate FirstUsable(cfg: Config, ops: seq<Op>, b: string, n: nat, i: nat, now: nat)
    requires n <= |ops|
  {
    && Waits(cfg, ops, b, i, n) && !Stale(cfg, Returned(ops, i), now)
    && forall j: nat :: j < i && Waits(cfg, ops, b, j, n) ==> Stale(cfg, Returned(ops, j), now)
  }

  /** What an acquire yields, from the history: the usable connection that has waited longest, whatever
      connecting would yield; without one, exhaustion when the held ones reach the maximum; otherwise
      what connecting yields, as a connection of this moment. */
  lemma {:induction false} AcquireYields(cfg: Config, states: seq<System>, ops: seq<Op>, n: nat)
    requires Behaviour(cfg, states, ops) && n < |ops| && ops[n].AcquireOp?
    ensures var b, now, connect := ops[n].backend, ops[n].now, ops[n].connect;
            var r := AcquireResultOf(cfg, PoolOf(states[n].pools, b), b, now, connect);
            && (forall i: nat :: FirstUsable(cfg, ops, b, n, i, now) ==>
                  r == Got(Returned(ops, i).(lastUsed := now)))
            && ((forall i: nat :: Waits(cfg, ops, b, i, n) ==> Stale(cfg, Returned(ops, i), now)) ==>
                  if cfg.maxConnections <= |HeldOf(states[n], b)| then r == Exhausted
                  else match connect
                    case Connected(socket) => r == Got(Conn(socket, b, now, now))
                    case Refused => r == ConnectError
                    case TimedOut => r == ConnectTimeout)
  {
    var b, now := ops[n].backend, ops[n].now;
    var line := QueueIsLine(cfg, states, ops, b, n);
    var m := DropStaleSplit(cfg, Conns(ops, line), now);
    HandedOutOnce(cfg, states, ops, n);
    forall i: nat | FirstUsable(cfg, ops, b, n, i, now) ensures m < |line| && line[m] == i {
      assert i in line;
      var y :| 0 <= y < |line| && line[y] == i;
      FirstOfLine(cfg, ops, b, n, line, m, y, now);
    }
    assert m < |line| ==> line[m] in line;
  }

  lemma {:induction false} FirstOfLine(cfg: Config, ops: seq<Op>, b: string, n: nat, line: seq<nat>, m: nat, y: nat,
      now: nat)
    requires n <= |ops| && IsLine(cfg, ops, b, n, line) && m <= |line| && y < |line|
    requires forall x :: 0 <= x < m ==> Stale(cfg, Conns(ops, line)[x], now)
    requires m < |line| ==> !Stale(cfg, Conns(ops, line)[m], now)
    requires FirstUsable(cfg, ops, b, n, line[y], now)
    ensures y == m
  {
    assert Conns(ops, line)[y] == Returned(ops, line[y]);
    assert m < |line| ==> line[m] in line && Conns(ops, line)[m] == Returned(ops, line[m]);
  }
}
