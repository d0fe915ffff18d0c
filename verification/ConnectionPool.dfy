/** The per-backend connection pool. A connection is identified by its socket; times are explicit. */
module ConnectionPooling {
  import opened Common

  datatype Config = Config(maxConnections: nat, idleTimeout: nat, maxLifetime: nat)

  datatype Conn = Conn(id: nat, backend: string, createdAt: nat, lastUsed: nat)

  datatype Pool = Pool(idle: seq<Conn>, inUse: nat)

  type Pools = map<string, Pool>

  /** What connecting to the backend would yield. */
  datatype Connect = Connected(socket: nat) | Refused | TimedOut

  datatype AcquireResult = Got(conn: Conn) | Exhausted | ConnectError | ConnectTimeout

  predicate IsExpired(cfg: Config, c: Conn, now: nat) {
    Since(c.createdAt, now) > cfg.maxLifetime
  }

  predicate IsIdleExpired(cfg: Config, c: Conn, now: nat) {
    Since(c.lastUsed, now) > cfg.idleTimeout
  }

  /** The idle queue without its leading stale connections. */
  function DropStale(cfg: Config, idle: seq<Conn>, now: nat): seq<Conn> {
    if idle != [] && (IsExpired(cfg, idle[0], now) || IsIdleExpired(cfg, idle[0], now))
    then DropStale(cfg, idle[1..], now) else idle
  }

  function PoolOf(pools: Pools, backend: string): Pool {
    if backend in pools then pools[backend] else Pool([], 0)
  }

  function AcquireResultOf(cfg: Config, p: Pool, backend: string, now: nat, connect: Connect): AcquireResult {
    var idle := DropStale(cfg, p.idle, now);
    if idle != [] then Got(idle[0].(lastUsed := now))
    else if p.inUse >= cfg.maxConnections then Exhausted
    else match connect
      case Connected(socket) => Got(Conn(socket, backend, now, now))
      case Refused => ConnectError
      case TimedOut => ConnectTimeout
  }

  function AfterAcquire(cfg: Config, p: Pool, backend: string, now: nat, connect: Connect): Pool {
    var idle := DropStale(cfg, p.idle, now);
    Pool(if idle != [] then idle[1..] else [],
         if AcquireResultOf(cfg, p, backend, now, connect).Got? then p.inUse + 1 else p.inUse)
  }

  /** `fetch_sub(1)` on a machine word. */
  function Decrement(n: nat): nat {
    if n == 0 then 0xFFFF_FFFF_FFFF_FFFF else n - 1
  }

  function AfterRelease(cfg: Config, p: Pool, c: Conn, now: nat): Pool {
    var q := p.(inUse := Decrement(p.inUse));
    if IsExpired(cfg, c, now) || |p.idle| >= cfg.maxConnections then q
    else q.(idle := p.idle + [c.(lastUsed := now)])
  }

  function Fresh(cfg: Config, idle: seq<Conn>, now: nat): seq<Conn> {
    if idle == [] then []
    else
      var last := idle[|idle| - 1];
      Fresh(cfg, idle[..|idle| - 1], now)
      + if IsIdleExpired(cfg, last, now) || IsExpired(cfg, last, now) then [] else [last]
  }

  function AfterCleanup(cfg: Config, pools: Pools, now: nat): Pools {
    map b | b in pools :: pools[b].(idle := Fresh(cfg, pools[b].idle, now))
  }

  class ConnectionPool {
    const cfg: Config
    var pools: Pools

    constructor (cfg: Config)
      ensures this.cfg == cfg && pools == map[]
    {
      this.cfg, pools := cfg, map[];
    }

    /** The loop popping the idle queue until a usable connection turns up. */
    method PopUsable(idle: seq<Conn>, now: nat) returns (found: bool, conn: Conn, rest: seq<Conn>)
      ensures found <==> DropStale(cfg, idle, now) != []
      ensures if found then [conn] + rest == DropStale(cfg, idle, now) else rest == []
    {
      conn, rest := Conn(0, "", 0, 0), idle;
      while rest != []
        invariant DropStale(cfg, rest, now) == DropStale(cfg, idle, now)
      {
        conn, rest := rest[0], rest[1..];
        if IsExpired(cfg, conn, now) {
          continue;
        }
        if IsIdleExpired(cfg, conn, now) {
          continue;
        }
        return true, conn, rest;
      }
      found := false;
    }

    method Acquire(backend: string, now: nat, connect: Connect) returns (r: AcquireResult)
      modifies this
      ensures var p := PoolOf(old(pools), backend);
              && r == AcquireResultOf(cfg, p, backend, now, connect)
              && pools == old(pools)[backend := AfterAcquire(cfg, p, backend, now, connect)]
    {
      var p := if backend in pools then pools[backend] else Pool([], 0);
      var found, conn, rest := PopUsable(p.idle, now);
      if found {
        assert conn == ([conn] + rest)[0] && rest == ([conn] + rest)[1..];
        pools := pools[backend := Pool(rest, p.inUse + 1)];
        return Got(conn.(lastUsed := now));
      }
      pools := pools[backend := Pool([], p.inUse)];
      if p.inUse >= cfg.maxConnections {
        return Exhausted;
      }
      match connect
      case Refused => return ConnectError;
      case TimedOut => return ConnectTimeout;
      case Connected(socket) =>
        pools := pools[backend := Pool([], p.inUse + 1)];
        return Got(Conn(socket, backend, now, now));
    }

    method Release(conn: Conn, now: nat)
      modifies this
      ensures pools == if conn.backend in old(pools)
                       then old(pools)[conn.backend := AfterRelease(cfg, old(pools)[conn.backend], conn, now)]
                       else old(pools)
    {
      if conn.backend in pools {
        var p := pools[conn.backend];
        pools := pools[conn.backend := p.(inUse := Decrement(p.inUse))];
        if IsExpired(cfg, conn, now) {
          return;
        }
        if |p.idle| < cfg.maxConnections {
          pools := pools[conn.backend := pools[conn.backend].(idle := p.idle + [conn.(lastUsed := now)])];
        }
      }
    }

    method Discard(conn: Conn)
      modifies this
      ensures pools == if conn.backend in old(pools)
                       then var p := old(pools)[conn.backend];
                             old(pools)[conn.backend := p.(inUse := Decrement(p.inUse))]
                       else old(pools)
    {
      if conn.backend in pools {
        var p := pools[conn.backend];
        pools := pools[conn.backend := p.(inUse := Decrement(p.inUse))];
      }
    }
  }

  // ----- runs ---------------------------------------------------------------------------

  /** The pools, the connections currently held by callers, and every socket ever created with its backend. */
  datatype System = System(pools: Pools, out: map<nat, Conn>, sockets: map<nat, string>)

  const EMPTY := System(map[], map[], map[])

  datatype Op =
    | AcquireOp(backend: string, now: nat, connect: Connect)
    | ReleaseOp(id: nat, now: nat)
    | DiscardOp(id: nat)
    | CleanupOp(now: nat)

  /** A caller gives back only what it holds, and a new socket is a new socket. */
  predicate Legal(s: System, op: Op) {
    match op
    case AcquireOp(_, _, connect) => connect.Connected? ==> connect.socket !in s.sockets
    case ReleaseOp(id, _) => id in s.out
    case DiscardOp(id) => id in s.out
    case CleanupOp(_) => true
  }

  function Do(cfg: Config, s: System, op: Op): System
    requires Legal(s, op)
  {
    match op
    case AcquireOp(b, now, connect) =>
      var r := AcquireResultOf(cfg, PoolOf(s.pools, b), b, now, connect);
      System(s.pools[b := AfterAcquire(cfg, PoolOf(s.pools, b), b, now, connect)],
             if r.Got? then s.out[r.conn.id := r.conn] else s.out,
             if connect.Connected? then s.sockets[connect.socket := b] else s.sockets)
    case ReleaseOp(id, now) =>
      var c := s.out[id];
      System(if c.backend in s.pools
             then s.pools[c.backend := AfterRelease(cfg, s.pools[c.backend], c, now)] else s.pools,
             s.out - {id}, s.sockets)
    case DiscardOp(id) =>
      var c := s.out[id];
      System(if c.backend in s.pools
             then var p := s.pools[c.backend]; s.pools[c.backend := p.(inUse := Decrement(p.inUse))] else s.pools,
             s.out - {id}, s.sockets)
    case CleanupOp(now) => s.(pools := AfterCleanup(cfg, s.pools, now))
  }

  ghost function HeldOf(s: System, b: string): set<nat> {
    set id | id in s.out && s.out[id].backend == b
  }

  predicate IdleOk(s: System, b: string, idle: seq<Conn>) {
    && (forall i :: 0 <= i < |idle| ==>
          idle[i].backend == b && idle[i].id in s.sockets && s.sockets[idle[i].id] == b && idle[i].id !in s.out)
    && (forall i, j :: 0 <= i < j < |idle| ==> idle[i].id != idle[j].id)
  }

  /** Idle connections belong to their pool, occur once and are held by nobody; held ones have a pool. */
  predicate Separate(s: System) {
    && (forall b <- s.pools :: IdleOk(s, b, s.pools[b].idle))
    && (forall id <- s.out ::
          id in s.sockets && s.out[id].id == id && s.out[id].backend == s.sockets[id] && s.sockets[id] in s.pools)
  }

  ghost predicate Counted(cfg: Config, s: System) {
    forall b <- s.pools ::
      && s.pools[b].inUse == |HeldOf(s, b)|
      && |s.pools[b].idle| + s.pools[b].inUse <= cfg.maxConnections
  }

  ghost predicate Invariant(cfg: Config, s: System) {
    Separate(s) && Counted(cfg, s)
  }

  // ----- what each call keeps -----------------------------------------------------------

  lemma {:induction false} DropStaleKeeps(cfg: Config, s: System, b: string, idle: seq<Conn>, now: nat)
    requires IdleOk(s, b, idle)
    ensures IdleOk(s, b, DropStale(cfg, idle, now)) && |DropStale(cfg, idle, now)| <= |idle|
  {
    if idle != [] {
      assert IdleOk(s, b, idle[1..]);
      DropStaleKeeps(cfg, s, b, idle[1..], now);
    }
  }

  /** Taking the first of a queue: it was held by nobody, and the rest stays separate from it. */
  lemma TakeFirst(s: System, s': System, b: string, idle: seq<Conn>, taken: Conn)
    requires IdleOk(s, b, idle) && idle != [] && taken.id == idle[0].id
    requires s'.sockets.Keys >= s.sockets.Keys && (forall id <- s.sockets :: s'.sockets[id] == s.sockets[id])
    requires s'.out == s.out[taken.id := taken]
    ensures IdleOk(s', b, idle[1..])
  {
  }

  lemma {:induction false} AcquireIdle(cfg: Config, s: System, op: Op)
    requires op.AcquireOp? && Legal(s, op) && Separate(s)
    ensures Separate(Do(cfg, s, op))
    ensures var r := AcquireResultOf(cfg, PoolOf(s.pools, op.backend), op.backend, op.now, op.connect);
            r.Got? ==> r.conn.backend == op.backend && r.conn.id !in s.out
  {
    var b, p, s' := op.backend, PoolOf(s.pools, op.backend), Do(cfg, s, op);
    var rest := DropStale(cfg, p.idle, op.now);
    assert IdleOk(s, b, p.idle);
    DropStaleKeeps(cfg, s, b, p.idle, op.now);
    if rest != [] {
      TakeFirst(s, s', b, rest, rest[0].(lastUsed := op.now));
    }
    assert IdleOk(s', b, s'.pools[b].idle);
    forall c <- s'.pools | c != b ensures IdleOk(s', c, s'.pools[c].idle) {
      assert IdleOk(s, c, s.pools[c].idle);
    }
  }

  lemma {:induction false} HeldGrows(s: System, s': System, conn: Conn)
    requires conn.id !in s.out && s'.out == s.out[conn.id := conn]
    ensures |HeldOf(s', conn.backend)| == |HeldOf(s, conn.backend)| + 1
    ensures forall b :: b != conn.backend ==> HeldOf(s', b) == HeldOf(s, b)
  {
    assert HeldOf(s', conn.backend) == HeldOf(s, conn.backend) + {conn.id};
  }

  lemma {:induction false} AcquireKeeps(cfg: Config, s: System, op: Op)
    requires op.AcquireOp? && Legal(s, op) && Invariant(cfg, s)
    ensures Invariant(cfg, Do(cfg, s, op))
  {
    var b, p, s' := op.backend, PoolOf(s.pools, op.backend), Do(cfg, s, op);
    var r := AcquireResultOf(cfg, p, b, op.now, op.connect);
    AcquireIdle(cfg, s, op);
    assert IdleOk(s, b, p.idle);
    DropStaleKeeps(cfg, s, b, p.idle, op.now);
    if b !in s.pools {
      EmptyUnlessPooled(s, b);
    }
    assert p.inUse == |HeldOf(s, b)|;
    if r.Got? {
      HeldGrows(s, s', r.conn);
    } else {
      assert forall c :: HeldOf(s', c) == HeldOf(s, c);
    }
    CountAt(cfg, s, op);
  }

  lemma CountAt(cfg: Config, s: System, op: Op)
    requires op.AcquireOp? && Legal(s, op) && Counted(cfg, s)
    requires var b, p := op.backend, PoolOf(s.pools, op.backend);
             && p.inUse == |HeldOf(s, b)| && |DropStale(cfg, p.idle, op.now)| <= |p.idle|
             && |HeldOf(Do(cfg, s, op), b)|
                == |HeldOf(s, b)| + (if AcquireResultOf(cfg, p, b, op.now, op.connect).Got? then 1 else 0)
             && forall c :: c != b ==> HeldOf(Do(cfg, s, op), c) == HeldOf(s, c)
    requires op.backend !in s.pools ==> HeldOf(s, op.backend) == {}
    ensures Counted(cfg, Do(cfg, s, op))
  {
  }

  lemma {:induction false} HeldShrinks(s: System, s': System, id: nat)
    requires id in s.out && s'.out == s.out - {id}
    ensures |HeldOf(s', s.out[id].backend)| == |HeldOf(s, s.out[id].backend)| - 1
    ensures forall b :: b != s.out[id].backend ==> HeldOf(s', b) == HeldOf(s, b)
  {
    assert HeldOf(s', s.out[id].backend) == HeldOf(s, s.out[id].backend) - {id};
    assert id in HeldOf(s, s.out[id].backend);
  }

  lemma {:induction false} GiveBackIdle(cfg: Config, s: System, op: Op)
    requires (op.ReleaseOp? || op.DiscardOp?) && Legal(s, op) && Separate(s)
    ensures Separate(Do(cfg, s, op))
  {
    var s', b := Do(cfg, s, op), s.out[op.id].backend;
    assert IdleOk(s, b, s.pools[b].idle);
    assert IdleOk(s', b, s'.pools[b].idle);
    forall d <- s'.pools ensures IdleOk(s', d, s'.pools[d].idle) {
      assert d != b ==> IdleOk(s, d, s.pools[d].idle);
    }
  }

  lemma {:induction false} GiveBackKeeps(cfg: Config, s: System, op: Op)
    requires (op.ReleaseOp? || op.DiscardOp?) && Legal(s, op) && Invariant(cfg, s)
    ensures Invariant(cfg, Do(cfg, s, op))
  {
    GiveBackIdle(cfg, s, op);
    HeldShrinks(s, Do(cfg, s, op), op.id);
  }

  lemma {:induction false} FreshKeeps(cfg: Config, s: System, b: string, idle: seq<Conn>, now: nat)
    requires IdleOk(s, b, idle)
    ensures IdleOk(s, b, Fresh(cfg, idle, now)) && |Fresh(cfg, idle, now)| <= |idle|
    ensures forall c <- Fresh(cfg, idle, now) :: c in idle
  {
    if idle != [] {
      var n := |idle| - 1;
      FreshKeeps(cfg, s, b, idle[..n], now);
      var kept := Fresh(cfg, idle[..n], now);
      forall i | 0 <= i < |kept| ensures kept[i].id != idle[n].id {
        assert kept[i] in idle[..n];
      }
    }
  }

  lemma {:induction false} CleanupKeeps(cfg: Config, s: System, op: Op)
    requires op.CleanupOp? && Invariant(cfg, s)
    ensures Invariant(cfg, Do(cfg, s, op))
  {
    var s' := Do(cfg, s, op);
    forall b <- s'.pools
      ensures IdleOk(s', b, s'.pools[b].idle) && |s'.pools[b].idle| <= |s.pools[b].idle|
      ensures HeldOf(s', b) == HeldOf(s, b)
    {
      FreshKeeps(cfg, s, b, s.pools[b].idle, op.now);
    }
  }

  lemma {:induction false} StepKeeps(cfg: Config, s: System, op: Op)
    requires Legal(s, op) && Invariant(cfg, s)
    ensures Invariant(cfg, Do(cfg, s, op))
  {
    match op {
      case AcquireOp(_, _, _) => AcquireKeeps(cfg, s, op);
      case CleanupOp(_) => CleanupKeeps(cfg, s, op);
      case _ => GiveBackKeeps(cfg, s, op);
    }
  }

  /** States linked by legal calls, from no pools at all. */
  ghost predicate Behaviour(cfg: Config, states: seq<System>, ops: seq<Op>) {
    && |states| == |ops| + 1 && states[0] == EMPTY
    && forall i :: 0 <= i < |ops| ==> Legal(states[i], ops[i]) && states[i + 1] == Do(cfg, states[i], ops[i])
  }

  /** Over every run: per backend the idle and held connections together never exceed the maximum,
      although only the held ones are compared with it; `inUse` is the number held; and no connection
      is both idle and held, or idle twice. */
  lemma {:induction false} CapacityHolds(cfg: Config, states: seq<System>, ops: seq<Op>, i: nat)
    requires Behaviour(cfg, states, ops) && i < |states|
    ensures Invariant(cfg, states[i])
  {
    if i > 0 {
      CapacityHolds(cfg, states, ops, i - 1);
      assert states[i - 1 + 1] == Do(cfg, states[i - 1], ops[i - 1]);
      StepKeeps(cfg, states[i - 1], ops[i - 1]);
    }
  }

  /** Whatever an acquire hands out is held by nobody at that moment, and it is refused for lack of
      capacity exactly when nothing idle is usable and the held connections alone reach the maximum. */
  lemma {:induction false} HandedOutOnce(cfg: Config, states: seq<System>, ops: seq<Op>, i: nat)
    requires Behaviour(cfg, states, ops) && i < |ops| && ops[i].AcquireOp?
    ensures var s, b, now := states[i], ops[i].backend, ops[i].now;
            var r := AcquireResultOf(cfg, PoolOf(s.pools, b), b, now, ops[i].connect);
            && (r.Got? ==> r.conn.backend == b && r.conn.id !in s.out && r.conn.id in states[i + 1].out)
            && (r.Exhausted? <==>
                DropStale(cfg, PoolOf(s.pools, b).idle, now) == [] && cfg.maxConnections <= |HeldOf(s, b)|)
  {
    CapacityHolds(cfg, states, ops, i);
    AcquireIdle(cfg, states[i], ops[i]);
    if ops[i].backend !in states[i].pools {
      EmptyUnlessPooled(states[i], ops[i].backend);
    }
  }

  lemma EmptyUnlessPooled(s: System, b: string)
    requires Separate(s) && b !in s.pools
    ensures HeldOf(s, b) == {}
  {
  }
}
