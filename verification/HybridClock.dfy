/** The hybrid logical clock over whole executions: nodes stamp local events with `tick(None)` and
    receipts with `tick(Some(received))`, in any interleaving and with arbitrary clock readings. */
module HybridClock {
  import opened Common
  import opened ReplicationTypes

  function Tick(self: HlcTimestamp, other: Option<HlcTimestamp>, nodeHash: U32, now: U64): HlcTimestamp {
    match other
    case Some(o) =>
      var wall := Max(Max(now, self.wallTime), o.wallTime);
      var counter :=
        if wall == self.wallTime && wall == o.wallTime then Increment(Max(self.counter, o.counter))
        else if wall == self.wallTime then Increment(self.counter)
        else if wall == o.wallTime then Increment(o.counter)
        else 0;
      HlcTimestamp(wall, counter, nodeHash)
    case None =>
      var wall := Max(now, self.wallTime);
      HlcTimestamp(wall, if wall == self.wallTime then Increment(self.counter) else 0, nodeHash)
  }

  /** An event happens at a node with a clock reading; a receipt names the event whose stamp it carries. */
  datatype Event = Event(node: string, now: U64, received: Option<nat>)

  /** Receipts refer to earlier events only. */
  ghost predicate Execution(tr: seq<Event>) {
    forall i :: 0 <= i < |tr| && tr[i].received.Some? ==> tr[i].received.value < i
  }

  /** The latest event of a node among the first `n`, if any. */
  function LastOf(tr: seq<Event>, node: string, n: nat): (p: Option<nat>)
    requires n <= |tr|
    ensures p.Some? ==> p.value < n && tr[p.value].node == node
    ensures forall j :: 0 <= j < n && tr[j].node == node ==> p.Some? && j <= p.value
  {
    if n == 0 then None
    else if tr[n - 1].node == node then Some(n - 1)
    else LastOf(tr, node, n - 1)
  }

  function Previous(tr: seq<Event>, i: nat): Option<nat>
    requires i < |tr|
  {
    LastOf(tr, tr[i].node, i)
  }

  const ZERO := HlcTimestamp(0, 0, 0)

  /** The timestamp given to event i. */
  function Stamp(hash: string -> U32, tr: seq<Event>, i: nat): HlcTimestamp
    requires Execution(tr) && i < |tr|
    decreases i
  {
    var p := Previous(tr, i);
    var self := if p.Some? then Stamp(hash, tr, p.value) else ZERO;
    var r := tr[i].received;
    var other := if r.Some? then Some(Stamp(hash, tr, r.value)) else None;
    Tick(self, other, hash(tr[i].node), tr[i].now)
  }

  /** Event i directly precedes j: the previous event of the same node, or the one it received. */
  predicate Precedes(tr: seq<Event>, i: nat, j: nat)
    requires j < |tr|
  {
    Previous(tr, j) == Some(i) || tr[j].received == Some(i)
  }

  /** The causal past of an event, itself included. */
  ghost function Past(tr: seq<Event>, j: nat): (s: set<nat>)
    requires Execution(tr) && j < |tr|
    ensures j in s && forall i <- s :: i <= j
    decreases j
  {
    var p, r := Previous(tr, j), tr[j].received;
    {j} + (if p.Some? then Past(tr, p.value) else {}) + (if r.Some? then Past(tr, r.value) else {})
  }

  ghost predicate HappensBefore(tr: seq<Event>, i: nat, j: nat)
    requires Execution(tr) && j < |tr|
  {
    i != j && i in Past(tr, j)
  }

  predicate Before(a: HlcTimestamp, b: HlcTimestamp) {
    a.wallTime < b.wallTime || (a.wallTime == b.wallTime && a.counter < b.counter)
  }

  lemma {:induction false} PastSize(tr: seq<Event>, j: nat, i: nat)
    requires Execution(tr) && j < |tr| && Precedes(tr, i, j)
    ensures |Past(tr, i)| < |Past(tr, j)|
  {
    assert Past(tr, i) < Past(tr, j);
    ProperSubsetSmaller(Past(tr, i), Past(tr, j));
  }

  lemma {:induction false} ProperSubsetSmaller(a: set<nat>, b: set<nat>)
    requires a < b
    ensures |a| < |b|
  {
    assert b == a + (b - a) && b - a != {};
  }

  lemma {:induction false} SubsetSmaller(a: set<nat>, b: set<nat>)
    requires a <= b
    ensures |a| <= |b|
  {
    assert b == a + (b - a);
  }

  lemma {:induction false} BoundedSize(s: set<nat>, bound: nat)
    requires forall i <- s :: i < bound
    ensures |s| <= bound
  {
    if bound != 0 {
      BoundedSize(s - {bound - 1}, bound - 1);
      SubsetSmaller(s, s - {bound - 1} + {bound - 1});
    } else {
      assert s == {};
    }
  }

  lemma TickCounter(self: HlcTimestamp, other: Option<HlcTimestamp>, nodeHash: U32, now: U64)
    ensures var t := Tick(self, other, nodeHash, now);
            || t.counter == 0
            || t.counter == self.counter + 1
            || (other.Some? && t.counter == other.value.counter + 1)
  {
  }

  lemma TickIncreases(self: HlcTimestamp, other: Option<HlcTimestamp>, nodeHash: U32, now: U64)
    requires self.counter < 0xFFFF_FFFF && (other.Some? ==> other.value.counter < 0xFFFF_FFFF)
    ensures var t := Tick(self, other, nodeHash, now);
            Before(self, t) && (other.Some? ==> Before(other.value, t))
  {
  }

  /** And it is the least such: nothing at or after `now` and above both inputs comes before it. */
  lemma TickIsLeast(self: HlcTimestamp, other: Option<HlcTimestamp>, nodeHash: U32, now: U64, t: HlcTimestamp)
    requires self.counter < 0xFFFF_FFFF && (other.Some? ==> other.value.counter < 0xFFFF_FFFF)
    requires now <= t.wallTime && Before(self, t) && (other.Some? ==> Before(other.value, t))
    ensures now <= Tick(self, other, nodeHash, now).wallTime && !Before(t, Tick(self, other, nodeHash, now))
  {
  }

  /** The counter never exceeds the number of events in the causal past, so below 2^32 events the
      32-bit increment never wraps. */
  lemma {:induction false} CounterBounded(hash: string -> U32, tr: seq<Event>, j: nat)
    requires Execution(tr) && j < |tr|
    ensures Stamp(hash, tr, j).counter <= |Past(tr, j)|
    decreases j
  {
    var p, r := Previous(tr, j), tr[j].received;
    if p.Some? {
      CounterBounded(hash, tr, p.value);
      PastSize(tr, j, p.value);
    }
    if r.Some? {
      CounterBounded(hash, tr, r.value);
      PastSize(tr, j, r.value);
    }
    assert {j} <= Past(tr, j);
    SubsetSmaller({j}, Past(tr, j));
    var self := if p.Some? then Stamp(hash, tr, p.value) else ZERO;
    var other := if r.Some? then Some(Stamp(hash, tr, r.value)) else None;
    TickCounter(self, other, hash(tr[j].node), tr[j].now);
  }

  lemma {:induction false} NoWrap(hash: string -> U32, tr: seq<Event>, j: nat)
    requires Execution(tr) && j + 1 < |tr| < 0x1_0000_0000
    ensures Stamp(hash, tr, j).counter < 0xFFFF_FFFF
  {
    CounterBounded(hash, tr, j);
    BoundedSize(Past(tr, j), j + 1);
  }

  lemma {:induction false} DirectlyIncreases(hash: string -> U32, tr: seq<Event>, i: nat, j: nat)
    requires Execution(tr) && |tr| < 0x1_0000_0000 && j < |tr| && Precedes(tr, i, j)
    ensures Before(Stamp(hash, tr, i), Stamp(hash, tr, j))
  {
    var p, r := Previous(tr, j), tr[j].received;
    if p.Some? { NoWrap(hash, tr, p.value); }
    if r.Some? { NoWrap(hash, tr, r.value); }
    var self := if p.Some? then Stamp(hash, tr, p.value) else ZERO;
    var other := if r.Some? then Some(Stamp(hash, tr, r.value)) else None;
    TickIncreases(self, other, hash(tr[j].node), tr[j].now);
  }

  /** Clock condition: what happens before is stamped strictly smaller, already on wall time and counter. */
  lemma {:induction false} HappensBeforeIncreases(hash: string -> U32, tr: seq<Event>, i: nat, j: nat)
    requires Execution(tr) && |tr| < 0x1_0000_0000 && j < |tr| && HappensBefore(tr, i, j)
    ensures Before(Stamp(hash, tr, i), Stamp(hash, tr, j)) && Stamp(hash, tr, i).LessThan(Stamp(hash, tr, j))
    decreases j
  {
    var p, r := Previous(tr, j), tr[j].received;
    var via := if p.Some? && i in Past(tr, p.value) then p.value else r.value;
    DirectlyIncreases(hash, tr, via, j);
    if i != via {
      HappensBeforeIncreases(hash, tr, i, via);
    }
  }

  lemma {:induction false} ReadingsBounded(hash: string -> U32, tr: seq<Event>, j: nat, i: nat)
    requires Execution(tr) && j < |tr| && i in Past(tr, j)
    ensures tr[i].now <= Stamp(hash, tr, j).wallTime
    decreases j
  {
    var p, r := Previous(tr, j), tr[j].received;
    if p.Some? && i in Past(tr, p.value) {
      ReadingsBounded(hash, tr, p.value, i);
    } else if r.Some? && i in Past(tr, r.value) {
      ReadingsBounded(hash, tr, r.value, i);
    }
  }

  lemma {:induction false} ReadingAttained(hash: string -> U32, tr: seq<Event>, j: nat) returns (i: nat)
    requires Execution(tr) && j < |tr|
    ensures i in Past(tr, j) && tr[i].now == Stamp(hash, tr, j).wallTime
    decreases j
  {
    var p, r, wall := Previous(tr, j), tr[j].received, Stamp(hash, tr, j).wallTime;
    if p.Some? && wall == Stamp(hash, tr, p.value).wallTime {
      i := ReadingAttained(hash, tr, p.value);
    } else if r.Some? && wall == Stamp(hash, tr, r.value).wallTime {
      i := ReadingAttained(hash, tr, r.value);
    } else {
      i := j;
    }
  }

  /** The wall time is exactly the greatest reading in the causal past: it never runs ahead of every clock. */
  lemma {:induction false} WallTimeIsGreatestReading(hash: string -> U32, tr: seq<Event>, j: nat)
    requires Execution(tr) && j < |tr|
    ensures forall i <- Past(tr, j) :: tr[i].now <= Stamp(hash, tr, j).wallTime
    ensures exists i <- Past(tr, j) :: tr[i].now == Stamp(hash, tr, j).wallTime
  {
    forall i <- Past(tr, j) ensures tr[i].now <= Stamp(hash, tr, j).wallTime {
      ReadingsBounded(hash, tr, j, i);
    }
    var i := ReadingAttained(hash, tr, j);
  }

  lemma {:induction false} SameNodeOrdered(tr: seq<Event>, i: nat, j: nat)
    requires Execution(tr) && i < j < |tr| && tr[i].node == tr[j].node
    ensures HappensBefore(tr, i, j)
    decreases j
  {
    var p := Previous(tr, j).value;
    if i < p {
      SameNodeOrdered(tr, i, p);
    }
  }

  /** Timestamps are unique across the whole execution when distinct nodes hash differently. */
  lemma {:induction false} StampsUnique(hash: string -> U32, tr: seq<Event>, i: nat, j: nat)
    requires Execution(tr) && |tr| < 0x1_0000_0000 && i < j < |tr|
    requires hash(tr[i].node) == hash(tr[j].node) ==> tr[i].node == tr[j].node
    ensures Stamp(hash, tr, i) != Stamp(hash, tr, j)
  {
    if tr[i].node == tr[j].node {
      SameNodeOrdered(tr, i, j);
      HappensBeforeIncreases(hash, tr, i, j);
    }
  }

  /** A timestamp as one number, most significant field first. */
  function Rank(t: HlcTimestamp): nat {
    (t.wallTime * 0x1_0000_0000 + t.counter) * 0x1_0000_0000 + t.nodeHash
  }

  /** The order of timestamps is the order of those numbers, so it is total, and equal only for equal timestamps. */
  lemma {:induction false} OrderIsNumeric(a: HlcTimestamp, b: HlcTimestamp)
    ensures a.LessThan(b) <==> Rank(a) < Rank(b)
    ensures a.AtMost(b) <==> Rank(a) <= Rank(b)
    ensures a == b <==> Rank(a) == Rank(b)
  {
    var x, y := a.wallTime * 0x1_0000_0000 + a.counter, b.wallTime * 0x1_0000_0000 + b.counter;
    assert x < y <==> a.wallTime < b.wallTime || (a.wallTime == b.wallTime && a.counter < b.counter);
    assert x == y <==> a.wallTime == b.wallTime && a.counter == b.counter;
    assert Rank(a) < Rank(b) <==> x < y || (x == y && a.nodeHash < b.nodeHash);
  }
}
