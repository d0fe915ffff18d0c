/** The replicated store: the last-write-wins table, the backends table and the in-memory
    timestamp cache, with the effect of processing one change or a list of changes.

    A store is compared with a declarative reading of the changes it has processed: for each
    key the earliest change bearing the greatest timestamp decides. */
module LwwStore {
  import opened Common
  import opened ReplicationTypes

  // ----- rows ---------------------------------------------------------------------------

  /** A row of the LWW table: the timestamp after the `as i64` casts. */
  datatype LwwRow = LwwRow(wall: int, counter: int, nodeHash: int)

  datatype BackendRow = BackendRow(
    app: string,
    region: string,
    country: Option<string>,
    wgIp: string,
    port: int,
    healthy: int,
    weight: int,
    softLimit: int,
    hardLimit: int,
    deleted: bool)

  datatype Store = Store(
    lww: map<string, LwwRow>,
    backends: map<string, BackendRow>,
    cache: map<string, HlcTimestamp>)

  const EMPTY_STORE := Store(map[], map[], map[])

  function EncodeRow(t: HlcTimestamp): LwwRow {
    LwwRow(
      if t.wallTime < 0x8000_0000_0000_0000 then t.wallTime else t.wallTime - 0x1_0000_0000_0000_0000,
      t.counter,
      t.nodeHash)
  }

  /** Reading a column as an unsigned integer fails on a value outside its range, and the failure
      is treated like a missing row. */
  function DecodeRow(row: LwwRow): Option<HlcTimestamp> {
    if 0 <= row.wall < 0x1_0000_0000_0000_0000 && 0 <= row.counter < 0x1_0000_0000
       && 0 <= row.nodeHash < 0x1_0000_0000
    then Some(HlcTimestamp(row.wall, row.counter, row.nodeHash))
    else None
  }

  predicate Storable(t: HlcTimestamp) {
    t.wallTime < 0x8000_0000_0000_0000
  }

  function OrElse<T>(o: Option<T>, default: T): T {
    match o case Some(v) => v case None => default
  }

  function RowOf(j: BackendJson): BackendRow {
    BackendRow(
      OrElse(j.app, ""), OrElse(j.region, "us"), j.country, OrElse(j.wgIp, ""), OrElse(j.port, 0),
      OrElse(j.healthy, 1), OrElse(j.weight, 2), OrElse(j.softLimit, 100), OrElse(j.hardLimit, 150), false)
  }

  /** What a reader of the backends table sees: rows that are not soft-deleted. */
  function Live(backends: map<string, BackendRow>): map<string, BackendRow> {
    map pk | pk in backends && !backends[pk].deleted :: backends[pk]
  }

  // ----- keys ---------------------------------------------------------------------------

  function Key(table: string, pk: string): string {
    table + ":" + pk
  }

  function KeyOf(c: Change): string {
    Key(c.table, c.pk)
  }

  predicate ColonFree(table: string) {
    ':' !in table
  }

  /** Exactly when two rows share a key: they are the same row, or the longer table name continues the
      shorter one past a colon and the other row's key makes up for it. */
  lemma {:induction false} KeysCollideIff(t1: string, p1: string, t2: string, p2: string)
    requires |t1| <= |t2|
    ensures Key(t1, p1) == Key(t2, p2) <==>
            (t1 == t2 && p1 == p2) || exists x: string :: t2 == t1 + ":" + x && p1 == x + ":" + p2
  {
    var k1, k2 := Key(t1, p1), Key(t2, p2);
    assert k1[..|t1|] == t1 && k1[|t1|] == ':' && k1[|t1| + 1..] == p1;
    assert k2[..|t2|] == t2 && k2[|t2|] == ':' && k2[|t2| + 1..] == p2;
    if k1 == k2 && |t1| < |t2| {
      var x := t2[|t1| + 1..];
      assert t2 == t1 + ":" + x && p1 == x + ":" + p2;
    }
    if x: string :| t2 == t1 + ":" + x && p1 == x + ":" + p2 {
      assert t1 + ":" + (x + ":" + p2) == t1 + ":" + x + ":" + p2;
    }
  }

  /** Without a colon in the table names the concatenated key determines both parts. */
  lemma {:induction false} KeyInjective(t1: string, p1: string, t2: string, p2: string)
    requires ColonFree(t1) && ColonFree(t2)
    requires Key(t1, p1) == Key(t2, p2)
    ensures t1 == t2 && p1 == p2
  {
    if |t1| <= |t2| {
      KeysCollideIff(t1, p1, t2, p2);
      NoContinuation(t1, t2);
    } else {
      KeysCollideIff(t2, p2, t1, p1);
      NoContinuation(t2, t1);
    }
  }

  lemma {:induction false} NoContinuation(t1: string, t2: string)
    requires ColonFree(t2)
    ensures forall x: string :: t2 != t1 + ":" + x
  {
    forall x: string ensures t2 != t1 + ":" + x {
      assert (t1 + ":" + x)[|t1|] == ':';
    }
  }

  // ----- processing changes -------------------------------------------------------------

  function ReadLww(lww: map<string, LwwRow>, key: string): Option<HlcTimestamp> {
    if key in lww then DecodeRow(lww[key]) else None
  }

  predicate TableAllows(lww: map<string, LwwRow>, c: Change) {
    match ReadLww(lww, KeyOf(c))
    case Some(existing) => existing.LessThan(c.timestamp)
    case None => true
  }

  /** The decision the service takes: the cache may reject early, otherwise the table decides. */
  predicate ShouldApply(s: Store, c: Change) {
    && !(KeyOf(c) in s.cache && c.timestamp.AtMost(s.cache[KeyOf(c)]))
    && TableAllows(s.lww, c)
  }

  /** A change whose payload the service can turn into a row, or need not parse. */
  predicate Parses(env: Env, c: Change) {
    c.table == "backends" && c.kind != Delete ==> env.parse(c.data).Some?
  }

  /** The statement issued against the backends table; deleting an absent row does nothing. */
  function WriteRow(env: Env, backends: map<string, BackendRow>, c: Change): map<string, BackendRow>
    requires Parses(env, c)
  {
    if c.table != "backends" then
      backends
    else if c.kind == Delete then
      if c.pk in backends then backends[c.pk := backends[c.pk].(deleted := true)] else backends
    else
      backends[c.pk := RowOf(env.parse(c.data).value)]
  }

  /** The store between the first SQL statement of a change and the second: only the LWW row is written. */
  function Torn(s: Store, c: Change): Store {
    s.(lww := s.lww[KeyOf(c) := EncodeRow(c.timestamp)])
  }

  function ApplySingle(env: Env, s: Store, c: Change): Store {
    if Parses(env, c) then
      Torn(s, c).(backends := WriteRow(env, s.backends, c), cache := s.cache[KeyOf(c) := c.timestamp])
    else
      Torn(s, c)
  }

  datatype Outcome = Outcome(store: Store, applied: nat, ok: bool)

  function ProcessOne(env: Env, s: Store, c: Change): Outcome {
    if ShouldApply(s, c)
    then Outcome(ApplySingle(env, s, c), if Parses(env, c) then 1 else 0, Parses(env, c))
    else Outcome(s, 0, true)
  }

  /** The loop over a changeset, which stops at the first payload that does not parse. */
  function Process(env: Env, s: Store, changes: seq<Change>): Outcome {
    if changes == [] then
      Outcome(s, 0, true)
    else
      var before := Process(env, s, changes[..|changes| - 1]);
      if !before.ok then
        before
      else
        var last := ProcessOne(env, before.store, changes[|changes| - 1]);
        Outcome(last.store, before.applied + last.applied, last.ok)
  }

  /** Processing a concatenation is processing one part after the other. */
  lemma {:induction false} ProcessConcat(env: Env, s: Store, a: seq<Change>, b: seq<Change>)
    ensures var first := Process(env, s, a);
            var whole := Process(env, s, a + b);
            if !first.ok then whole == first
            else var second := Process(env, first.store, b);
                 whole == Outcome(second.store, first.applied + second.applied, second.ok)
  {
    if b == [] {
      assert a + b == a;
    } else {
      var n := |b| - 1;
      assert (a + b)[..|a + b| - 1] == a + b[..n];
      ProcessConcat(env, s, a, b[..n]);
    }
  }

  /** Every cached timestamp is at most the one in the table. */
  predicate CacheBelow(s: Store) {
    forall k <- s.cache ::
      var read := ReadLww(s.lww, k);
      read.Some? && s.cache[k].AtMost(read.value)
  }

  /** With the cache below the table, the cached decision is the table's decision. */
  lemma CacheAgrees(s: Store, c: Change)
    requires CacheBelow(s)
    ensures ShouldApply(s, c) == TableAllows(s.lww, c)
  {
  }

  lemma ProcessOneKeepsCacheBelow(env: Env, s: Store, c: Change)
    requires CacheBelow(s) && Storable(c.timestamp)
    ensures CacheBelow(ProcessOne(env, s, c).store)
    ensures !TableAllows(ProcessOne(env, s, c).store.lww, c)
  {
  }

  lemma {:induction false} ProcessKeepsCacheBelow(env: Env, s: Store, changes: seq<Change>)
    requires CacheBelow(s) && forall c <- changes :: Storable(c.timestamp)
    ensures CacheBelow(Process(env, s, changes).store)
  {
    if changes != [] {
      var n := |changes| - 1;
      ProcessKeepsCacheBelow(env, s, changes[..n]);
      var before := Process(env, s, changes[..n]);
      if before.ok {
        ProcessOneKeepsCacheBelow(env, before.store, changes[n]);
      }
    }
  }

  /** Where the signed cast bites. Once a change is applied the cache and the table take the same
      decision on every later change exactly when its wall time fits in 63 bits. */
  lemma {:induction false} CastDecidesAgreement(env: Env, s: Store, c: Change)
    requires CacheBelow(s) && ShouldApply(s, c) && Parses(env, c)
    ensures var after := ApplySingle(env, s, c);
            (forall d: Change :: ShouldApply(after, d) == TableAllows(after.lww, d)) <==> Storable(c.timestamp)
  {
    var after := ApplySingle(env, s, c);
    if Storable(c.timestamp) {
      forall d: Change ensures ShouldApply(after, d) == TableAllows(after.lww, d) {
        CacheAgrees(after, d);
      }
    } else {
      assert ReadLww(after.lww, KeyOf(c)) == None;
      assert !ShouldApply(after, c) && TableAllows(after.lww, c);
    }
  }

  // ----- the declarative reading --------------------------------------------------------

  /** Of two candidates for a key, the later one decides only with a strictly greater timestamp. */
  function Later(earlier: Option<Change>, later: Option<Change>): Option<Change> {
    if later.Some? && (earlier.None? || earlier.value.timestamp.LessThan(later.value.timestamp))
    then later else earlier
  }

  /** The deciding change for a key, computed along the list. */
  function Winner(h: seq<Change>, key: string): (w: Option<Change>)
    ensures w.Some? ==> w.value in h && KeyOf(w.value) == key
  {
    if h == [] then None
    else
      var last := h[|h| - 1];
      Later(Winner(h[..|h| - 1], key), if KeyOf(last) == key then Some(last) else None)
  }

  /** Position i holds the earliest change with the greatest timestamp for the key. */
  ghost predicate Decides(h: seq<Change>, key: string, i: nat) {
    && i < |h| && KeyOf(h[i]) == key
    && (forall j :: 0 <= j < |h| && KeyOf(h[j]) == key ==> h[j].timestamp.AtMost(h[i].timestamp))
    && (forall j :: 0 <= j < i && KeyOf(h[j]) == key ==> h[j].timestamp.LessThan(h[i].timestamp))
  }

  lemma DecidesStays(h: seq<Change>, c: Change, key: string, i: nat)
    requires Decides(h, key, i)
    requires KeyOf(c) == key ==> c.timestamp.AtMost(h[i].timestamp)
    ensures Decides(h + [c], key, i)
  {
  }

  lemma DecidesMoves(h: seq<Change>, c: Change, key: string, i: nat)
    requires Decides(h, key, i)
    requires KeyOf(c) == key && h[i].timestamp.LessThan(c.timestamp)
    ensures Decides(h + [c], key, |h|)
  {
  }

  lemma {:induction false} NoWinner(h: seq<Change>, key: string)
    ensures Winner(h, key).None? <==> forall c <- h :: KeyOf(c) != key
  {
    if h != [] {
      var n := |h| - 1;
      assert h == h[..n] + [h[n]];
      NoWinner(h[..n], key);
    }
  }

  /** The computed winner is the deciding change: some position decides, and it holds the winner. */
  lemma {:induction false} WinnerDecides(h: seq<Change>, key: string)
    requires Winner(h, key).Some?
    ensures exists i: nat :: Decides(h, key, i) && h[i] == Winner(h, key).value
  {
    var n := |h| - 1;
    var front := h[..n];
    assert h == front + [h[n]];
    if Winner(front, key).None? {
      NoWinner(front, key);
      assert Decides(h, key, n);
    } else {
      WinnerDecides(front, key);
      var i: nat :| Decides(front, key, i) && front[i] == Winner(front, key).value;
      if KeyOf(h[n]) == key && front[i].timestamp.LessThan(h[n].timestamp) {
        DecidesMoves(front, h[n], key, i);
      } else {
        DecidesStays(front, h[n], key, i);
      }
    }
  }

  /** Conversely, whatever position decides holds the winner: the reading leaves no choice. */
  lemma {:induction false} DecidingIsWinner(h: seq<Change>, key: string, i: nat)
    requires Decides(h, key, i)
    ensures Winner(h, key) == Some(h[i])
  {
    NoWinner(h, key);
    WinnerDecides(h, key);
    var j: nat :| Decides(h, key, j) && h[j] == Winner(h, key).value;
    assert h[i].timestamp.AtMost(h[j].timestamp) && h[j].timestamp.AtMost(h[i].timestamp);
  }

  lemma {:induction false} WinnerConcat(a: seq<Change>, b: seq<Change>, key: string)
    ensures Winner(a + b, key) == Later(Winner(a, key), Winner(b, key))
  {
    if b == [] {
      assert a + b == a;
    } else {
      var n := |b| - 1;
      assert (a + b)[..|a + b| - 1] == a + b[..n];
      WinnerConcat(a, b[..n], key);
    }
  }

  /** What a change dictates for its row. */
  function Effect(env: Env, c: Change): Option<BackendRow> {
    if c.kind == Delete || env.parse(c.data).None? then None else Some(RowOf(env.parse(c.data).value))
  }

  function LiveRow(backends: map<string, BackendRow>, pk: string): Option<BackendRow> {
    if pk in backends && !backends[pk].deleted then Some(backends[pk]) else None
  }

  predicate Regular(env: Env, c: Change) {
    Parses(env, c) && Storable(c.timestamp) && ColonFree(c.table)
  }

  ghost predicate AllRegular(env: Env, h: seq<Change>) {
    forall c <- h :: Regular(env, c)
  }

  /** The LWW table holds exactly the winners' timestamps. */
  ghost predicate RepresentsLww(s: Store, h: seq<Change>) {
    && CacheBelow(s)
    && (forall k :: k in s.lww <==> Winner(h, k).Some?)
    && (forall k :: k in s.lww ==> s.lww[k] == EncodeRow(Winner(h, k).value.timestamp))
  }

  ghost function Dictated(env: Env, h: seq<Change>, pk: string): Option<BackendRow> {
    var w := Winner(h, Key("backends", pk));
    if w.None? then None else Effect(env, w.value)
  }

  /** The live rows are exactly what the winners dictate. */
  ghost predicate RepresentsRows(env: Env, s: Store, h: seq<Change>) {
    forall pk :: LiveRow(s.backends, pk) == Dictated(env, h, pk)
  }

  /** The store holds exactly what the processed changes dictate. */
  ghost predicate Represents(env: Env, s: Store, h: seq<Change>) {
    RepresentsLww(s, h) && RepresentsRows(env, s, h)
  }

  /** One more change moves the winner of its own key, if the store applies it, and no other. */
  lemma {:induction false} WinnerMoves(env: Env, s: Store, h: seq<Change>, c: Change, k: string)
    requires AllRegular(env, h) && RepresentsLww(s, h)
    ensures Winner(h + [c], k) == if k == KeyOf(c) && ShouldApply(s, c) then Some(c) else Winner(h, k)
  {
    assert (h + [c])[..|h|] == h;
    CacheAgrees(s, c);
    var w := Winner(h, KeyOf(c));
    assert w.Some? ==> ReadLww(s.lww, KeyOf(c)) == Some(w.value.timestamp);
  }

  /** Writing the LWW row of an applied change, or rejecting it, keeps the LWW table in step, whatever
      happens to the rest of the store. */
  lemma {:induction false} LwwRefines(env: Env, s: Store, h: seq<Change>, c: Change, s': Store)
    requires AllRegular(env, h) && Storable(c.timestamp) && RepresentsLww(s, h)
    requires s'.lww == (if ShouldApply(s, c) then Torn(s, c).lww else s.lww) && CacheBelow(s')
    ensures RepresentsLww(s', h + [c])
  {
    forall k
      ensures k in s'.lww <==> Winner(h + [c], k).Some?
      ensures k in s'.lww ==> s'.lww[k] == EncodeRow(Winner(h + [c], k).value.timestamp)
    {
      WinnerMoves(env, s, h, c, k);
    }
  }

  lemma {:induction false} RowRefines(env: Env, s: Store, h: seq<Change>, c: Change, pk: string)
    requires AllRegular(env, h) && Regular(env, c) && Represents(env, s, h)
    ensures LiveRow(ProcessOne(env, s, c).store.backends, pk) == Dictated(env, h + [c], pk)
  {
    WinnerMoves(env, s, h, c, Key("backends", pk));
    assert LiveRow(s.backends, pk) == Dictated(env, h, pk);
    if ShouldApply(s, c) && Key("backends", pk) == KeyOf(c) {
      KeyInjective("backends", pk, c.table, c.pk);
    }
  }

  lemma {:induction false} ProcessOneRefines(env: Env, s: Store, h: seq<Change>, c: Change)
    requires AllRegular(env, h) && Regular(env, c) && RepresentsLww(s, h)
    ensures AllRegular(env, h + [c])
    ensures ProcessOne(env, s, c).ok
    ensures RepresentsLww(ProcessOne(env, s, c).store, h + [c])
    ensures RepresentsRows(env, s, h) ==> RepresentsRows(env, ProcessOne(env, s, c).store, h + [c])
  {
    ProcessOneKeepsCacheBelow(env, s, c);
    LwwRefines(env, s, h, c, ProcessOne(env, s, c).store);
    if RepresentsRows(env, s, h) {
      forall pk ensures LiveRow(ProcessOne(env, s, c).store.backends, pk) == Dictated(env, h + [c], pk) {
        RowRefines(env, s, h, c, pk);
      }
    }
  }

  /** Refinement, list by list: the incremental store and the declarative reading stay equal. */
  lemma {:induction false} ProcessRefines(env: Env, s: Store, h: seq<Change>, changes: seq<Change>)
    requires AllRegular(env, h) && AllRegular(env, changes) && RepresentsLww(s, h)
    ensures Process(env, s, changes).ok
    ensures AllRegular(env, h + changes)
    ensures RepresentsLww(Process(env, s, changes).store, h + changes)
    ensures RepresentsRows(env, s, h) ==> RepresentsRows(env, Process(env, s, changes).store, h + changes)
  {
    if changes == [] {
      assert h + changes == h;
    } else {
      var n := |changes| - 1;
      ProcessRefines(env, s, h, changes[..n]);
      assert h + changes == (h + changes[..n]) + [changes[n]];
      ProcessOneRefines(env, Process(env, s, changes[..n]).store, h + changes[..n], changes[n]);
    }
  }

  /** Two stores dictated by lists with the same winners agree on the LWW table and on live rows. */
  lemma {:induction false} SameWinnersSameTables(env: Env, s1: Store, h1: seq<Change>, s2: Store, h2: seq<Change>)
    requires RepresentsLww(s1, h1) && RepresentsLww(s2, h2)
    requires forall k :: Winner(h1, k) == Winner(h2, k)
    ensures s1.lww == s2.lww
    ensures RepresentsRows(env, s1, h1) && RepresentsRows(env, s2, h2) ==> Live(s1.backends) == Live(s2.backends)
  {
    if RepresentsRows(env, s1, h1) && RepresentsRows(env, s2, h2) {
      forall pk ensures LiveRow(s1.backends, pk) == LiveRow(s2.backends, pk) {
        assert Dictated(env, h1, pk) == Dictated(env, h2, pk);
      }
      LiveRowsDetermineLive(s1.backends, s2.backends);
    }
  }

  lemma {:induction false} LiveRowsDetermineLive(b1: map<string, BackendRow>, b2: map<string, BackendRow>)
    requires forall pk :: LiveRow(b1, pk) == LiveRow(b2, pk)
    ensures Live(b1) == Live(b2)
  {
    forall pk ensures pk in Live(b1) <==> pk in Live(b2) {
      assert LiveRow(b1, pk) == LiveRow(b2, pk);
    }
    forall pk | pk in Live(b1) ensures Live(b1)[pk] == Live(b2)[pk] {
      assert LiveRow(b1, pk) == LiveRow(b2, pk);
    }
  }
}
