/** The settled checkpoints of a relay as a hash chain: what each names as its predecessor, and in which order
    segments must be settled for the chain to hold. */
module RelayChain {
  import opened Wrappers
  import opened Hashing
  import opened Text
  import opened Sorting
  import opened RelayStore
  import C = Consistency
  import T = CheckpointTable

  // ---------- The checkpoint named as predecessor ----------

  /** A checkpoint settled for an earlier epoch of the segment's shard. */
  ghost predicate IsEarlier<H>(settled: seq<Settled<H>>, segment: Segment, c: C.Checkpoint<H>) {
    && c.body.shard == segment.shard && c.body.epochStart < segment.epoch
    && exists i | 0 <= i < |settled| :: settled[i].checkpoint == c
  }

  lemma {:induction false} EarlierAre<H>(settled: seq<Settled<H>>, segment: Segment, c: C.Checkpoint<H>)
    ensures c in Earlier(settled, segment) <==> IsEarlier(settled, segment, c)
  {
    if settled != [] {
      var n := |settled| - 1;
      EarlierAre(settled[..n], segment, c);
      if IsEarlier(settled, segment, c) {
        var i :| 0 <= i < |settled| && settled[i].checkpoint == c;
        if i < n { assert settled[..n][i].checkpoint == c; }
      }
      if IsEarlier(settled[..n], segment, c) {
        var i :| 0 <= i < n && settled[..n][i].checkpoint == c;
        assert settled[i].checkpoint == c;
      }
    }
  }

  /** A new checkpoint names the hash of a latest one before it, and zero if there is none. */
  lemma PreviousIsLatest<H>(cfg: Config<H>, settled: seq<Settled<H>>, segment: Segment)
      returns (c: Option<C.Checkpoint<H>>)
    ensures c.None? ==> forall d :: !IsEarlier(settled, segment, d)
    ensures c.None? ==> PreviousCheckpointHash(cfg, settled, segment) == cfg.zero
    ensures c.Some? ==> IsEarlier(settled, segment, c.value)
    ensures c.Some? ==> forall d | IsEarlier(settled, segment, d) :: d.body.epochStart <= c.value.body.epochStart
    ensures c.Some? ==> PreviousCheckpointHash(cfg, settled, segment) == cfg.bodyHash(c.value.body)
  {
    hide StableSort, Earlier, IsEarlier;
    var earlier := Earlier(settled, segment);
    var sorted := StableSort(NewestFirst, earlier);
    SortKeepsMembers(NewestFirst, earlier);
    forall d ensures d in sorted <==> IsEarlier(settled, segment, d) {
      EarlierAre(settled, segment, d);
    }
    if sorted == [] {
      c := None;
    } else {
      c := Some(sorted[0]);
      assert sorted[0] in sorted && IsEarlier(settled, segment, sorted[0]);
      forall d | IsEarlier(settled, segment, d) ensures d.body.epochStart <= sorted[0].body.epochStart {
        var j :| 0 <= j < |sorted| && sorted[j] == d;
        assert j > 0 ==> NewestFirst(sorted[0]) <= NewestFirst(sorted[j]);
      }
    }
  }

  // ---------- Settled checkpoints as a table ----------

  ghost predicate UniqueKeys<H>(settled: seq<Settled<H>>) {
    forall i, j | 0 <= i < j < |settled| :: settled[i].key != settled[j].key
  }

  lemma PutKeepsUnique<H>(settled: seq<Settled<H>>, key: Segment, c: C.Checkpoint<H>)
    requires UniqueKeys(settled)
    ensures UniqueKeys(PutSettled(settled, key, c))
  {
  }

  function KeyFor(k: Segment): T.Key {
    T.Key(k.epoch, k.shard)
  }

  /** Closed segments have settled checkpoints, each for its own epoch and shard. */
  ghost predicate Settles<H>(cfg: Config<H>, s: Store<H>) {
    && (forall k :: k in s.closed <==> GetSettled(s.settled, k).Some?)
    && (forall k | k in s.closed :: IsFor(cfg, GetSettled(s.settled, k).value.body, k))
  }

  /** The settled checkpoints as rows of the checkpoint table. */
  ghost function RowsOf<H>(cfg: Config<H>, s: Store<H>): T.Rows<H>
    requires Settles(cfg, s)
  {
    map k | k in s.closed :: KeyFor(k) := T.RowOf(cfg.bodyHash, GetSettled(s.settled, k).value, true)
  }

  lemma RowsAre<H>(cfg: Config<H>, s: Store<H>, k: Segment)
    requires Settles(cfg, s)
    ensures k in s.closed <==> KeyFor(k) in RowsOf(cfg, s)
    ensures k in s.closed ==> RowsOf(cfg, s)[KeyFor(k)] == T.RowOf(cfg.bodyHash, GetSettled(s.settled, k).value, true)
  {
    hide GetSettled;
    assert forall j | KeyFor(j) == KeyFor(k) :: j == k;
  }

  lemma EntryIsGot<H>(settled: seq<Settled<H>>, i: nat)
    requires UniqueKeys(settled) && i < |settled|
    ensures GetSettled(settled, settled[i].key) == Some(settled[i].checkpoint)
  {
    SettledIndexUnique(settled, settled[i].key, i);
  }

  lemma GotIsEntry<H>(settled: seq<Settled<H>>, k: Segment)
    requires GetSettled(settled, k).Some?
    ensures exists i | 0 <= i < |settled| :: settled[i].checkpoint == GetSettled(settled, k).value
  {
    assert settled[SettledIndex(settled, k)].checkpoint == GetSettled(settled, k).value;
  }

  /** The relay and the table look up the same predecessor. */
  lemma PreviousAgrees<H>(cfg: Config<H>, s: Store<H>, segment: Segment)
    requires Settles(cfg, s) && UniqueKeys(s.settled)
    ensures PreviousCheckpointHash(cfg, s.settled, segment)
         == T.PreviousHash(cfg.zero, RowsOf(cfg, s), segment.shard, segment.epoch)
  {
    hide PreviousCheckpointHash, GetSettled, RowsOf, UniqueKeys;
    var rows := RowsOf(cfg, s);
    var c := PreviousIsLatest(cfg, s.settled, segment);
    forall j | j in rows && j.shard == segment.shard && j.epoch < segment.epoch
      ensures c.Some? && j.epoch <= c.value.body.epochStart
    {
      var k := Segment(j.epoch, j.shard);
      RowsAre(cfg, s, k);
      GotIsEntry(s.settled, k);
      assert IsEarlier(s.settled, segment, GetSettled(s.settled, k).value);
    }
    if c.None? {
      T.LatestBeforeIsNone(rows, segment.shard, segment.epoch);
    } else {
      var i :| 0 <= i < |s.settled| && s.settled[i].checkpoint == c.value;
      EntryIsGot(s.settled, i);
      var k := s.settled[i].key;
      RowsAre(cfg, s, k);
      assert T.IsLatestBefore(rows, segment.shard, segment.epoch, KeyFor(k));
      T.LatestBeforeIs(rows, segment.shard, segment.epoch, KeyFor(k));
    }
  }

  // ---------- One more checkpoint ----------

  ghost predicate HasLater<H>(rows: T.Rows<H>, key: T.Key) {
    exists j :: j in rows && j.shard == key.shard && j.epoch > key.epoch
  }

  ghost function BodySet<H>(rows: T.Rows<H>): set<C.Body<H>> {
    set k | k in rows :: rows[k].body
  }

  /** A checkpoint that names its predecessor is taken by the table, and keeps the chains of a table it is put into,
      exactly if its shard has no later row. */
  lemma NewRowIsExact<H>(hash: C.Body<H> -> H, zero: H, rows: T.Rows<H>, c: C.Checkpoint<H>)
    requires T.Inv(hash, zero, rows) && T.KeyOf(c) !in rows
    requires c.body.previous == T.PreviousHash(zero, rows, c.body.shard, c.body.epochStart)
    requires CollisionFree(hash, zero, BodySet(rows) + {c.body})
    ensures T.InsertStep(hash, zero, rows, c, true).1.Done? <==> !HasLater(rows, T.KeyOf(c))
    ensures T.Inv(hash, zero, rows[T.KeyOf(c) := T.RowOf(hash, c, true)]) <==> !HasLater(rows, T.KeyOf(c))
  {
    hide T.PreviousHash, T.LatestBefore, T.EarliestAfter;
    var key := T.KeyOf(c);
    if j :| j in rows && j.shard == key.shard && j.epoch > key.epoch {
      T.NoInsertBefore(hash, zero, rows, c, true, j);
      LaterRowBreaks(hash, zero, rows, c, j);
    } else {
      NoLaterIsDone(hash, zero, rows, c);
      T.InsertKeepsInv(hash, zero, rows, c, true);
    }
  }

  lemma NoLaterIsDone<H>(hash: C.Body<H> -> H, zero: H, rows: T.Rows<H>, c: C.Checkpoint<H>)
    requires T.Inv(hash, zero, rows) && T.KeyOf(c) !in rows && !HasLater(rows, T.KeyOf(c))
    requires c.body.previous == T.PreviousHash(zero, rows, c.body.shard, c.body.epochStart)
    requires CollisionFree(hash, zero, BodySet(rows) + {c.body})
    ensures var after := rows[T.KeyOf(c) := T.RowOf(hash, c, true)];
      T.InsertStep(hash, zero, rows, c, true) == (after, T.Done(hash(c.body)))
  {
    hide T.PreviousHash;
    var key := T.KeyOf(c);
    assert forall k :: !T.IsEarliestAfter(rows, key.shard, key.epoch, k);
    forall k | k in rows ensures rows[k].hash != hash(c.body) {
      assert rows[k].body in BodySet(rows);
    }
  }

  /** A row put before another leaves that one naming the wrong predecessor. */
  lemma LaterRowBreaks<H>(hash: C.Body<H> -> H, zero: H, rows: T.Rows<H>, c: C.Checkpoint<H>, later: T.Key)
    requires T.Inv(hash, zero, rows) && T.KeyOf(c) !in rows
    requires later in rows && later.shard == c.body.shard && later.epoch > c.body.epochStart
    requires CollisionFree(hash, zero, BodySet(rows) + {c.body})
    ensures !T.Inv(hash, zero, rows[T.KeyOf(c) := T.RowOf(hash, c, true)])
  {
    hide T.EarliestAfter;
    var key := T.KeyOf(c);
    var after := rows[key := T.RowOf(hash, c, true)];
    var next := T.EarliestAfterExists(rows, key.shard, key.epoch, later, rows.Keys);
    assert T.IsLatestBefore(after, next.shard, next.epoch, key);
    T.LatestBeforeIs(after, next.shard, next.epoch, key);
    T.LatestBeforeExists(rows, next.shard, next.epoch);
    assert rows[next].body.previous == T.PreviousHash(zero, rows, next.shard, next.epoch);
    match T.LatestBefore(rows, next.shard, next.epoch)
    case None =>
    case Some(p) =>
      assert rows[p].body in BodySet(rows);
      assert rows[p].hash != hash(c.body);
  }

  // ---------- Runs of whole calls ----------

  /** The settled checkpoints of every shard, in epoch order, are a hash chain from zero. */
  ghost predicate Chains<H>(cfg: Config<H>, s: Store<H>)
    requires Settles(cfg, s)
  {
    T.Inv(cfg.bodyHash, cfg.zero, RowsOf(cfg, s))
  }

  /** The call settles a segment for the first time. */
  ghost predicate Opens<H>(cfg: Config<H>, s: Store<H>, call: Call<H>) {
    call.SubmitCall? && cfg.backend.Some? && call.answered && call.segment !in s.closed
  }

  /** A segment settled for the first time comes after all settled ones of its shard. */
  ghost predicate InOrder<H>(cfg: Config<H>, s: Store<H>, call: Call<H>) {
    Opens(cfg, s, call) ==> forall k | k in s.closed && k.shard == call.segment.shard :: k.epoch < call.segment.epoch
  }

  lemma SerialSettles<H>(cfg: Config<H>, nonceOf: H -> NonceKey, s: Store<H>)
    requires SerialInv(cfg, nonceOf, s)
    ensures Settles(cfg, s)
  {
    hide GetSettled, IsFor, EntriesFor, NoncesUsed, SegmentsNumbered;
  }

  lemma SameBodiesSameChains<H>(cfg: Config<H>, s: Store<H>, t: Store<H>)
    requires Settles(cfg, s) && Settles(cfg, t) && s.closed.Keys == t.closed.Keys
    requires forall k | k in s.closed :: GetSettled(s.settled, k).value.body == GetSettled(t.settled, k).value.body
    ensures Chains(cfg, s) ==> Chains(cfg, t)
  {
    hide GetSettled, RowsOf, T.PreviousHash;
    var a, b := RowsOf(cfg, s), RowsOf(cfg, t);
    forall j ensures j in a <==> j in b
      ensures j in a ==> a[j].body == b[j].body && a[j].hash == b[j].hash
    {
      RowsAre(cfg, s, Segment(j.epoch, j.shard));
      RowsAre(cfg, t, Segment(j.epoch, j.shard));
    }
    forall j | j in b
      ensures T.PreviousHash(cfg.zero, b, j.shard, j.epoch) == T.PreviousHash(cfg.zero, a, j.shard, j.epoch)
    {
      T.PreviousHashSame(cfg.zero, a, b, j.shard, j.epoch);
    }
  }

  /** What a call leaves of the settled checkpoints. */
  lemma CallSettles<H>(cfg: Config<H>, s: Store<H>, call: Call<H>)
    requires ValidConfig(cfg) && Settles(cfg, s)
    ensures var t := Perform(cfg, s, call);
      && (UniqueKeys(s.settled) ==> UniqueKeys(t.settled))
      && (!Opens(cfg, s, call) ==>
            && t.closed.Keys == s.closed.Keys
            && forall k | k in s.closed ::
                 && GetSettled(s.settled, k).Some? && GetSettled(t.settled, k).Some?
                 && GetSettled(t.settled, k).value.body == GetSettled(s.settled, k).value.body)
      && (Opens(cfg, s, call) ==>
            var reply := ReplyTo(CheckpointOf(cfg, s, call.segment), call.tx, call.identity);
            && t.closed.Keys == s.closed.Keys + {call.segment}
            && forall k ::
                 GetSettled(t.settled, k) == if k == call.segment then Some(reply) else GetSettled(s.settled, k))
  {
    hide GetSettled, PutSettled, UniqueKeys, EntriesFor, Put, OpenBody, IsFor, NonceOf, SegmentOf;
    if call.SubmitCall? && cfg.backend.Some? && call.answered {
      var reply := ReplyTo(CheckpointOf(cfg, s, call.segment), call.tx, call.identity);
      if UniqueKeys(s.settled) { PutKeepsUnique(s.settled, call.segment, reply); }
      forall k ensures GetSettled(PutSettled(s.settled, call.segment, reply), k)
          == if k == call.segment then Some(reply) else GetSettled(s.settled, k)
      {
        SettledPutGet(s.settled, call.segment, reply, k);
      }
    }
  }

  /** The rows after a segment is settled for the first time. */
  lemma OpenedRows<H>(cfg: Config<H>, s: Store<H>, t: Store<H>, segment: Segment, reply: C.Checkpoint<H>)
    requires Settles(cfg, s) && Settles(cfg, t) && segment !in s.closed && t.closed.Keys == s.closed.Keys + {segment}
    requires forall k :: GetSettled(t.settled, k) == if k == segment then Some(reply) else GetSettled(s.settled, k)
    ensures T.KeyOf(reply) == KeyFor(segment) && KeyFor(segment) !in RowsOf(cfg, s)
    ensures RowsOf(cfg, t) == RowsOf(cfg, s)[KeyFor(segment) := T.RowOf(cfg.bodyHash, reply, true)]
  {
    hide GetSettled, RowsOf, T.RowOf;
    RowsAre(cfg, s, segment);
    RowsAre(cfg, t, segment);
    assert IsFor(cfg, GetSettled(t.settled, segment).value.body, segment);
    var a, b := RowsOf(cfg, s), RowsOf(cfg, t);
    forall j ensures j in b <==> j in a || j == KeyFor(segment)
      ensures j in b ==> b[j] == a[KeyFor(segment) := T.RowOf(cfg.bodyHash, reply, true)][j]
    {
      RowsAre(cfg, s, Segment(j.epoch, j.shard));
      RowsAre(cfg, t, Segment(j.epoch, j.shard));
    }
  }

  /** The bodies of the settled checkpoints. */
  ghost predicate BodiesWithin<H>(cfg: Config<H>, s: Store<H>, bodies: set<C.Body<H>>)
    requires Settles(cfg, s)
  {
    BodySet(RowsOf(cfg, s)) <= bodies
  }

  /** A call keeps the chains exactly if it settles in order; and it is then, and only then, that the table takes
      the checkpoint it settles. */
  lemma CallIsExact<H>(cfg: Config<H>, nonceOf: H -> NonceKey, s: Store<H>, call: Call<H>, bodies: set<C.Body<H>>)
    requires ValidConfig(cfg) && NonceFixed(nonceOf, call) && SerialInv(cfg, nonceOf, s) && UniqueKeys(s.settled)
    requires Settles(cfg, s) && Settles(cfg, Perform(cfg, s, call)) && Chains(cfg, s)
    requires BodiesWithin(cfg, Perform(cfg, s, call), bodies) && CollisionFree(cfg.bodyHash, cfg.zero, bodies)
    ensures Chains(cfg, Perform(cfg, s, call)) <==> InOrder(cfg, s, call)
    ensures Opens(cfg, s, call) ==>
      var c := CheckpointOf(cfg, s, call.segment);
      InOrder(cfg, s, call) <==> T.InsertStep(cfg.bodyHash, cfg.zero, RowsOf(cfg, s), c, true).1.Done?
  {
    hide Perform, RowsOf, GetSettled, SerialInv, UniqueKeys, CheckpointOf, T.Inv, T.InsertStep, T.PreviousHash,
      CollisionFree;
    var t := Perform(cfg, s, call);
    CallSettles(cfg, s, call);
    if !Opens(cfg, s, call) {
      SameBodiesSameChains(cfg, s, t);
    } else {
      var segment, c := call.segment, CheckpointOf(cfg, s, call.segment);
      var reply := ReplyTo(c, call.tx, call.identity);
      OpenedRows(cfg, s, t, segment, reply);
      OpenedBody(cfg, s, segment);
      PreviousAgrees(cfg, s, segment);
      var rows := RowsOf(cfg, s);
      OpenedBodies(rows, KeyFor(segment), T.RowOf(cfg.bodyHash, reply, true), bodies);
      FewerBodies(cfg, BodySet(rows) + {c.body}, bodies);
      NewRowIsExact(cfg.bodyHash, cfg.zero, rows, reply);
      NewRowIsExact(cfg.bodyHash, cfg.zero, rows, c);
      LaterIsLater(cfg, s, segment);
    }
  }

  lemma OpenedBody<H>(cfg: Config<H>, s: Store<H>, segment: Segment)
    requires GetSettled(s.settled, segment).None?
    ensures var body := CheckpointOf(cfg, s, segment).body;
      && body.epochStart == segment.epoch && body.shard == segment.shard
      && body.previous == PreviousCheckpointHash(cfg, s.settled, segment)
  {
    hide EntriesRoot, EntriesFor, PreviousCheckpointHash;
  }

  lemma OpenedBodies<H>(rows: T.Rows<H>, key: T.Key, row: T.Row<H>, bodies: set<C.Body<H>>)
    requires key !in rows && BodySet(rows[key := row]) <= bodies
    ensures BodySet(rows) + {row.body} <= bodies
  {
    var all := rows[key := row];
    assert all[key].body in BodySet(all);
    forall k | k in rows ensures rows[k].body in bodies {
      assert all[k].body in BodySet(all);
    }
  }

  lemma FewerBodies<H>(cfg: Config<H>, fewer: set<C.Body<H>>, bodies: set<C.Body<H>>)
    requires CollisionFree(cfg.bodyHash, cfg.zero, bodies) && fewer <= bodies
    ensures CollisionFree(cfg.bodyHash, cfg.zero, fewer)
  {
  }

  lemma LaterIsLater<H>(cfg: Config<H>, s: Store<H>, segment: Segment)
    requires Settles(cfg, s) && segment !in s.closed
    ensures !HasLater(RowsOf(cfg, s), KeyFor(segment)) <==>
      forall k | k in s.closed && k.shard == segment.shard :: k.epoch < segment.epoch
  {
    hide GetSettled, RowsOf;
    var rows := RowsOf(cfg, s);
    if j :| j in rows && j.shard == segment.shard && j.epoch > segment.epoch {
      RowsAre(cfg, s, Segment(j.epoch, j.shard));
      assert Segment(j.epoch, j.shard) in s.closed;
    } else {
      forall k | k in s.closed && k.shard == segment.shard ensures k.epoch < segment.epoch {
        RowsAre(cfg, s, k);
        assert k.epoch == segment.epoch ==> k == segment;
        assert !(KeyFor(k) in rows && KeyFor(k).shard == segment.shard && KeyFor(k).epoch > segment.epoch);
      }
    }
  }

  /** The store after the first n calls. */
  ghost function StoreAt<H>(cfg: Config<H>, nonceOf: H -> NonceKey, calls: seq<Call<H>>, n: nat): (s: Store<H>)
    requires ValidConfig(cfg) && n <= |calls| && forall c | c in calls :: NonceFixed(nonceOf, c)
    ensures SerialInv(cfg, nonceOf, s) && Settles(cfg, s)
  {
    SerialRunsKeepInv(cfg, nonceOf, calls[..n]);
    SerialSettles(cfg, nonceOf, PerformAll(cfg, calls[..n]));
    PerformAll(cfg, calls[..n])
  }

  lemma StoreStep<H>(cfg: Config<H>, nonceOf: H -> NonceKey, calls: seq<Call<H>>, i: nat)
    requires ValidConfig(cfg) && i < |calls| && forall c | c in calls :: NonceFixed(nonceOf, c)
    ensures StoreAt(cfg, nonceOf, calls, i + 1) == Perform(cfg, StoreAt(cfg, nonceOf, calls, i), calls[i])
  {
    hide Perform, SerialInv, Settles;
    assert calls[..i + 1][..i] == calls[..i];
  }

  lemma {:induction false} KeysStayUnique<H>(cfg: Config<H>, nonceOf: H -> NonceKey, calls: seq<Call<H>>, n: nat)
    requires ValidConfig(cfg) && n <= |calls| && forall c | c in calls :: NonceFixed(nonceOf, c)
    ensures UniqueKeys(StoreAt(cfg, nonceOf, calls, n).settled)
  {
    hide Perform, SerialInv, StoreAt, Settles, NonceFixed;
    if n > 0 {
      KeysStayUnique(cfg, nonceOf, calls, n - 1);
      StoreStep(cfg, nonceOf, calls, n - 1);
      CallSettles(cfg, StoreAt(cfg, nonceOf, calls, n - 1), calls[n - 1]);
    } else {
      NothingSettled(cfg, nonceOf, calls);
    }
  }

  lemma NothingSettled<H>(cfg: Config<H>, nonceOf: H -> NonceKey, calls: seq<Call<H>>)
    requires ValidConfig(cfg) && forall c | c in calls :: NonceFixed(nonceOf, c)
    ensures StoreAt(cfg, nonceOf, calls, 0) == EmptyStore() && UniqueKeys(EmptyStore<H>().settled)
    ensures Chains(cfg, StoreAt(cfg, nonceOf, calls, 0))
  {
    hide SerialInv;
    assert calls[..0] == [];
  }

  ghost predicate ChainsUpTo<H>(cfg: Config<H>, nonceOf: H -> NonceKey, calls: seq<Call<H>>, n: nat)
    requires ValidConfig(cfg) && n <= |calls| && forall c | c in calls :: NonceFixed(nonceOf, c)
  {
    forall i: nat | i <= n :: Chains(cfg, StoreAt(cfg, nonceOf, calls, i))
  }

  ghost predicate InOrderAt<H>(cfg: Config<H>, nonceOf: H -> NonceKey, calls: seq<Call<H>>, i: nat)
    requires ValidConfig(cfg) && i < |calls| && forall c | c in calls :: NonceFixed(nonceOf, c)
  {
    InOrder(cfg, StoreAt(cfg, nonceOf, calls, i), calls[i])
  }

  /** In every run of whole calls the settled checkpoints of every shard stay a hash chain if and only if every
      segment is settled after all those of its shard that are settled already. */
  lemma {:induction false} ChainsExactly<H>(cfg: Config<H>, nonceOf: H -> NonceKey, calls: seq<Call<H>>, n: nat,
      bodies: set<C.Body<H>>)
    requires ValidConfig(cfg) && n <= |calls| && forall c | c in calls :: NonceFixed(nonceOf, c)
    requires CollisionFree(cfg.bodyHash, cfg.zero, bodies)
    requires forall i: nat | i <= n :: BodiesWithin(cfg, StoreAt(cfg, nonceOf, calls, i), bodies)
    ensures ChainsUpTo(cfg, nonceOf, calls, n) <==> forall i: nat | i < n :: InOrderAt(cfg, nonceOf, calls, i)
  {
    hide Perform, SerialInv, StoreAt, Settles, NonceFixed, Chains, InOrder, BodiesWithin, CollisionFree;
    NothingSettled(cfg, nonceOf, calls);
    if n > 0 {
      ChainsExactly(cfg, nonceOf, calls, n - 1, bodies);
      StoreStep(cfg, nonceOf, calls, n - 1);
      KeysStayUnique(cfg, nonceOf, calls, n - 1);
      var s := StoreAt(cfg, nonceOf, calls, n - 1);
      assert calls[n - 1] in calls && BodiesWithin(cfg, StoreAt(cfg, nonceOf, calls, n), bodies);
      if Chains(cfg, s) { CallIsExact(cfg, nonceOf, s, calls[n - 1], bodies); }
      assert ChainsUpTo(cfg, nonceOf, calls, n) <==>
        ChainsUpTo(cfg, nonceOf, calls, n - 1) && Chains(cfg, StoreAt(cfg, nonceOf, calls, n));
      assert (forall i: nat | i < n :: InOrderAt(cfg, nonceOf, calls, i)) <==>
        (forall i: nat | i < n - 1 :: InOrderAt(cfg, nonceOf, calls, i)) && InOrderAt(cfg, nonceOf, calls, n - 1);
    }
  }

  /** Where the chains hold, the settled checkpoints of a shard up to an epoch are a hash chain from zero in epoch
      order, which consistency proofs are built from. */
  lemma ShardIsChained<H>(cfg: Config<H>, s: Store<H>, shard: Text, upTo: int)
    requires Settles(cfg, s) && Chains(cfg, s)
    ensures var list := T.ShardRows(RowsOf(cfg, s), shard, upTo);
      C.Chained(cfg.bodyHash, T.RowBodies(list)) && (list != [] ==> list[0].body.previous == cfg.zero)
  {
    hide RowsOf, T.Inv, T.ShardRows;
    T.ShardRowsChained(cfg.bodyHash, cfg.zero, RowsOf(cfg, s), shard, upTo);
  }
}
