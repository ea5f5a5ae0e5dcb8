/** The `checkpoints` table: one row for each epoch and shard, hashes unique, each row naming the
    hash of the shard's row before it. Each call is one atomic step. */
module CheckpointTable {
  import opened Hashing
  import opened Wrappers
  import opened Text
  import opened Consistency
  import Sorting

  datatype Key = Key(epoch: int, shard: Text)

  datatype Row<H> = Row(hash: H, body: Body<H>, relaySignature: Text, settlementTx: Option<Text>, settled: bool)

  type Rows<H> = map<Key, Row<H>>

  datatype TableError = ChainBroken | Conflict | DuplicateHash | Missing | IdentityMismatch

  datatype Outcome<H> = Done(hash: H) | Failed(error: TableError)

  function KeyOf<H>(c: Checkpoint<H>): Key {
    Key(c.body.epochStart, c.body.shard)
  }

  function RowOf<H>(hash: Body<H> -> H, c: Checkpoint<H>, settled: bool): Row<H> {
    Row(hash(c.body), c.body, c.relaySignature, c.settlementTx, settled)
  }

  // ---------- Neighbouring rows ----------

  ghost predicate IsLatestBefore<H>(rows: Rows<H>, shard: Text, epoch: int, k: Key) {
    && k in rows && k.shard == shard && k.epoch < epoch
    && forall j | j in rows && j.shard == shard && j.epoch < epoch :: j.epoch <= k.epoch
  }

  ghost predicate IsEarliestAfter<H>(rows: Rows<H>, shard: Text, epoch: int, k: Key) {
    && k in rows && k.shard == shard && k.epoch > epoch
    && forall j | j in rows && j.shard == shard && j.epoch > epoch :: k.epoch <= j.epoch
  }

  ghost function LatestBefore<H>(rows: Rows<H>, shard: Text, epoch: int): Option<Key> {
    if k :| IsLatestBefore(rows, shard, epoch, k) then Some(k) else None
  }

  ghost function EarliestAfter<H>(rows: Rows<H>, shard: Text, epoch: int): Option<Key> {
    if k :| IsEarliestAfter(rows, shard, epoch, k) then Some(k) else None
  }

  lemma LatestBeforeIs<H>(rows: Rows<H>, shard: Text, epoch: int, k: Key)
    requires IsLatestBefore(rows, shard, epoch, k)
    ensures LatestBefore(rows, shard, epoch) == Some(k)
  {
  }

  lemma LatestBeforeIsNone<H>(rows: Rows<H>, shard: Text, epoch: int)
    requires forall j | j in rows && j.shard == shard :: j.epoch >= epoch
    ensures LatestBefore(rows, shard, epoch) == None
  {
  }

  lemma EarliestAfterIs<H>(rows: Rows<H>, shard: Text, epoch: int, k: Key)
    requires IsEarliestAfter(rows, shard, epoch, k)
    ensures EarliestAfter(rows, shard, epoch) == Some(k)
  {
  }

  /** `WHERE shard = … AND epoch_start_ms < … ORDER BY epoch_start_ms DESC LIMIT 1`. */
  method QueryLatestBefore<H>(rows: Rows<H>, shard: Text, epoch: int) returns (r: Option<Key>)
    ensures r == LatestBefore(rows, shard, epoch)
    ensures r.Some? ==> IsLatestBefore(rows, shard, epoch, r.value)
    ensures r.None? ==> forall j | j in rows && j.shard == shard :: j.epoch >= epoch
  {
    r := None;
    var keys := rows.Keys;
    while keys != {}
      invariant keys <= rows.Keys
      invariant r.None? ==> forall j | j in rows.Keys - keys && j.shard == shard :: j.epoch >= epoch
      invariant r.Some? ==> IsLatestBefore(rows - keys, shard, epoch, r.value)
      decreases |keys|
    {
      var k :| k in keys;
      keys := keys - {k};
      if k.shard == shard && k.epoch < epoch && (r.None? || r.value.epoch < k.epoch) {
        r := Some(k);
      }
    }
    assert rows - {} == rows;
    if r.Some? { LatestBeforeIs(rows, shard, epoch, r.value); } else { LatestBeforeIsNone(rows, shard, epoch); }
  }

  /** `WHERE shard = … AND epoch_start_ms > … ORDER BY epoch_start_ms ASC LIMIT 1`. */
  method QueryEarliestAfter<H>(rows: Rows<H>, shard: Text, epoch: int) returns (r: Option<Key>)
    ensures r == EarliestAfter(rows, shard, epoch)
    ensures r.Some? ==> IsEarliestAfter(rows, shard, epoch, r.value)
    ensures r.None? ==> forall j | j in rows && j.shard == shard :: j.epoch <= epoch
  {
    r := None;
    var keys := rows.Keys;
    while keys != {}
      invariant keys <= rows.Keys
      invariant r.None? ==> forall j | j in rows.Keys - keys && j.shard == shard :: j.epoch <= epoch
      invariant r.Some? ==> IsEarliestAfter(rows - keys, shard, epoch, r.value)
      decreases |keys|
    {
      var k :| k in keys;
      keys := keys - {k};
      if k.shard == shard && k.epoch > epoch && (r.None? || k.epoch < r.value.epoch) {
        r := Some(k);
      }
    }
    assert rows - {} == rows;
    if r.Some? { EarliestAfterIs(rows, shard, epoch, r.value); }
  }

  /** Every query has an answer as soon as there is a candidate. */
  lemma LatestBeforeExists<H>(rows: Rows<H>, shard: Text, epoch: int)
    ensures match LatestBefore(rows, shard, epoch)
      case Some(k) => IsLatestBefore(rows, shard, epoch, k)
      case None => forall j | j in rows && j.shard == shard :: j.epoch >= epoch
  {
    if j :| j in rows && j.shard == shard && j.epoch < epoch {
      var k := LatestFrom(rows, shard, epoch, j, rows.Keys);
    }
  }

  lemma {:induction false} LatestFrom<H>(rows: Rows<H>, shard: Text, epoch: int, best: Key, open: set<Key>)
      returns (k: Key)
    requires open <= rows.Keys && best in rows && best.shard == shard && best.epoch < epoch
    requires forall j | j in rows && j !in open && j.shard == shard && j.epoch < epoch :: j.epoch <= best.epoch
    ensures IsLatestBefore(rows, shard, epoch, k)
    decreases |open|
  {
    if j :| j in open && j.shard == shard && best.epoch < j.epoch < epoch {
      k := LatestFrom(rows, shard, epoch, j, open - {j});
    } else {
      k := best;
    }
  }

  // ---------- The steps ----------

  /** What a new row must name as its predecessor. */
  ghost function PreviousHash<H>(zero: H, rows: Rows<H>, shard: Text, epoch: int): H {
    match LatestBefore(rows, shard, epoch)
    case Some(k) => if k in rows then rows[k].hash else zero
    case None => zero
  }

  /** `markCheckpointSettled`. */
  function SettleStep<H(==)>(hash: Body<H> -> H, rows: Rows<H>, c: Checkpoint<H>): (Rows<H>, Outcome<H>) {
    var key := KeyOf(c);
    if key !in rows then (rows, Failed(Missing))
    else if hash(rows[key].body) != hash(c.body) then (rows, Failed(IdentityMismatch))
    else (rows[key := rows[key].(settlementTx := c.settlementTx, settled := true)], Done(rows[key].hash))
  }

  /** `insertCheckpoint`. */
  ghost function InsertStep<H>(hash: Body<H> -> H, zero: H, rows: Rows<H>, c: Checkpoint<H>,
      settled: bool): (Rows<H>, Outcome<H>) {
    var key, h := KeyOf(c), hash(c.body);
    var next := EarliestAfter(rows, key.shard, key.epoch);
    if c.body.previous != PreviousHash(zero, rows, key.shard, key.epoch) then (rows, Failed(ChainBroken))
    else if next.Some? && next.value in rows && rows[next.value].body.previous != h then (rows, Failed(ChainBroken))
    else if key !in rows then
      if exists k | k in rows :: rows[k].hash == h then (rows, Failed(DuplicateHash))
      else (rows[key := RowOf(hash, c, settled)], Done(h))
    else if rows[key].hash != h then (rows, Failed(Conflict))
    else if Truthy(c.settlementTx) || settled then SettleStep(hash, rows, c)
    else (rows, Done(h))
  }

  class Repository<H(==)> {
    const hash: Body<H> -> H
    const zero: H
    var rows: Rows<H>

    constructor (hash: Body<H> -> H, zero: H)
      ensures this.hash == hash && this.zero == zero && rows == map[]
    {
      this.hash, this.zero, rows := hash, zero, map[];
    }

    method InsertCheckpoint(c: Checkpoint<H>, settled: bool) returns (r: Outcome<H>)
      modifies this
      ensures (rows, r) == InsertStep(hash, zero, old(rows), c, settled)
    {
      var key, h := KeyOf(c), hash(c.body);
      var previous := QueryLatestBefore(rows, key.shard, key.epoch);
      var expectedPrevious := if previous.Some? then rows[previous.value].hash else zero;
      if c.body.previous != expectedPrevious { return Failed(ChainBroken); }
      var next := QueryEarliestAfter(rows, key.shard, key.epoch);
      if next.Some? && rows[next.value].body.previous != h { return Failed(ChainBroken); }
      if key !in rows {
        if exists k | k in rows :: rows[k].hash == h { return Failed(DuplicateHash); }
        rows := rows[key := RowOf(hash, c, settled)];
        return Done(h);
      }
      if rows[key].hash != h { return Failed(Conflict); }
      if Truthy(c.settlementTx) || settled {
        r := MarkCheckpointSettled(c);
        return;
      }
      return Done(h);
    }

    method MarkCheckpointSettled(c: Checkpoint<H>) returns (r: Outcome<H>)
      modifies this
      ensures (rows, r) == SettleStep(hash, old(rows), c)
    {
      var key := KeyOf(c);
      if key !in rows { return Failed(Missing); }
      var row := rows[key];
      if hash(row.body) != hash(c.body) { return Failed(IdentityMismatch); }
      rows := rows[key := row.(settlementTx := c.settlementTx, settled := true)];
      return Done(row.hash);
    }
  }

  // ---------- What the steps decide ----------

  /** Settling succeeds exactly for a row with the same identity; it marks that row settled with the caller's
      transaction, and changes nothing else. */
  lemma SettleDecides<H>(hash: Body<H> -> H, rows: Rows<H>, c: Checkpoint<H>)
    ensures var key, (after, r) := KeyOf(c), SettleStep(hash, rows, c);
      && (r.Done? <==> key in rows && hash(rows[key].body) == hash(c.body))
      && (r == Failed(Missing) <==> key !in rows)
      && (r == Failed(IdentityMismatch) <==> key in rows && hash(rows[key].body) != hash(c.body))
      && (r.Failed? ==> after == rows)
      && (r.Done? ==>
            && r.hash == rows[key].hash && after.Keys == rows.Keys
            && after[key].settled && after[key].settlementTx == c.settlementTx
            && after[key].body == rows[key].body && after[key].hash == rows[key].hash
            && after[key].relaySignature == rows[key].relaySignature
            && forall k | k in rows && k != key :: after[k] == rows[k])
  {
  }

  /** The chain check, as a condition on neighbouring rows. */
  ghost predicate FitsBetween<H>(hash: Body<H> -> H, zero: H, rows: Rows<H>, c: Checkpoint<H>) {
    && c.body.previous == PreviousHash(zero, rows, c.body.shard, c.body.epochStart)
    && forall k | IsEarliestAfter(rows, c.body.shard, c.body.epochStart, k) :: rows[k].body.previous == hash(c.body)
  }

  ghost predicate HashTaken<H>(rows: Rows<H>, h: H) {
    exists k :: k in rows && rows[k].hash == h
  }

  /** Which inserts are refused and why, for the chain exactly if the row does not fit between its neighbours. What is
      refused changes nothing; a new row holds the checkpoint as given; an old one changes only by being settled. */
  lemma InsertDecides<H>(hash: Body<H> -> H, zero: H, rows: Rows<H>, c: Checkpoint<H>, settled: bool)
    ensures var key, (after, r) := KeyOf(c), InsertStep(hash, zero, rows, c, settled);
      && (r == Failed(ChainBroken) <==> !FitsBetween(hash, zero, rows, c))
      && (r == Failed(Conflict) <==>
            FitsBetween(hash, zero, rows, c) && key in rows && rows[key].hash != hash(c.body))
      && (r == Failed(DuplicateHash) <==>
            FitsBetween(hash, zero, rows, c) && key !in rows && HashTaken(rows, hash(c.body)))
      && (r.Failed? ==> after == rows)
      && (r.Done? && key !in rows ==>
            && after == rows[key := after[key]] && after[key].hash == hash(c.body) && after[key].body == c.body
            && after[key].relaySignature == c.relaySignature && after[key].settlementTx == c.settlementTx
            && after[key].settled == settled)
      && (r.Done? && key in rows && !Truthy(c.settlementTx) && !settled ==> after == rows)
      && (r.Done? && key in rows && (Truthy(c.settlementTx) || settled) ==> after == SettleStep(hash, rows, c).0)
  {
    hide PreviousHash, SettleStep;
    var key := KeyOf(c);
    forall k | IsEarliestAfter(rows, key.shard, key.epoch, k)
      ensures EarliestAfter(rows, key.shard, key.epoch) == Some(k)
    {
      EarliestAfterIs(rows, key.shard, key.epoch, k);
    }
    SettleDecides(hash, rows, c);
  }

  // ---------- What every step keeps ----------

  ghost predicate WellKeyed<H>(hash: Body<H> -> H, rows: Rows<H>) {
    forall k | k in rows :: k == Key(rows[k].body.epochStart, rows[k].body.shard) && rows[k].hash == hash(rows[k].body)
  }

  /** Every row names the hash of the shard's row before it, the first row zero. */
  ghost predicate RowsChained<H>(zero: H, rows: Rows<H>) {
    forall k | k in rows :: rows[k].body.previous == PreviousHash(zero, rows, k.shard, k.epoch)
  }

  ghost predicate Inv<H>(hash: Body<H> -> H, zero: H, rows: Rows<H>) {
    WellKeyed(hash, rows) && RowsChained(zero, rows)
  }

  /** Only the epochs and hashes of the rows decide what precedes what. */
  lemma PreviousHashSame<H>(zero: H, rows: Rows<H>, rows': Rows<H>, shard: Text, epoch: int)
    requires rows.Keys == rows'.Keys && forall k | k in rows :: rows[k].hash == rows'[k].hash
    ensures PreviousHash(zero, rows, shard, epoch) == PreviousHash(zero, rows', shard, epoch)
  {
    LatestBeforeExists(rows, shard, epoch);
    LatestBeforeExists(rows', shard, epoch);
    var a, b := LatestBefore(rows, shard, epoch), LatestBefore(rows', shard, epoch);
    if a.Some? {
      assert IsLatestBefore(rows', shard, epoch, a.value);
      LatestBeforeIs(rows', shard, epoch, a.value);
    } else {
      LatestBeforeIsNone(rows', shard, epoch);
    }
  }

  lemma SettleKeepsInv<H>(hash: Body<H> -> H, zero: H, rows: Rows<H>, c: Checkpoint<H>)
    requires Inv(hash, zero, rows)
    ensures Inv(hash, zero, SettleStep(hash, rows, c).0)
  {
    hide PreviousHash;
    var rows' := SettleStep(hash, rows, c).0;
    forall k | k in rows'
      ensures rows'[k].body.previous == PreviousHash(zero, rows', k.shard, k.epoch)
    {
      PreviousHashSame(zero, rows, rows', k.shard, k.epoch);
    }
  }

  /** After a row is added, a later row of the shard follows it if it was the next one, and what it
      followed before otherwise. */
  lemma PreviousHashAfterAdd<H>(zero: H, rows: Rows<H>, key: Key, row: Row<H>, k: Key)
    requires key !in rows && k in rows
    ensures var rows' := rows[key := row];
      PreviousHash(zero, rows', k.shard, k.epoch)
      == if IsEarliestAfter(rows, key.shard, key.epoch, k) then row.hash else PreviousHash(zero, rows, k.shard, k.epoch)
  {
    var rows' := rows[key := row];
    LatestBeforeExists(rows, k.shard, k.epoch);
    LatestBeforeExists(rows', k.shard, k.epoch);
    var before := LatestBefore(rows, k.shard, k.epoch);
    if IsEarliestAfter(rows, key.shard, key.epoch, k) {
      assert forall j | j in rows && j.shard == k.shard && j.epoch < k.epoch :: j.epoch <= key.epoch;
      LatestBeforeIs(rows', k.shard, k.epoch, key);
    } else if before.Some? {
      assert IsLatestBefore(rows', k.shard, k.epoch, before.value);
      LatestBeforeIs(rows', k.shard, k.epoch, before.value);
    } else {
      LatestBeforeIsNone(rows', k.shard, k.epoch);
    }
  }

  lemma PreviousHashOfAdded<H>(zero: H, rows: Rows<H>, key: Key, row: Row<H>)
    requires key !in rows
    ensures PreviousHash(zero, rows[key := row], key.shard, key.epoch) == PreviousHash(zero, rows, key.shard, key.epoch)
  {
    var rows' := rows[key := row];
    LatestBeforeExists(rows, key.shard, key.epoch);
    var before := LatestBefore(rows, key.shard, key.epoch);
    if before.Some? {
      assert IsLatestBefore(rows', key.shard, key.epoch, before.value);
      LatestBeforeIs(rows', key.shard, key.epoch, before.value);
    } else {
      LatestBeforeIsNone(rows', key.shard, key.epoch);
    }
  }

  lemma InsertKeepsInv<H>(hash: Body<H> -> H, zero: H, rows: Rows<H>, c: Checkpoint<H>, settled: bool)
    requires Inv(hash, zero, rows)
    ensures Inv(hash, zero, InsertStep(hash, zero, rows, c, settled).0)
  {
    hide PreviousHash;
    var key := KeyOf(c);
    var (rows', r) := InsertStep(hash, zero, rows, c, settled);
    if key in rows {
      SettleKeepsInv(hash, zero, rows, c);
    } else if r.Done? {
      var row := RowOf(hash, c, settled);
      PreviousHashOfAdded(zero, rows, key, row);
      forall k | k in rows
        ensures rows[k].body.previous == PreviousHash(zero, rows', k.shard, k.epoch)
      {
        PreviousHashAfterAdd(zero, rows, key, row, k);
        if IsEarliestAfter(rows, key.shard, key.epoch, k) { EarliestAfterIs(rows, key.shard, key.epoch, k); }
      }
    }
  }

  // ---------- Runs ----------

  datatype Call<H> = InsertCall(checkpoint: Checkpoint<H>, settled: bool) | SettleCall(checkpoint: Checkpoint<H>)

  ghost function Apply<H>(hash: Body<H> -> H, zero: H, rows: Rows<H>, call: Call<H>): Rows<H> {
    match call
    case InsertCall(c, settled) => InsertStep(hash, zero, rows, c, settled).0
    case SettleCall(c) => SettleStep(hash, rows, c).0
  }

  /** The table after a run of calls on an empty one. */
  ghost function Run<H>(hash: Body<H> -> H, zero: H, calls: seq<Call<H>>): Rows<H> {
    if calls == [] then map[] else Apply(hash, zero, Run(hash, zero, calls[..|calls| - 1]), calls[|calls| - 1])
  }

  lemma {:induction false} RunKeepsInv<H>(hash: Body<H> -> H, zero: H, calls: seq<Call<H>>)
    ensures Inv(hash, zero, Run(hash, zero, calls))
  {
    if calls != [] {
      var before := Run(hash, zero, calls[..|calls| - 1]);
      RunKeepsInv(hash, zero, calls[..|calls| - 1]);
      match calls[|calls| - 1]
      case InsertCall(c, settled) => InsertKeepsInv(hash, zero, before, c, settled);
      case SettleCall(c) => SettleKeepsInv(hash, zero, before, c);
    }
  }

  /** With a later row in the shard, a new checkpoint would have to hash like that row's predecessor. */
  lemma NoInsertBefore<H>(hash: Body<H> -> H, zero: H, rows: Rows<H>, c: Checkpoint<H>, settled: bool, later: Key)
    requires Inv(hash, zero, rows) && hash(c.body) != zero
    requires KeyOf(c) !in rows && later in rows && later.shard == c.body.shard && later.epoch > c.body.epochStart
    ensures InsertStep(hash, zero, rows, c, settled).1.Failed?
  {
    var key := KeyOf(c);
    var next := EarliestAfterExists(rows, key.shard, key.epoch, later, rows.Keys);
    EarliestAfterIs(rows, key.shard, key.epoch, next);
    LatestBeforeExists(rows, next.shard, next.epoch);
  }

  lemma {:induction false} EarliestAfterExists<H>(rows: Rows<H>, shard: Text, epoch: int, best: Key, open: set<Key>)
      returns (k: Key)
    requires open <= rows.Keys && best in rows && best.shard == shard && best.epoch > epoch
    requires forall j | j in rows && j !in open && j.shard == shard && j.epoch > epoch :: best.epoch <= j.epoch
    ensures IsEarliestAfter(rows, shard, epoch, k)
    decreases |open|
  {
    if j :| j in open && j.shard == shard && epoch < j.epoch < best.epoch {
      k := EarliestAfterExists(rows, shard, epoch, j, open - {j});
    } else {
      k := best;
    }
  }

  /** An accepted insert is an append after the shard's latest epoch, or repeats a row whose hash, and
      so whose body, it matches. */
  lemma AcceptedInsert<H>(hash: Body<H> -> H, zero: H, rows: Rows<H>, c: Checkpoint<H>, settled: bool)
    requires Inv(hash, zero, rows)
    requires InsertStep(hash, zero, rows, c, settled).1.Done?
    requires hash(c.body) != zero
    ensures KeyOf(c) !in rows ==> forall j | j in rows && j.shard == c.body.shard :: j.epoch < c.body.epochStart
    ensures KeyOf(c) in rows ==> rows[KeyOf(c)].hash == hash(c.body)
    ensures KeyOf(c) in rows && CollisionFree(hash, zero, {rows[KeyOf(c)].body, c.body}) ==>
        rows[KeyOf(c)].body == c.body
  {
    var key := KeyOf(c);
    if key !in rows {
      forall j | j in rows && j.shard == key.shard ensures j.epoch < key.epoch {
        if j.epoch > key.epoch {
          NoInsertBefore(hash, zero, rows, c, settled, j);
        }
      }
    }
  }

  // ---------- A shard's rows in order ----------

  ghost function KeysUpTo<H>(rows: Rows<H>, shard: Text, upTo: int): set<Key> {
    set k | k in rows && k.shard == shard && k.epoch <= upTo
  }

  /** `WHERE shard = … AND epoch_start_ms <= … ORDER BY epoch_start_ms ASC`. */
  ghost function ShardRows<H>(rows: Rows<H>, shard: Text, upTo: int): seq<Row<H>>
    decreases |KeysUpTo(rows, shard, upTo)|
  {
    LatestBeforeExists(rows, shard, upTo + 1);
    match LatestBefore(rows, shard, upTo + 1)
    case None => []
    case Some(k) =>
      assert KeysUpTo(rows, shard, k.epoch - 1) < KeysUpTo(rows, shard, upTo) by {
        assert k in KeysUpTo(rows, shard, upTo);
      }
      SubsetIsSmaller(KeysUpTo(rows, shard, k.epoch - 1), KeysUpTo(rows, shard, upTo));
      ShardRows(rows, shard, k.epoch - 1) + [rows[k]]
  }

  lemma SubsetIsSmaller(a: set<Key>, b: set<Key>)
    requires a < b
    ensures |a| < |b|
  {
    assert b == a + (b - a);
  }

  ghost function RowBodies<H>(rows: seq<Row<H>>): seq<Body<H>> {
    seq(|rows|, i requires 0 <= i < |rows| => rows[i].body)
  }

  /** The rows listed are the shard's rows up to the epoch: all of them and no others. */
  lemma {:induction false} ShardRowsExact<H>(rows: Rows<H>, shard: Text, upTo: int, row: Row<H>)
    ensures row in ShardRows(rows, shard, upTo) <==> exists k :: IsRowUpTo(rows, shard, upTo, k, row)
    decreases |KeysUpTo(rows, shard, upTo)|
  {
    hide ShardRows, KeysUpTo;
    LatestBeforeExists(rows, shard, upTo + 1);
    match LatestBefore(rows, shard, upTo + 1)
    case None => ShardRowsNone(rows, shard, upTo);
    case Some(last) =>
      ShardRowsTop(rows, shard, upTo, last);
      ShardRowsExact(rows, shard, last.epoch - 1, row);
      var newest := rows[last];
      assert IsRowUpTo(rows, shard, upTo, last, newest);
      if row in ShardRows(rows, shard, last.epoch - 1) {
        var k :| IsRowUpTo(rows, shard, last.epoch - 1, k, row);
        assert IsRowUpTo(rows, shard, upTo, k, row);
      }
      if k :| IsRowUpTo(rows, shard, upTo, k, row) {
        if k == last {
          assert row == newest;
        } else {
          assert IsRowUpTo(rows, shard, last.epoch - 1, k, row);
        }
      }
  }

  ghost predicate IsRowUpTo<H>(rows: Rows<H>, shard: Text, upTo: int, k: Key, row: Row<H>) {
    k in rows && k.shard == shard && k.epoch <= upTo && rows[k] == row
  }

  /** A list of one shard's rows that is a hash chain from zero. */
  ghost predicate IsShardChain<H>(hash: Body<H> -> H, zero: H, shard: Text, upTo: int, list: seq<Row<H>>) {
    && Chained(hash, RowBodies(list))
    && (forall i | 0 <= i < |list| ::
          list[i].hash == hash(list[i].body) && list[i].body.shard == shard && list[i].body.epochStart <= upTo)
    && (list != [] ==> list[0].body.previous == zero)
  }

  /** The shard's rows in epoch order are a hash chain from zero. */
  lemma {:induction false} ShardRowsChained<H>(hash: Body<H> -> H, zero: H, rows: Rows<H>, shard: Text, upTo: int)
    requires Inv(hash, zero, rows)
    ensures IsShardChain(hash, zero, shard, upTo, ShardRows(rows, shard, upTo))
    decreases |KeysUpTo(rows, shard, upTo)|
  {
    hide ShardRows, IsShardChain, Inv, KeysUpTo;
    LatestBeforeExists(rows, shard, upTo + 1);
    match LatestBefore(rows, shard, upTo + 1)
    case None =>
      ShardRowsNone(rows, shard, upTo);
      NoRowsChain(hash, zero, shard, upTo);
    case Some(k) =>
      ShardRowsTop(rows, shard, upTo, k);
      ShardRowsChained(hash, zero, rows, shard, k.epoch - 1);
      LastOfShardRows(zero, rows, shard, k.epoch - 1);
      ShardChainGrows(hash, zero, rows, shard, upTo, k, ShardRows(rows, shard, k.epoch - 1));
  }

  lemma NoRowsChain<H>(hash: Body<H> -> H, zero: H, shard: Text, upTo: int)
    ensures IsShardChain(hash, zero, shard, upTo, [])
  {
  }

  lemma ShardChainGrows<H>(hash: Body<H> -> H, zero: H, rows: Rows<H>, shard: Text, upTo: int, k: Key,
      list: seq<Row<H>>)
    requires Inv(hash, zero, rows) && k in rows && k.shard == shard && k.epoch <= upTo
    requires IsShardChain(hash, zero, shard, k.epoch - 1, list)
    requires PreviousHash(zero, rows, shard, k.epoch) == if list == [] then zero else list[|list| - 1].hash
    ensures IsShardChain(hash, zero, shard, upTo, list + [rows[k]])
  {
    hide PreviousHash, Chained;
    ChainGrows(hash, zero, list, rows[k]);
  }

  /** The last row listed is the one that decides what a later row must name. */
  lemma LastOfShardRows<H>(zero: H, rows: Rows<H>, shard: Text, upTo: int)
    ensures var list := ShardRows(rows, shard, upTo);
      PreviousHash(zero, rows, shard, upTo + 1) == if list == [] then zero else list[|list| - 1].hash
  {
    LatestBeforeExists(rows, shard, upTo + 1);
  }

  lemma ChainGrows<H>(hash: Body<H> -> H, zero: H, list: seq<Row<H>>, row: Row<H>)
    requires Chained(hash, RowBodies(list))
    requires list == [] ==> row.body.previous == zero
    requires list != [] ==>
      var last := list[|list| - 1];
      row.body.previous == hash(last.body) && last.body.epochStart < row.body.epochStart
    ensures Chained(hash, RowBodies(list + [row]))
  {
    var a, b := RowBodies(list), RowBodies(list + [row]);
    assert b == a + [row.body];
    forall i | 0 < i < |b| ensures ChainedAt(hash, b, i) {
      assert i < |a| ==> ChainedAt(hash, a, i);
    }
  }

  function CheckpointOf<H>(row: Row<H>): Checkpoint<H> {
    Checkpoint(row.body, None, row.settlementTx, row.relaySignature)
  }

  ghost function CheckpointsOf<H>(list: seq<Row<H>>): seq<Checkpoint<H>> {
    seq(|list|, i requires 0 <= i < |list| => CheckpointOf(list[i]))
  }

  /** One link for each row: its hash, the hash it names and its epoch. */
  ghost function LinksOf<H>(list: seq<Row<H>>): seq<Link<H>> {
    seq(|list|, i requires 0 <= i < |list| => Link(list[i].hash, list[i].body.previous, list[i].body.epochStart))
  }

  method ListShardRows<H>(rows: Rows<H>, shard: Text, upTo: int) returns (cs: seq<Checkpoint<H>>)
    ensures cs == CheckpointsOf(ShardRows(rows, shard, upTo))
  {
    hide ShardRows;
    cs := [];
    var bound := upTo;
    ghost var after := [];
    var k := QueryLatestBefore(rows, shard, bound + 1);
    while k.Some?
      invariant k == LatestBefore(rows, shard, bound + 1)
      invariant k.Some? ==> IsLatestBefore(rows, shard, bound + 1, k.value)
      invariant ShardRows(rows, shard, upTo) == ShardRows(rows, shard, bound) + after
      invariant cs == CheckpointsOf(after)
      decreases |KeysUpTo(rows, shard, bound)|
    {
      ShardRowsTop(rows, shard, bound, k.value);
      cs := [CheckpointOf(rows[k.value])] + cs;
      after := [rows[k.value]] + after;
      bound := k.value.epoch - 1;
      k := QueryLatestBefore(rows, shard, bound + 1);
    }
    ShardRowsNone(rows, shard, bound);
  }

  lemma ShardRowsTop<H>(rows: Rows<H>, shard: Text, upTo: int, k: Key)
    requires IsLatestBefore(rows, shard, upTo + 1, k)
    ensures ShardRows(rows, shard, upTo) == ShardRows(rows, shard, k.epoch - 1) + [rows[k]]
    ensures |KeysUpTo(rows, shard, k.epoch - 1)| < |KeysUpTo(rows, shard, upTo)|
  {
    LatestBeforeIs(rows, shard, upTo + 1, k);
    assert k in KeysUpTo(rows, shard, upTo);
    SubsetIsSmaller(KeysUpTo(rows, shard, k.epoch - 1), KeysUpTo(rows, shard, upTo));
  }

  lemma ShardRowsNone<H>(rows: Rows<H>, shard: Text, upTo: int)
    requires LatestBefore(rows, shard, upTo + 1) == None
    ensures ShardRows(rows, shard, upTo) == []
  {
  }

  /** With two or more rows, the proof read out of the table is accepted. */
  method BuildConsistencyProofFor<H(==)>(hash: Body<H> -> H, ghost zero: H, rows: Rows<H>, upTo: int, shard: Text)
    returns (r: Option<Proof<H>>)
    requires Inv(hash, zero, rows)
    ensures r.Some? <==> |ShardRows(rows, shard, upTo)| >= 2
    ensures r.Some? ==>
      var list := ShardRows(rows, shard, upTo);
      && Accepts(r.value)
      && r.value.shard == shard
      && r.value.from == list[0].hash && r.value.to == list[|list| - 1].hash
      && r.value.chain == LinksOf(list)
  {
    var cs := ListShardRows(rows, shard, upTo);
    if |cs| < 2 { return None; }
    ShardRowsChained(hash, zero, rows, shard, upTo);
    ListedProof(hash, zero, upTo, shard, ShardRows(rows, shard, upTo));
    var built := BuildProof(hash, cs);
    return Some(built.value);
  }

  lemma ListedProof<H>(hash: Body<H> -> H, zero: H, upTo: int, shard: Text, list: seq<Row<H>>)
    requires IsShardChain(hash, zero, shard, upTo, list) && |list| >= 2
    ensures var built := BuildProof(hash, CheckpointsOf(list));
      && built.Ok? && Accepts(built.value)
      && built.value.shard == shard
      && built.value.from == list[0].hash && built.value.to == list[|list| - 1].hash
      && built.value.chain == LinksOf(list)
  {
    hide Chained, Accepts, Sorting.StableSort;
    var cs := CheckpointsOf(list);
    ChainIsSorted(hash, cs, RowBodies(list));
    Sorting.SortOfSorted(Epoch, cs);
    assert Bodies(cs) == RowBodies(list);
    assert BuildProof(hash, cs).Ok?;
    BuiltProofAccepted(hash, cs);
  }

  lemma {:induction false} ChainIsSorted<H>(hash: Body<H> -> H, cs: seq<Checkpoint<H>>, bodies: seq<Body<H>>)
    requires Chained(hash, bodies) && |cs| == |bodies| && forall i | 0 <= i < |cs| :: cs[i].body == bodies[i]
    ensures Sorting.SortedBy(Epoch, cs)
  {
    forall i, j | 0 <= i < j < |cs| ensures Epoch(cs[i]) <= Epoch(cs[j]) {
      ChainIncreases(hash, bodies, i, j);
    }
  }

  lemma {:induction false} ChainIncreases<H>(hash: Body<H> -> H, bodies: seq<Body<H>>, i: nat, j: nat)
    requires Chained(hash, bodies) && i < j < |bodies|
    ensures bodies[i].epochStart < bodies[j].epochStart
  {
    assert ChainedAt(hash, bodies, j);
    if i < j - 1 { ChainIncreases(hash, bodies, i, j - 1); }
  }

  /** Two repositories whose last listed checkpoints of a shard have the same hash hold the same
      checkpoints of that shard up to there, apart from the fields the hash leaves out. */
  lemma RepositoriesAgree<H>(hash: Body<H> -> H, zero: H, rows: Rows<H>, rows': Rows<H>, shard: Text, upTo: int,
      upTo': int)
    requires Inv(hash, zero, rows) && Inv(hash, zero, rows')
    requires var a, b := ShardRows(rows, shard, upTo), ShardRows(rows', shard, upTo');
      && a != [] && b != [] && a[|a| - 1].hash == b[|b| - 1].hash
      && CollisionFree(hash, zero, Members(RowBodies(a)) + Members(RowBodies(b)))
    ensures RowBodies(ShardRows(rows, shard, upTo)) == RowBodies(ShardRows(rows', shard, upTo'))
  {
    hide ShardRows, IsShardChain, Inv, CollisionFree, Members;
    ShardRowsChained(hash, zero, rows, shard, upTo);
    ShardRowsChained(hash, zero, rows', shard, upTo');
    ListsAgree(hash, zero, shard, upTo, upTo', ShardRows(rows, shard, upTo), ShardRows(rows', shard, upTo'));
  }

  lemma ListsAgree<H>(hash: Body<H> -> H, zero: H, shard: Text, upTo: int, upTo': int, a: seq<Row<H>>, b: seq<Row<H>>)
    requires IsShardChain(hash, zero, shard, upTo, a) && IsShardChain(hash, zero, shard, upTo', b)
    requires a != [] && b != [] && a[|a| - 1].hash == b[|b| - 1].hash
    requires CollisionFree(hash, zero, Members(RowBodies(a)) + Members(RowBodies(b)))
    ensures RowBodies(a) == RowBodies(b)
  {
    hide Chained, CollisionFree, Members;
    RootedChainsEqual(hash, zero, RowBodies(a), RowBodies(b));
  }
}
