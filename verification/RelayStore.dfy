/** The in-memory relay: events and other log objects by segment (epoch and shard), nonces already
    seen, segments closed by a settled checkpoint, and the checkpoints themselves.

    Code between awaits is one step. `acceptEvent` awaits once, after its first checks; and
    `submitCheckpoint` awaits the settlement backend once. */
module RelayStore {
  import opened Wrappers
  import opened Text
  import opened Sorting
  import M = MerkleLog
  import C = Consistency

  datatype Segment = Segment(epoch: int, shard: Text)

  /** Sender, key id and nonce joined by colons. */
  type NonceKey = Text

  /** An accepted log object; for an event, `nonceKey` is the nonce it used up. */
  datatype Entry<H> = Entry(commitment: H, segment: Segment, logIndex: nat, nonceKey: Option<NonceKey>)

  datatype Settled<H> = Settled(key: Segment, checkpoint: C.Checkpoint<H>)

  /** A `Map` keyed by commitment is the sequence of its entries in insertion order. */
  datatype Store<H> = Store(
    events: seq<Entry<H>>,
    receipts: seq<Entry<H>>,
    attestations: seq<Entry<H>>,
    revocations: seq<Entry<H>>,
    nonces: set<NonceKey>,
    settled: seq<Settled<H>>,
    closed: map<Segment, seq<H>>)

  datatype Config<!H> = Config(
    merkle: M.Query<H> -> H, bodyHash: C.Body<H> -> H, zero: H,
    relayId: Text, epochDuration: int, window: int,
    backend: Option<Option<Text>>, sign: C.Body<H> -> Text, shardOf: Text -> Text)

  ghost predicate ValidConfig<H>(cfg: Config<H>) {
    cfg.epochDuration > 0
  }

  /** An incoming event; `time` is its parsed timestamp, `commitment` what verification computes. */
  datatype Event<H> = Event(commitment: H, sender: Text, keyId: Text, nonce: Text, time: Option<int>, schemaValid: bool)

  datatype Kind = Receipt | Attestation | Revocation

  datatype Error =
    | SchemaInvalid | TimestampInvalid | TimestampOutOfWindow | NonceReplay | SignatureInvalid
    | SegmentClosed | BackendMissing | CheckpointConflict

  // ---------- Ordered maps ----------

  function IndexOf<H(==)>(entries: seq<Entry<H>>, commitment: H): (i: nat)
    ensures i <= |entries|
    ensures i < |entries| ==> entries[i].commitment == commitment
    ensures forall j | 0 <= j < i :: entries[j].commitment != commitment
  {
    if entries == [] || entries[0].commitment == commitment then 0 else 1 + IndexOf(entries[1..], commitment)
  }

  /** `Map.set`: replaces in place, or appends. */
  function Put<H(==)>(entries: seq<Entry<H>>, entry: Entry<H>): seq<Entry<H>> {
    var i := IndexOf(entries, entry.commitment);
    if i < |entries| then entries[i := entry] else entries + [entry]
  }

  function InSegment<H>(entries: seq<Entry<H>>, segment: Segment): (r: seq<Entry<H>>)
    ensures forall e | e in r :: e in entries && e.segment == segment
  {
    if entries == [] then [] else
      var last := entries[|entries| - 1];
      InSegment(entries[..|entries| - 1], segment) + if last.segment == segment then [last] else []
  }

  function LogIndex<H>(e: Entry<H>): int {
    e.logIndex
  }

  /** `eventsFor` and `objectsFor`: one segment's entries by log index. */
  function EntriesFor<H>(entries: seq<Entry<H>>, segment: Segment): seq<Entry<H>> {
    StableSort(LogIndex, InSegment(entries, segment))
  }

  function Commitments<H>(entries: seq<Entry<H>>): (r: seq<H>)
    ensures |r| == |entries|
  {
    seq(|entries|, i requires 0 <= i < |entries| => entries[i].commitment)
  }

  function SettledIndex<H>(settled: seq<Settled<H>>, key: Segment): (i: nat)
    ensures i <= |settled|
    ensures i < |settled| ==> settled[i].key == key
    ensures forall j | 0 <= j < i :: settled[j].key != key
  {
    if settled == [] || settled[0].key == key then 0 else 1 + SettledIndex(settled[1..], key)
  }

  function GetSettled<H>(settled: seq<Settled<H>>, key: Segment): Option<C.Checkpoint<H>> {
    var i := SettledIndex(settled, key);
    if i < |settled| then Some(settled[i].checkpoint) else None
  }

  function PutSettled<H>(settled: seq<Settled<H>>, key: Segment, c: C.Checkpoint<H>): seq<Settled<H>> {
    var i := SettledIndex(settled, key);
    if i < |settled| then settled[i := Settled(key, c)] else settled + [Settled(key, c)]
  }

  // ---------- Queries ----------

  function SegmentOf<H>(cfg: Config<H>, time: int, owner: Text): Segment
    requires ValidConfig(cfg)
  {
    Segment(time / cfg.epochDuration * cfg.epochDuration, cfg.shardOf(owner))
  }

  function Earlier<H>(settled: seq<Settled<H>>, segment: Segment): seq<C.Checkpoint<H>> {
    if settled == [] then [] else
      var c := settled[|settled| - 1].checkpoint;
      Earlier(settled[..|settled| - 1], segment) +
      if c.body.shard == segment.shard && c.body.epochStart < segment.epoch then [c] else []
  }

  function NewestFirst<H>(c: C.Checkpoint<H>): int {
    -c.body.epochStart
  }

  function PreviousCheckpointHash<H>(cfg: Config<H>, settled: seq<Settled<H>>, segment: Segment): H {
    var newestFirst := StableSort(NewestFirst, Earlier(settled, segment));
    if newestFirst == [] then cfg.zero else cfg.bodyHash(newestFirst[0].body)
  }

  ghost function EntriesRoot<H>(cfg: Config<H>, entries: seq<Entry<H>>, segment: Segment): H {
    M.Root(cfg.merkle, cfg.zero, Commitments(EntriesFor(entries, segment)))
  }

  /** The checkpoint body an open segment would get now. */
  ghost function OpenBody<H>(cfg: Config<H>, s: Store<H>, segment: Segment): C.Body<H> {
    C.Body(
      segment.epoch, cfg.epochDuration, segment.shard,
      EntriesRoot(cfg, s.events, segment), EntriesRoot(cfg, s.receipts, segment),
      EntriesRoot(cfg, s.attestations, segment), EntriesRoot(cfg, s.revocations, segment),
      |EntriesFor(s.events, segment)|, |EntriesFor(s.receipts, segment)|,
      PreviousCheckpointHash(cfg, s.settled, segment),
      if cfg.backend.Some? && cfg.backend.value.Some? && cfg.backend.value.value != [] then cfg.backend.value else None,
      cfg.relayId)
  }

  ghost function CheckpointOf<H>(cfg: Config<H>, s: Store<H>, segment: Segment): C.Checkpoint<H> {
    match GetSettled(s.settled, segment)
    case Some(c) => c
    case None =>
      var body := OpenBody(cfg, s, segment);
      C.Checkpoint(body, Some(cfg.bodyHash(body)), None, cfg.sign(body))
  }

  // ---------- Steps ----------

  const COLON: CodeUnit := 0x3a

  function NonceOf<H>(e: Event<H>): NonceKey {
    e.sender + [COLON] + e.keyId + [COLON] + e.nonce
  }

  /** What `acceptEvent` checks before it awaits verification. */
  function BeforeVerification<H>(cfg: Config<H>, s: Store<H>, e: Event<H>, now: int): Option<Error> {
    if !e.schemaValid then Some(SchemaInvalid)
    else if e.time.None? then Some(TimestampInvalid)
    else if now - e.time.value > cfg.window || e.time.value - now > cfg.window then Some(TimestampOutOfWindow)
    else if NonceOf(e) in s.nonces then Some(NonceReplay)
    else None
  }

  /** What `acceptEvent` does once verification has answered. */
  function AfterVerification<H(==)>(cfg: Config<H>, s: Store<H>, e: Event<H>, verified: bool)
      : (Store<H>, Result<Entry<H>, Error>)
    requires ValidConfig(cfg) && e.time.Some?
  {
    var segment := SegmentOf(cfg, e.time.value, e.sender);
    if !verified then (s, Err(SignatureInvalid))
    else if segment in s.closed then (s, Err(SegmentClosed))
    else
      var entry := Entry(e.commitment, segment, |EntriesFor(s.events, segment)|, Some(NonceOf(e)));
      (s.(nonces := s.nonces + {NonceOf(e)}, events := Put(s.events, entry)), Ok(entry))
  }

  function Objects<H>(s: Store<H>, kind: Kind): seq<Entry<H>> {
    match kind
    case Receipt => s.receipts
    case Attestation => s.attestations
    case Revocation => s.revocations
  }

  function WithObjects<H>(s: Store<H>, kind: Kind, entries: seq<Entry<H>>): Store<H> {
    match kind
    case Receipt => s.(receipts := entries)
    case Attestation => s.(attestations := entries)
    case Revocation => s.(revocations := entries)
  }

  /** `acceptReceipt`, `acceptAttestation` and `acceptRevocation`. */
  function AcceptObject<H(==)>(cfg: Config<H>, s: Store<H>, kind: Kind, commitment: H, time: int, owner: Text)
      : (Store<H>, Result<Entry<H>, Error>)
    requires ValidConfig(cfg)
  {
    var segment := SegmentOf(cfg, time, owner);
    if segment in s.closed then (s, Err(SegmentClosed))
    else
      var entry := Entry(commitment, segment, |EntriesFor(Objects(s, kind), segment)|, None);
      (WithObjects(s, kind, Put(Objects(s, kind), entry)), Ok(entry))
  }

  /** What `submitCheckpoint` does once the backend has answered. */
  function AfterSettlement<H(==)>(cfg: Config<H>, s: Store<H>, segment: Segment, reply: C.Checkpoint<H>)
      : (Store<H>, Result<C.Checkpoint<H>, Error>)
  {
    var existing := GetSettled(s.settled, segment);
    if existing.Some? && C.CheckpointHash(cfg.bodyHash, existing.value) != C.CheckpointHash(cfg.bodyHash, reply) then
      (s, Err(CheckpointConflict))
    else
      (s.(closed := s.closed[segment := Commitments(EntriesFor(s.events, segment))],
          settled := PutSettled(s.settled, segment, reply)), Ok(reply))
  }

  // ---------- Interleavings ----------

  /** The store together with the calls that are waiting at their await. */
  datatype System<H> = System(store: Store<H>, accepting: seq<Event<H>>, submitting: seq<Pending<H>>)

  /** A checkpoint sent to the backend, and the segment it was sent for. */
  datatype Pending<H> = Pending(segment: Segment, sent: C.Checkpoint<H>)

  /** One atomic stretch of code: a call up to its await, or from its await to its end. Which waiting
      call resumes, what verification says and what the backend replies are arbitrary. */
  datatype Action<H> =
    | BeginAccept(event: Event<H>, now: int)
    | ResumeAccept(call: nat, verified: bool)
    | AddObject(kind: Kind, commitment: H, time: int, owner: Text)
    | BeginSubmit(segment: Segment)
    | ResumeSubmit(call: nat, reply: Option<C.Checkpoint<H>>)

  function EmptyStore<H>(): Store<H> {
    Store([], [], [], [], {}, [], map[])
  }

  function Without<T>(s: seq<T>, i: nat): (r: seq<T>)
    requires i < |s|
    ensures forall x | x in r :: x in s
  {
    s[..i] + s[i + 1..]
  }

  ghost function Execute<H>(cfg: Config<H>, sys: System<H>, a: Action<H>): System<H>
    requires ValidConfig(cfg) && forall e | e in sys.accepting :: e.time.Some?
  {
    match a
    case BeginAccept(event, now) =>
      if BeforeVerification(cfg, sys.store, event, now).Some? then sys
      else sys.(accepting := sys.accepting + [event])
    case ResumeAccept(call, verified) =>
      if call >= |sys.accepting| then sys else
        sys.(store := AfterVerification(cfg, sys.store, sys.accepting[call], verified).0,
             accepting := Without(sys.accepting, call))
    case AddObject(kind, commitment, time, owner) =>
      sys.(store := AcceptObject(cfg, sys.store, kind, commitment, time, owner).0)
    case BeginSubmit(segment) =>
      if cfg.backend.None? then sys
      else sys.(submitting := sys.submitting + [Pending(segment, CheckpointOf(cfg, sys.store, segment))])
    case ResumeSubmit(call, reply) =>
      if call >= |sys.submitting| then sys
      else if reply.None? then sys.(submitting := Without(sys.submitting, call))
      else sys.(store := AfterSettlement(cfg, sys.store, sys.submitting[call].segment, reply.value).0,
                submitting := Without(sys.submitting, call))
  }

  /** Collision-free hashing, as far as the relay relies on it: a commitment determines its segment.
      `home` is that segment for every commitment that occurs in the run. */
  ghost predicate Homed<H>(cfg: Config<H>, home: H -> Segment, a: Action<H>)
    requires ValidConfig(cfg)
  {
    match a
    case BeginAccept(e, _) => EventHomed(cfg, home, e)
    case AddObject(_, commitment, time, owner) => home(commitment) == SegmentOf(cfg, time, owner)
    case _ => true
  }

  ghost predicate EventHomed<H>(cfg: Config<H>, home: H -> Segment, e: Event<H>)
    requires ValidConfig(cfg)
  {
    e.time.Some? ==> home(e.commitment) == SegmentOf(cfg, e.time.value, e.sender)
  }

  ghost predicate EntriesHomed<H>(home: H -> Segment, entries: seq<Entry<H>>) {
    forall e | e in entries :: home(e.commitment) == e.segment
  }

  /** Closed and settled segments coincide, and a closed segment's recorded commitments are the
      commitments of its events. */
  ghost predicate StoreInv<H>(home: H -> Segment, s: Store<H>) {
    && EntriesHomed(home, s.events) && EntriesHomed(home, s.receipts)
    && EntriesHomed(home, s.attestations) && EntriesHomed(home, s.revocations)
    && (forall k :: k in s.closed <==> GetSettled(s.settled, k).Some?)
    && (forall k | k in s.closed :: s.closed[k] == Commitments(EntriesFor(s.events, k)))
  }

  ghost predicate Inv<H>(cfg: Config<H>, home: H -> Segment, sys: System<H>)
    requires ValidConfig(cfg)
  {
    && StoreInv(home, sys.store)
    && forall e | e in sys.accepting :: e.time.Some? && EventHomed(cfg, home, e)
  }

  /** Segment `k` is closed before and after, holds the same log objects, and keeps its checkpoint's
      identity hash. */
  ghost predicate Frozen<H>(cfg: Config<H>, s: Store<H>, t: Store<H>, k: Segment) {
    && k in s.closed && k in t.closed && s.closed[k] == t.closed[k]
    && InSegment(s.events, k) == InSegment(t.events, k)
    && InSegment(s.receipts, k) == InSegment(t.receipts, k)
    && InSegment(s.attestations, k) == InSegment(t.attestations, k)
    && InSegment(s.revocations, k) == InSegment(t.revocations, k)
    && GetSettled(s.settled, k).Some? && GetSettled(t.settled, k).Some?
    && C.CheckpointHash(cfg.bodyHash, GetSettled(s.settled, k).value) ==
        C.CheckpointHash(cfg.bodyHash, GetSettled(t.settled, k).value)
  }

  lemma InSegmentLast<H>(entries: seq<Entry<H>>, k: Segment)
    requires entries != []
    ensures var last := entries[|entries| - 1];
      InSegment(entries, k) == InSegment(entries[..|entries| - 1], k) + if last.segment == k then [last] else []
  {
  }

  lemma {:induction false} UpdateElsewhere<H>(entries: seq<Entry<H>>, i: nat, entry: Entry<H>, k: Segment)
    requires i < |entries| && entries[i].segment != k && entry.segment != k
    ensures InSegment(entries[i := entry], k) == InSegment(entries, k)
  {
    hide InSegment;
    var n := |entries| - 1;
    var updated := entries[i := entry];
    InSegmentLast(entries, k);
    InSegmentLast(updated, k);
    if i == n {
      assert updated[..n] == entries[..n];
    } else {
      var rest := entries[..n];
      UpdateElsewhere(rest, i, entry, k);
      assert updated[..n] == rest[i := entry];
    }
  }

  lemma {:induction false} ReplaceKeepsCount<H>(entries: seq<Entry<H>>, i: nat, entry: Entry<H>, k: Segment)
    requires i < |entries| && entry.segment == k && entries[i].segment == k
    ensures |InSegment(entries[i := entry], k)| == |InSegment(entries, k)|
  {
    hide InSegment;
    var n := |entries| - 1;
    var updated := entries[i := entry];
    InSegmentLast(entries, k);
    InSegmentLast(updated, k);
    if i == n {
      assert updated[..n] == entries[..n];
    } else {
      var rest := entries[..n];
      ReplaceKeepsCount(rest, i, entry, k);
      assert updated[..n] == rest[i := entry];
    }
  }

  /** Setting an entry touches no segment but its own. */
  lemma PutElsewhere<H>(home: H -> Segment, entries: seq<Entry<H>>, entry: Entry<H>, k: Segment)
    requires EntriesHomed(home, entries) && home(entry.commitment) == entry.segment
    ensures EntriesHomed(home, Put(entries, entry))
    ensures entry.segment != k ==> InSegment(Put(entries, entry), k) == InSegment(entries, k)
  {
    var i := IndexOf(entries, entry.commitment);
    if i < |entries| {
      if entry.segment != k { UpdateElsewhere(entries, i, entry, k); }
    } else {
      assert (entries + [entry])[..|entries|] == entries;
    }
  }

  lemma {:induction false} SettledPutGet<H>(settled: seq<Settled<H>>, key: Segment, c: C.Checkpoint<H>, k: Segment)
    ensures GetSettled(PutSettled(settled, key, c), k) == if k == key then Some(c) else GetSettled(settled, k)
  {
    var after := PutSettled(settled, key, c);
    var i, j := SettledIndex(settled, k), SettledIndex(after, k);
    if k == key {
      SettledIndexUnique(after, k, if i < |settled| then i else |settled|);
    } else if i < |settled| {
      SettledIndexUnique(after, k, i);
    } else {
      assert forall n | 0 <= n < |after| :: after[n].key != k;
    }
  }

  lemma SettledIndexUnique<H>(settled: seq<Settled<H>>, key: Segment, i: nat)
    requires i < |settled| && settled[i].key == key && forall j | 0 <= j < i :: settled[j].key != key
    ensures SettledIndex(settled, key) == i
  {
  }

  /** Entries added outside the closed segments disturb nothing. */
  lemma GrownKeeps<H>(cfg: Config<H>, home: H -> Segment, s: Store<H>, t: Store<H>)
    requires StoreInv(home, s) && t.settled == s.settled && t.closed == s.closed
    requires EntriesHomed(home, t.events) && EntriesHomed(home, t.receipts)
    requires EntriesHomed(home, t.attestations) && EntriesHomed(home, t.revocations)
    requires forall k | k in s.closed ::
      && InSegment(t.events, k) == InSegment(s.events, k)
      && InSegment(t.receipts, k) == InSegment(s.receipts, k)
      && InSegment(t.attestations, k) == InSegment(s.attestations, k)
      && InSegment(t.revocations, k) == InSegment(s.revocations, k)
    ensures StoreInv(home, t) && forall k | k in s.closed :: Frozen(cfg, s, t, k)
  {
    hide InSegment, GetSettled, StableSort, EntriesHomed;
  }

  lemma AcceptKeeps<H>(cfg: Config<H>, home: H -> Segment, s: Store<H>, e: Event<H>, verified: bool)
    requires ValidConfig(cfg) && StoreInv(home, s) && e.time.Some? && EventHomed(cfg, home, e)
    ensures var t := AfterVerification(cfg, s, e, verified).0;
      StoreInv(home, t) && forall k | k in s.closed :: Frozen(cfg, s, t, k)
  {
    hide InSegment, Put, GetSettled, EntriesFor, EntriesHomed, SegmentOf, NonceOf, Frozen, ValidConfig;
    var segment := SegmentOf(cfg, e.time.value, e.sender);
    var entry := Entry(e.commitment, segment, |EntriesFor(s.events, segment)|, Some(NonceOf(e)));
    PutElsewhere(home, s.events, entry, segment);
    forall k | k in s.closed && segment !in s.closed
      ensures InSegment(Put(s.events, entry), k) == InSegment(s.events, k)
    {
      PutElsewhere(home, s.events, entry, k);
    }
    GrownKeeps(cfg, home, s, AfterVerification(cfg, s, e, verified).0);
  }

  lemma ObjectKeeps<H>(cfg: Config<H>, home: H -> Segment, s: Store<H>, kind: Kind, commitment: H, time: int,
      owner: Text)
    requires ValidConfig(cfg) && StoreInv(home, s) && home(commitment) == SegmentOf(cfg, time, owner)
    ensures var t := AcceptObject(cfg, s, kind, commitment, time, owner).0;
      StoreInv(home, t) && forall k | k in s.closed :: Frozen(cfg, s, t, k)
  {
    hide InSegment, Put, GetSettled, EntriesFor, EntriesHomed, SegmentOf, Frozen, ValidConfig;
    var segment, objects := SegmentOf(cfg, time, owner), Objects(s, kind);
    var entry := Entry(commitment, segment, |EntriesFor(objects, segment)|, None);
    PutElsewhere(home, objects, entry, segment);
    forall k | k in s.closed && segment !in s.closed
      ensures InSegment(Put(objects, entry), k) == InSegment(objects, k)
    {
      PutElsewhere(home, objects, entry, k);
    }
    GrownKeeps(cfg, home, s, AcceptObject(cfg, s, kind, commitment, time, owner).0);
  }

  lemma SettleKeeps<H>(cfg: Config<H>, home: H -> Segment, s: Store<H>, segment: Segment, reply: C.Checkpoint<H>)
    requires StoreInv(home, s)
    ensures var t := AfterSettlement(cfg, s, segment, reply).0;
      StoreInv(home, t) && forall k | k in s.closed :: Frozen(cfg, s, t, k)
  {
    hide InSegment, GetSettled, PutSettled, EntriesFor;
    forall k
      ensures GetSettled(PutSettled(s.settled, segment, reply), k) == if k == segment then Some(reply)
          else GetSettled(s.settled, k)
    {
      SettledPutGet(s.settled, segment, reply, k);
    }
  }

  /** Every step keeps the invariant and leaves every closed segment as it was. */
  lemma StepKeeps<H>(cfg: Config<H>, home: H -> Segment, sys: System<H>, a: Action<H>)
    requires ValidConfig(cfg) && Inv(cfg, home, sys) && Homed(cfg, home, a)
    ensures Inv(cfg, home, Execute(cfg, sys, a))
    ensures forall k | k in sys.store.closed :: Frozen(cfg, sys.store, Execute(cfg, sys, a).store, k)
  {
    hide InSegment, AfterVerification, AcceptObject, AfterSettlement, GetSettled, StoreInv, EventHomed;
    StaysFrozen(cfg, home, sys.store);
    match a
    case BeginAccept(_, _) =>
    case ResumeAccept(call, verified) =>
      if call < |sys.accepting| { AcceptKeeps(cfg, home, sys.store, sys.accepting[call], verified); }
    case AddObject(kind, commitment, time, owner) => ObjectKeeps(cfg, home, sys.store, kind, commitment, time, owner);
    case BeginSubmit(_) =>
    case ResumeSubmit(call, reply) =>
      if call < |sys.submitting| && reply.Some? {
        SettleKeeps(cfg, home, sys.store, sys.submitting[call].segment, reply.value);
      }
  }

  lemma StaysFrozen<H>(cfg: Config<H>, home: H -> Segment, s: Store<H>)
    requires StoreInv(home, s)
    ensures forall k | k in s.closed :: Frozen(cfg, s, s, k)
  {
  }

  /** The system after a run of actions. */
  ghost function RunFrom<H>(cfg: Config<H>, home: H -> Segment, sys: System<H>, actions: seq<Action<H>>): (r: System<H>)
    requires ValidConfig(cfg) && Inv(cfg, home, sys) && forall a | a in actions :: Homed(cfg, home, a)
    ensures Inv(cfg, home, r)
    decreases |actions|
  {
    if actions == [] then sys else
      StepKeeps(cfg, home, sys, actions[0]);
      RunFrom(cfg, home, Execute(cfg, sys, actions[0]), actions[1..])
  }

  /** Under every interleaving and every reply: once closed, a segment's events, receipts, attestations
      and revocations never change again, and its checkpoint's identity hash is written once. */
  lemma {:induction false} ClosedSegmentsAreFinal<H>(cfg: Config<H>, home: H -> Segment, sys: System<H>,
      actions: seq<Action<H>>)
    requires ValidConfig(cfg) && Inv(cfg, home, sys) && forall a | a in actions :: Homed(cfg, home, a)
    ensures forall k | k in sys.store.closed :: Frozen(cfg, sys.store, RunFrom(cfg, home, sys, actions).store, k)
    decreases |actions|
  {
    hide Frozen, Execute, StoreInv, EventHomed;
    if actions == [] {
      StaysFrozenIn(cfg, home, sys);
    } else {
      StepKeeps(cfg, home, sys, actions[0]);
      var next := Execute(cfg, sys, actions[0]);
      ClosedSegmentsAreFinal(cfg, home, next, actions[1..]);
      var end := RunFrom(cfg, home, next, actions[1..]);
      forall k | k in sys.store.closed ensures Frozen(cfg, sys.store, end.store, k) {
        FrozenTransitive(cfg, sys.store, next.store, end.store, k);
      }
    }
  }

  lemma StaysFrozenIn<H>(cfg: Config<H>, home: H -> Segment, sys: System<H>)
    requires ValidConfig(cfg) && Inv(cfg, home, sys)
    ensures forall k | k in sys.store.closed :: Frozen(cfg, sys.store, sys.store, k)
  {
    StaysFrozen(cfg, home, sys.store);
  }

  lemma FrozenTransitive<H>(cfg: Config<H>, s: Store<H>, t: Store<H>, u: Store<H>, k: Segment)
    requires Frozen(cfg, s, t, k) && (k in t.closed ==> Frozen(cfg, t, u, k))
    ensures Frozen(cfg, s, u, k)
  {
  }

  lemma EmptyInv<H>(cfg: Config<H>, home: H -> Segment)
    requires ValidConfig(cfg)
    ensures Inv(cfg, home, System(EmptyStore(), [], []))
  {
  }

  // ---------- Calls one after another ----------

  /** A whole call that ends before the next begins. The backend changes only the settlement
      transaction and the identity hash, or fails. */
  datatype Call<H> =
    | AcceptCall(event: Event<H>, now: int, verified: bool)
    | ObjectCall(kind: Kind, commitment: H, time: int, owner: Text)
    | SubmitCall(segment: Segment, tx: Option<Text>, identity: Option<H>, answered: bool)

  ghost function ReplyTo<H>(c: C.Checkpoint<H>, tx: Option<Text>, identity: Option<H>): C.Checkpoint<H> {
    c.(settlementTx := tx, identityHash := identity)
  }

  ghost function Perform<H>(cfg: Config<H>, s: Store<H>, call: Call<H>): Store<H>
    requires ValidConfig(cfg)
  {
    match call
    case AcceptCall(e, now, verified) =>
      if BeforeVerification(cfg, s, e, now).Some? then s else AfterVerification(cfg, s, e, verified).0
    case ObjectCall(kind, commitment, time, owner) => AcceptObject(cfg, s, kind, commitment, time, owner).0
    case SubmitCall(segment, tx, identity, answered) =>
      if cfg.backend.None? || !answered then s
      else AfterSettlement(cfg, s, segment, ReplyTo(CheckpointOf(cfg, s, segment), tx, identity)).0
  }

  ghost function PerformAll<H>(cfg: Config<H>, calls: seq<Call<H>>): Store<H>
    requires ValidConfig(cfg)
  {
    if calls == [] then EmptyStore()
    else Perform(cfg, PerformAll(cfg, calls[..|calls| - 1]), calls[|calls| - 1])
  }

  /** Collision-free hashing again: a commitment determines its event, and so its nonce key. */
  ghost predicate NonceFixed<H>(nonceOf: H -> NonceKey, call: Call<H>) {
    call.AcceptCall? ==> nonceOf(call.event.commitment) == NonceOf(call.event)
  }

  /** Every event used up its own nonce, and no nonce was used up otherwise. */
  ghost predicate NoncesUsed<H>(nonceOf: H -> NonceKey, s: Store<H>) {
    && (forall n | n in s.nonces :: exists e | e in s.events :: nonceOf(e.commitment) == n)
    && (forall e | e in s.events :: e.nonceKey == Some(nonceOf(e.commitment)) && nonceOf(e.commitment) in s.nonces)
    && (forall i, j | 0 <= i < j < |s.events| :: s.events[i].nonceKey != s.events[j].nonceKey)
  }

  /** Each segment's log indexes are 0, 1, 2, … in order of acceptance. */
  ghost predicate Consecutive<H>(entries: seq<Entry<H>>) {
    forall i | 0 <= i < |entries| :: entries[i].logIndex == i
  }

  ghost predicate SegmentsNumbered<H>(s: Store<H>) {
    forall k: Segment :: Consecutive(InSegment(s.events, k))
  }

  /** Settled checkpoints are those of their segments and carry the root of the events they closed. */
  ghost predicate RootsRecorded<H>(cfg: Config<H>, s: Store<H>) {
    && (forall k :: k in s.closed <==> GetSettled(s.settled, k).Some?)
    && (forall k | k in s.closed :: s.closed[k] == Commitments(EntriesFor(s.events, k)))
    && (forall k | k in s.closed ::
          && GetSettled(s.settled, k).value.body.eventRoot == M.Root(cfg.merkle, cfg.zero, s.closed[k])
          && IsFor(cfg, GetSettled(s.settled, k).value.body, k))
  }

  /** A checkpoint's epoch, duration and shard are those of the segment. */
  ghost predicate IsFor<H>(cfg: Config<H>, body: C.Body<H>, segment: Segment) {
    body.epochStart == segment.epoch && body.epochDuration == cfg.epochDuration && body.shard == segment.shard
  }

  ghost predicate SerialInv<H>(cfg: Config<H>, nonceOf: H -> NonceKey, s: Store<H>) {
    NoncesUsed(nonceOf, s) && SegmentsNumbered(s) && RootsRecorded(cfg, s)
  }

  lemma ConsecutiveIsSorted<H>(entries: seq<Entry<H>>)
    requires Consecutive(entries)
    ensures StableSort(LogIndex, entries) == entries
  {
    SortOfSorted(LogIndex, entries);
  }

  lemma AppendInSegment<H>(entries: seq<Entry<H>>, entry: Entry<H>, k: Segment)
    ensures InSegment(entries + [entry], k) == InSegment(entries, k) + if entry.segment == k then [entry] else []
  {
    assert (entries + [entry])[..|entries|] == entries;
  }

  /** A new event is appended: its commitment cannot be there already. */
  lemma EventIsAppended<H>(nonceOf: H -> NonceKey, s: Store<H>, entry: Entry<H>)
    requires NoncesUsed(nonceOf, s) && nonceOf(entry.commitment) !in s.nonces
    ensures Put(s.events, entry) == s.events + [entry]
  {
    var i := IndexOf(s.events, entry.commitment);
    assert forall e | e in s.events :: e.commitment != entry.commitment;
  }

  lemma AppendKeepsNonces<H>(nonceOf: H -> NonceKey, s: Store<H>, entry: Entry<H>)
    requires NoncesUsed(nonceOf, s)
    requires nonceOf(entry.commitment) !in s.nonces && entry.nonceKey == Some(nonceOf(entry.commitment))
    ensures NoncesUsed(nonceOf, s.(events := s.events + [entry], nonces := s.nonces + {nonceOf(entry.commitment)}))
  {
    assert forall i | 0 <= i < |s.events| :: s.events[i] in s.events;
    var events := s.events + [entry];
    assert entry in events && forall e | e in s.events :: e in events;
  }

  lemma AppendKeepsNumbering<H>(s: Store<H>, t: Store<H>, entry: Entry<H>)
    requires SegmentsNumbered(s) && t.events == s.events + [entry]
    requires entry.logIndex == |InSegment(s.events, entry.segment)|
    ensures SegmentsNumbered(t)
  {
    hide InSegment;
    forall k: Segment ensures Consecutive(InSegment(t.events, k)) {
      AppendInSegment(s.events, entry, k);
      assert Consecutive(InSegment(s.events, k));
    }
  }

  lemma AppendKeepsRoots<H>(cfg: Config<H>, s: Store<H>, t: Store<H>, entry: Entry<H>)
    requires RootsRecorded(cfg, s) && t.events == s.events + [entry] && t.settled == s.settled && t.closed == s.closed
    requires entry.segment !in s.closed
    ensures RootsRecorded(cfg, t)
  {
    hide InSegment, GetSettled, StableSort, M.Root;
    forall k | k in s.closed ensures InSegment(t.events, k) == InSegment(s.events, k) {
      AppendInSegment(s.events, entry, k);
    }
  }

  /** An accept with a fresh nonce. */
  lemma FreshAcceptKeeps<H>(cfg: Config<H>, nonceOf: H -> NonceKey, s: Store<H>, e: Event<H>, verified: bool)
    requires ValidConfig(cfg) && SerialInv(cfg, nonceOf, s) && nonceOf(e.commitment) == NonceOf(e)
    requires e.time.Some? && NonceOf(e) !in s.nonces
    ensures SerialInv(cfg, nonceOf, AfterVerification(cfg, s, e, verified).0)
  {
    hide InSegment, Put, StableSort, NoncesUsed, RootsRecorded, Consecutive;
    var segment := SegmentOf(cfg, e.time.value, e.sender);
    var t := AfterVerification(cfg, s, e, verified).0;
    if verified && segment !in s.closed {
      var entry := Entry(e.commitment, segment, |EntriesFor(s.events, segment)|, Some(NonceOf(e)));
      assert Consecutive(InSegment(s.events, segment));
      ConsecutiveIsSorted(InSegment(s.events, segment));
      EventIsAppended(nonceOf, s, entry);
      AppendKeepsNonces(nonceOf, s, entry);
      AppendKeepsNumbering(s, t, entry);
      AppendKeepsRoots(cfg, s, t, entry);
    }
  }

  lemma ObjectCallKeeps<H>(cfg: Config<H>, nonceOf: H -> NonceKey, s: Store<H>, kind: Kind, commitment: H, time: int,
      owner: Text)
    requires ValidConfig(cfg) && SerialInv(cfg, nonceOf, s)
    ensures SerialInv(cfg, nonceOf, AcceptObject(cfg, s, kind, commitment, time, owner).0)
  {
    hide Put, EntriesFor, NoncesUsed, RootsRecorded, SegmentsNumbered;
    var t := AcceptObject(cfg, s, kind, commitment, time, owner).0;
    NumberingSame(nonceOf, s, t);
    RootsSame(cfg, s, t);
  }

  lemma RootsSame<H>(cfg: Config<H>, s: Store<H>, t: Store<H>)
    requires s.events == t.events && s.settled == t.settled && s.closed == t.closed
    ensures RootsRecorded(cfg, s) == RootsRecorded(cfg, t)
  {
  }

  /** The reply carries the root of the segment's current events, and the segment's header. */
  ghost predicate IsCurrent<H>(cfg: Config<H>, s: Store<H>, segment: Segment, body: C.Body<H>) {
    && body.eventRoot == M.Root(cfg.merkle, cfg.zero, Commitments(EntriesFor(s.events, segment)))
    && IsFor(cfg, body, segment)
  }

  lemma CurrentReplyKeeps<H>(cfg: Config<H>, nonceOf: H -> NonceKey, s: Store<H>, segment: Segment,
      reply: C.Checkpoint<H>)
    requires SerialInv(cfg, nonceOf, s) && IsCurrent(cfg, s, segment, reply.body)
    ensures SerialInv(cfg, nonceOf, AfterSettlement(cfg, s, segment, reply).0)
  {
    hide InSegment, GetSettled, PutSettled, EntriesFor, M.Root, NoncesUsed, SegmentsNumbered;
    forall k
      ensures GetSettled(PutSettled(s.settled, segment, reply), k) == if k == segment then Some(reply)
          else GetSettled(s.settled, k)
    {
      SettledPutGet(s.settled, segment, reply, k);
    }
    NumberingSame(nonceOf, s, AfterSettlement(cfg, s, segment, reply).0);
  }

  lemma SubmitCallKeeps<H>(cfg: Config<H>, nonceOf: H -> NonceKey, s: Store<H>, segment: Segment, tx: Option<Text>,
      identity: Option<H>)
    requires SerialInv(cfg, nonceOf, s)
    ensures var reply := ReplyTo(CheckpointOf(cfg, s, segment), tx, identity);
      SerialInv(cfg, nonceOf, AfterSettlement(cfg, s, segment, reply).0)
  {
    hide AfterSettlement, CheckpointOf, NoncesUsed, SegmentsNumbered, RootsRecorded, IsFor, M.Root, EntriesFor;
    SubmittedRoot(cfg, s, segment);
    CurrentReplyKeeps(cfg, nonceOf, s, segment, ReplyTo(CheckpointOf(cfg, s, segment), tx, identity));
  }

  lemma NumberingSame<H>(nonceOf: H -> NonceKey, s: Store<H>, t: Store<H>)
    requires s.events == t.events && s.nonces == t.nonces
    ensures NoncesUsed(nonceOf, s) == NoncesUsed(nonceOf, t) && SegmentsNumbered(s) == SegmentsNumbered(t)
  {
  }

  /** The checkpoint submitted for a segment carries the root of the segment's events. */
  lemma SubmittedRoot<H>(cfg: Config<H>, s: Store<H>, segment: Segment)
    requires RootsRecorded(cfg, s)
    ensures CheckpointOf(cfg, s, segment).body.eventRoot
         == M.Root(cfg.merkle, cfg.zero, Commitments(EntriesFor(s.events, segment)))
    ensures IsFor(cfg, CheckpointOf(cfg, s, segment).body, segment)
  {
    hide M.Root, EntriesFor, GetSettled, PreviousCheckpointHash;
  }

  lemma CallKeeps<H>(cfg: Config<H>, nonceOf: H -> NonceKey, s: Store<H>, call: Call<H>)
    requires ValidConfig(cfg) && NonceFixed(nonceOf, call) && SerialInv(cfg, nonceOf, s)
    ensures SerialInv(cfg, nonceOf, Perform(cfg, s, call))
  {
    hide SerialInv, AfterVerification, AcceptObject, AfterSettlement, CheckpointOf, NonceOf;
    match call
    case AcceptCall(e, now, verified) =>
      if BeforeVerification(cfg, s, e, now).None? { FreshAcceptKeeps(cfg, nonceOf, s, e, verified); }
    case ObjectCall(kind, commitment, time, owner) => ObjectCallKeeps(cfg, nonceOf, s, kind, commitment, time, owner);
    case SubmitCall(segment, tx, identity, answered) => SubmitCallKeeps(cfg, nonceOf, s, segment, tx, identity);
  }

  /** In every run of whole calls, segments are numbered 0 to n-1, no nonce key is used twice, and every
      settled checkpoint has the root of the events it closed. */
  lemma {:induction false} SerialRunsKeepInv<H>(cfg: Config<H>, nonceOf: H -> NonceKey, calls: seq<Call<H>>)
    requires ValidConfig(cfg) && forall c | c in calls :: NonceFixed(nonceOf, c)
    ensures SerialInv(cfg, nonceOf, PerformAll(cfg, calls))
  {
    hide SerialInv, Perform, NonceFixed;
    if calls != [] {
      var n := |calls| - 1;
      SerialRunsKeepInv(cfg, nonceOf, calls[..n]);
      assert NonceFixed(nonceOf, calls[n]);
      CallKeeps(cfg, nonceOf, PerformAll(cfg, calls[..n]), calls[n]);
    } else {
      EmptySerialInv(cfg, nonceOf);
    }
  }

  lemma EmptySerialInv<H>(cfg: Config<H>, nonceOf: H -> NonceKey)
    ensures SerialInv(cfg, nonceOf, EmptyStore())
  {
  }

  // ---------- Proofs ----------

  lemma {:induction false} EntryInSegment<H>(entries: seq<Entry<H>>, i: nat)
    requires i < |entries|
    ensures entries[i] in InSegment(entries, entries[i].segment)
  {
    var n := |entries| - 1;
    if i < n {
      EntryInSegment(entries[..n], i);
      assert entries[..n][i] == entries[i];
    }
  }

  /** An accepted event stands in its segment's list at its log index. */
  lemma EventAtLogIndex<H>(s: Store<H>, i: nat)
    requires SegmentsNumbered(s) && i < |s.events|
    ensures var e := s.events[i]; var list := Commitments(EntriesFor(s.events, e.segment));
      e.logIndex < |list| && list[e.logIndex] == e.commitment
  {
    hide InSegment, StableSort;
    var e := s.events[i];
    var list := InSegment(s.events, e.segment);
    EntryInSegment(s.events, i);
    assert Consecutive(list);
    ConsecutiveIsSorted(list);
    var j :| 0 <= j < |list| && list[j] == e;
  }

  /** A proof with the header it is sent with, and the checkpoint. */
  datatype ProofResult<H> =
    | NoEvent
    | Thrown
    | Proven(proof: M.Proof<H>, segment: Segment, epochDuration: int, checkpointHash: H, checkpoint: C.Checkpoint<H>)

  class InMemoryRelayStore<H(==)> {
    const cfg: Config<H>
    var events: seq<Entry<H>>
    var receipts: seq<Entry<H>>
    var attestations: seq<Entry<H>>
    var revocations: seq<Entry<H>>
    var nonces: set<NonceKey>
    var settledCheckpoints: seq<Settled<H>>
    var closedSegments: map<Segment, seq<H>>

    ghost function View(): Store<H>
      reads this
    {
      Store(events, receipts, attestations, revocations, nonces, settledCheckpoints, closedSegments)
    }

    constructor (cfg: Config<H>)
      ensures this.cfg == cfg && View() == EmptyStore()
    {
      this.cfg := cfg;
      events, receipts, attestations, revocations := [], [], [], [];
      nonces, settledCheckpoints, closedSegments := {}, [], map[];
    }

    /** `acceptEvent` up to its await; nothing changes. */
    method BeginAcceptEvent(e: Event<H>, now: int) returns (refused: Option<Error>)
      ensures refused == BeforeVerification(cfg, View(), e, now)
    {
      if !e.schemaValid { return Some(SchemaInvalid); }
      if e.time.None? { return Some(TimestampInvalid); }
      var distance := if now >= e.time.value then now - e.time.value else e.time.value - now;
      if distance > cfg.window { return Some(TimestampOutOfWindow); }
      if NonceOf(e) in nonces { return Some(NonceReplay); }
      return None;
    }

    /** `acceptEvent` from its await on. */
    method FinishAcceptEvent(e: Event<H>, verified: bool) returns (r: Result<Entry<H>, Error>)
      requires ValidConfig(cfg) && e.time.Some?
      modifies this`events, this`nonces
      ensures (View(), r) == AfterVerification(cfg, old(View()), e, verified)
    {
      if !verified { return Err(SignatureInvalid); }
      var segment := SegmentOf(cfg, e.time.value, e.sender);
      if segment in closedSegments { return Err(SegmentClosed); }
      var logIndex := |EntriesFor(events, segment)|;
      var accepted := Entry(e.commitment, segment, logIndex, Some(NonceOf(e)));
      nonces := nonces + {NonceOf(e)};
      events := Put(events, accepted);
      return Ok(accepted);
    }

    method AcceptLogObject(kind: Kind, commitment: H, time: int, owner: Text) returns (r: Result<Entry<H>, Error>)
      requires ValidConfig(cfg)
      modifies this`receipts, this`attestations, this`revocations
      ensures (View(), r) == AcceptObject(cfg, old(View()), kind, commitment, time, owner)
    {
      var segment := SegmentOf(cfg, time, owner);
      if segment in closedSegments { return Err(SegmentClosed); }
      var objects := match kind
        case Receipt => receipts
        case Attestation => attestations
        case Revocation => revocations;
      var accepted := Entry(commitment, segment, |EntriesFor(objects, segment)|, None);
      match kind {
        case Receipt => receipts := Put(receipts, accepted);
        case Attestation => attestations := Put(attestations, accepted);
        case Revocation => revocations := Put(revocations, accepted);
      }
      return Ok(accepted);
    }

    method CheckpointFor(segment: Segment) returns (c: C.Checkpoint<H>)
      ensures c == CheckpointOf(cfg, View(), segment)
    {
      var settled := GetSettled(settledCheckpoints, segment);
      if settled.Some? { return settled.value; }
      var commitments := Commitments(EntriesFor(events, segment));
      var receiptCommitments := Commitments(EntriesFor(receipts, segment));
      var eventTree := M.BuildMerkleTree(cfg.merkle, cfg.zero, commitments);
      var receiptTree := M.BuildMerkleTree(cfg.merkle, cfg.zero, receiptCommitments);
      var attestationTree := M.BuildMerkleTree(cfg.merkle, cfg.zero, Commitments(EntriesFor(attestations, segment)));
      var revocationTree := M.BuildMerkleTree(cfg.merkle, cfg.zero, Commitments(EntriesFor(revocations, segment)));
      var backend := if cfg.backend.Some? && cfg.backend.value.Some? &&
          cfg.backend.value.value != [] then cfg.backend.value else None;
      var body := C.Body(
        segment.epoch, cfg.epochDuration, segment.shard,
        eventTree.root, receiptTree.root, attestationTree.root, revocationTree.root,
        |commitments|, |receiptCommitments|,
        PreviousCheckpointHash(cfg, settledCheckpoints, segment), backend, cfg.relayId);
      c := C.Checkpoint(body, Some(cfg.bodyHash(body)), None, cfg.sign(body));
    }

    /** `submitCheckpoint` from its await on. */
    method FinishSubmitCheckpoint(segment: Segment, reply: C.Checkpoint<H>) returns (r: Result<C.Checkpoint<H>, Error>)
      modifies this`closedSegments, this`settledCheckpoints
      ensures (View(), r) == AfterSettlement(cfg, old(View()), segment, reply)
    {
      var existing := GetSettled(settledCheckpoints, segment);
      if existing.Some? && C.CheckpointHash(cfg.bodyHash, existing.value) != C.CheckpointHash(cfg.bodyHash, reply) {
        return Err(CheckpointConflict);
      }
      closedSegments := closedSegments[segment := Commitments(EntriesFor(events, segment))];
      settledCheckpoints := PutSettled(settledCheckpoints, segment, reply);
      return Ok(reply);
    }

    /** In every state that runs of whole calls reach, an accepted event has a proof that verifies,
        against the event root of the checkpoint returned with it, open or settled. */
    method ProofFor(commitment: H, ghost nonceOf: H -> NonceKey) returns (r: ProofResult<H>)
      ensures r.NoEvent? <==> forall e | e in events :: e.commitment != commitment
      ensures SerialInv(cfg, nonceOf, View()) ==> !r.Thrown?
      ensures SerialInv(cfg, nonceOf, View()) && r.Proven? ==>
        && M.Accepts(cfg.merkle, r.proof)
        && r.proof.commitment == commitment
        && r.proof.root == r.checkpoint.body.eventRoot
        && (exists e | e in events ::
              e.commitment == commitment && r.proof.leafIndex == e.logIndex && r.segment == e.segment)
        && r.checkpoint == CheckpointOf(cfg, View(), r.segment)
        && IsFor(cfg, r.checkpoint.body, r.segment) && r.epochDuration == cfg.epochDuration
        && r.checkpointHash == C.CheckpointHash(cfg.bodyHash, r.checkpoint)
    {
      var i := IndexOf(events, commitment);
      if i == |events| { return NoEvent; }
      var accepted := events[i];
      var segment := accepted.segment;
      var commitments := if segment in closedSegments then closedSegments[segment]
          else Commitments(EntriesFor(events, segment));
      var checkpoint := CheckpointFor(segment);
      var proof := M.BuildInclusionProof(cfg.merkle, cfg.zero, commitments, accepted.logIndex);
      if SerialInv(cfg, nonceOf, View()) {
        ProofMatches(cfg, nonceOf, View(), i);
        M.BuiltProofsVerify(cfg.merkle, cfg.zero, commitments, accepted.logIndex);
      }
      if proof.None? { return Thrown; }
      r := Proven(proof.value, segment, cfg.epochDuration, C.CheckpointHash(cfg.bodyHash, checkpoint), checkpoint);
    }
  }

  /** The commitments `proofFor` builds its tree from. */
  ghost function ListFor<H>(s: Store<H>, segment: Segment): seq<H> {
    if segment in s.closed then s.closed[segment] else Commitments(EntriesFor(s.events, segment))
  }

  lemma ProofMatches<H>(cfg: Config<H>, nonceOf: H -> NonceKey, s: Store<H>, i: nat)
    requires SerialInv(cfg, nonceOf, s) && i < |s.events|
    ensures var e := s.events[i];
      var list := ListFor(s, e.segment);
      && e.logIndex < |list| && list[e.logIndex] == e.commitment
      && CheckpointOf(cfg, s, e.segment).body.eventRoot == M.Root(cfg.merkle, cfg.zero, list)
      && IsFor(cfg, CheckpointOf(cfg, s, e.segment).body, e.segment)
  {
    hide EntriesFor, M.Root, CheckpointOf;
    EventAtLogIndex(s, i);
    SubmittedRoot(cfg, s, s.events[i].segment);
  }
}
