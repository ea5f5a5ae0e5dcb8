/** Receipts, attestations and revocations in the relay's log: what accepting one does to the checkpoint its
    segment would get, and that it can be proven against it. */
module RelayObjects {
  import opened Wrappers
  import opened Text
  import opened RelayStore
  import Bps
  import Sorting
  import M = MerkleLog
  import C = Consistency

  /** The commitments of one segment, in the order of the log. */
  ghost function ListOf<H>(entries: seq<Entry<H>>, k: Segment): (r: seq<H>)
    ensures |r| == |InSegment(entries, k)|
  {
    Sorting.SortKeepsMembers(LogIndex, InSegment(entries, k));
    Commitments(EntriesFor(entries, k))
  }

  ghost function RootOfKind<H>(body: C.Body<H>, kind: Kind): H {
    match kind
    case Receipt => body.receiptRoot
    case Attestation => body.attestationRoot
    case Revocation => body.revocationRoot
  }

  ghost predicate IsOpen<H>(s: Store<H>, k: Segment) {
    k !in s.closed && GetSettled(s.settled, k).None?
  }

  /** The checkpoint of an open segment: a root for each of its four lists, the counts of two of them, and what the
      relay says of itself. */
  lemma OpenCheckpoint<H>(cfg: Config<H>, s: Store<H>, k: Segment)
    requires IsOpen(s, k)
    ensures var c := CheckpointOf(cfg, s, k);
      && c.body.epochStart == k.epoch && c.body.epochDuration == cfg.epochDuration && c.body.shard == k.shard
      && c.body.eventRoot == M.Root(cfg.merkle, cfg.zero, ListOf(s.events, k))
      && c.body.receiptRoot == M.Root(cfg.merkle, cfg.zero, ListOf(s.receipts, k))
      && c.body.attestationRoot == M.Root(cfg.merkle, cfg.zero, ListOf(s.attestations, k))
      && c.body.revocationRoot == M.Root(cfg.merkle, cfg.zero, ListOf(s.revocations, k))
      && c.body.eventCount == |InSegment(s.events, k)| && c.body.receiptCount == |InSegment(s.receipts, k)|
      && c.body.relayId == cfg.relayId
      && c.identityHash == Some(cfg.bodyHash(c.body)) && c.settlementTx == None && c.relaySignature == cfg.sign(c.body)
  {
    hide M.Root, InSegment, PreviousCheckpointHash, Sorting.StableSort;
    Sorting.SortKeepsMembers(LogIndex, InSegment(s.events, k));
    Sorting.SortKeepsMembers(LogIndex, InSegment(s.receipts, k));
  }

  /** A commitment occurs in no segment but this one. */
  ghost predicate OnlyIn<H>(entries: seq<Entry<H>>, commitment: H, k: Segment) {
    forall e | e in entries && e.commitment == commitment :: e.segment == k
  }

  ghost predicate IsNew<H>(entries: seq<Entry<H>>, commitment: H) {
    forall e | e in entries :: e.commitment != commitment
  }

  /** Setting an entry makes its segment's list longer by one, or not at all if the commitment was there. */
  lemma PutCounts<H>(entries: seq<Entry<H>>, entry: Entry<H>)
    requires OnlyIn(entries, entry.commitment, entry.segment)
    ensures |InSegment(Put(entries, entry), entry.segment)|
         == |InSegment(entries, entry.segment)| + if IsNew(entries, entry.commitment) then 1 else 0
  {
    hide InSegment;
    var i := IndexOf(entries, entry.commitment);
    if i < |entries| {
      assert entries[i] in entries;
      ReplaceKeepsCount(entries, i, entry, entry.segment);
    } else {
      assert IsNew(entries, entry.commitment);
      AppendInSegment(entries, entry, entry.segment);
    }
  }

  /** Accepting an object leaves the other roots and the event count as they were, and adds one to the receipt count
      exactly for a new receipt. */
  lemma ObjectChangesItsRoot<H>(cfg: Config<H>, s: Store<H>, kind: Kind, commitment: H, time: int, owner: Text)
    requires ValidConfig(cfg) && IsOpen(s, SegmentOf(cfg, time, owner))
    requires OnlyIn(Objects(s, kind), commitment, SegmentOf(cfg, time, owner))
    ensures var k, t := SegmentOf(cfg, time, owner), AcceptObject(cfg, s, kind, commitment, time, owner).0;
      var before, after := CheckpointOf(cfg, s, k).body, CheckpointOf(cfg, t, k).body;
      && after.eventRoot == before.eventRoot && after.eventCount == before.eventCount
      && (forall other | other != kind :: RootOfKind(after, other) == RootOfKind(before, other))
      && after.receiptCount == before.receiptCount + if kind == Receipt && IsNew(s.receipts, commitment) then 1 else 0
  {
    hide M.Root, InSegment, SegmentOf, Put, EntriesFor, CheckpointOf, OnlyIn, IsNew;
    var k, t := SegmentOf(cfg, time, owner), AcceptObject(cfg, s, kind, commitment, time, owner).0;
    OpenCheckpoint(cfg, s, k);
    OpenCheckpoint(cfg, t, k);
    PutCounts(Objects(s, kind), Entry(commitment, k, |EntriesFor(Objects(s, kind), k)|, None));
  }

  /** Entries of one segment are numbered 0, 1, 2, … in order. */
  ghost predicate Numbered<H>(entries: seq<Entry<H>>, k: Segment) {
    Consecutive(InSegment(entries, k))
  }

  /** A new object gets the next number of its segment, and stays numbered with the others. */
  lemma ObjectIsNumbered<H>(cfg: Config<H>, s: Store<H>, kind: Kind, commitment: H, time: int, owner: Text)
    requires ValidConfig(cfg) && IsOpen(s, SegmentOf(cfg, time, owner))
    requires IsNew(Objects(s, kind), commitment) && Numbered(Objects(s, kind), SegmentOf(cfg, time, owner))
    ensures var k := SegmentOf(cfg, time, owner);
      var (t, r) := AcceptObject(cfg, s, kind, commitment, time, owner);
      && r.Ok? && r.value.commitment == commitment && r.value.segment == k
      && r.value.logIndex == |InSegment(Objects(s, kind), k)|
      && Objects(t, kind) == Objects(s, kind) + [r.value] && Numbered(Objects(t, kind), k)
      && ListOf(Objects(t, kind), k) == ListOf(Objects(s, kind), k) + [commitment]
  {
    hide InSegment, SegmentOf, Sorting.StableSort;
    var k, objects := SegmentOf(cfg, time, owner), Objects(s, kind);
    var list := InSegment(objects, k);
    var entry := Entry(commitment, k, |EntriesFor(objects, k)|, None);
    var i := IndexOf(objects, commitment);
    assert Put(objects, entry) == objects + [entry];
    AppendInSegment(objects, entry, k);
    ConsecutiveIsSorted(list);
    ConsecutiveIsSorted(list + [entry]);
  }

  /** The inclusion proof built for a new object at its log index is accepted against the root of its kind, in the
      checkpoint the segment then has. */
  lemma ObjectIsProvable<H>(cfg: Config<H>, s: Store<H>, kind: Kind, commitment: H, time: int, owner: Text)
    requires ValidConfig(cfg) && IsOpen(s, SegmentOf(cfg, time, owner))
    requires IsNew(Objects(s, kind), commitment) && Numbered(Objects(s, kind), SegmentOf(cfg, time, owner))
    ensures var k := SegmentOf(cfg, time, owner);
      var (t, r) := AcceptObject(cfg, s, kind, commitment, time, owner);
      var list := ListOf(Objects(t, kind), k);
      && r.Ok? && r.value.logIndex < |list|
      && var proof := M.ProofAt(cfg.merkle, cfg.zero, list, r.value.logIndex);
         && M.Accepts(cfg.merkle, proof) && proof.commitment == commitment
         && proof.root == RootOfKind(CheckpointOf(cfg, t, k).body, kind)
  {
    hide M.Root, M.Accepts, M.AuditPath, InSegment, SegmentOf, EntriesFor, CheckpointOf;
    var k := SegmentOf(cfg, time, owner);
    var (t, r) := AcceptObject(cfg, s, kind, commitment, time, owner);
    ObjectIsNumbered(cfg, s, kind, commitment, time, owner);
    OpenStaysOpen(cfg, s, kind, commitment, time, owner, k);
    OpenCheckpoint(cfg, t, k);
    M.BuiltProofsVerify(cfg.merkle, cfg.zero, ListOf(Objects(t, kind), k), r.value.logIndex);
  }

  lemma OpenStaysOpen<H>(cfg: Config<H>, s: Store<H>, kind: Kind, commitment: H, time: int, owner: Text, k: Segment)
    requires ValidConfig(cfg) && IsOpen(s, k)
    ensures IsOpen(AcceptObject(cfg, s, kind, commitment, time, owner).0, k)
  {
    hide Put, EntriesFor, SegmentOf;
  }

  /** Accepting an event changes no root but the event root, and adds one to the event count exactly for a new one. */
  lemma EventChangesItsRoot<H>(cfg: Config<H>, s: Store<H>, e: Event<H>)
    requires ValidConfig(cfg) && e.time.Some? && IsOpen(s, SegmentOf(cfg, e.time.value, e.sender))
    requires OnlyIn(s.events, e.commitment, SegmentOf(cfg, e.time.value, e.sender))
    ensures var k, t := SegmentOf(cfg, e.time.value, e.sender), AfterVerification(cfg, s, e, true).0;
      var before, after := CheckpointOf(cfg, s, k).body, CheckpointOf(cfg, t, k).body;
      && (forall kind :: RootOfKind(after, kind) == RootOfKind(before, kind))
      && after.receiptCount == before.receiptCount
      && after.eventCount == before.eventCount + if IsNew(s.events, e.commitment) then 1 else 0
  {
    hide M.Root, InSegment, SegmentOf, Put, EntriesFor, CheckpointOf, OnlyIn, IsNew, NonceOf;
    var k, t := SegmentOf(cfg, e.time.value, e.sender), AfterVerification(cfg, s, e, true).0;
    OpenCheckpoint(cfg, s, k);
    OpenCheckpoint(cfg, t, k);
    PutCounts(s.events, Entry(e.commitment, k, |EntriesFor(s.events, k)|, Some(NonceOf(e))));
  }

  // ---------- Segments, nonce keys and the first checks ----------

  /** A segment's epoch is the multiple of the epoch duration whose epoch holds the time. */
  lemma SegmentHoldsTime<H>(cfg: Config<H>, time: int, owner: Text)
    requires ValidConfig(cfg)
    ensures var k := SegmentOf(cfg, time, owner);
      && k.epoch <= time < k.epoch + cfg.epochDuration && k.epoch % cfg.epochDuration == 0
      && k.shard == cfg.shardOf(owner)
  {
    var d := cfg.epochDuration;
    var q := time / d;
    assert time == d * q + time % d;
    assert q * d == d * q + 0;
    Bps.RemainderIs(q * d, d, q, 0);
  }

  /** A nonce key determines sender, key id and nonce, for key ids and nonces without colons. */
  lemma NonceKeyBinds<H>(d: Event<H>, e: Event<H>)
    requires NonceOf(d) == NonceOf(e)
    requires COLON !in d.keyId && COLON !in d.nonce && COLON !in e.keyId && COLON !in e.nonce
    ensures d.sender == e.sender && d.keyId == e.keyId && d.nonce == e.nonce
  {
    var a, b := d.sender + [COLON] + d.keyId, e.sender + [COLON] + e.keyId;
    LastPart(a, d.nonce, b, e.nonce);
    LastPart(d.sender, d.keyId, e.sender, e.keyId);
  }

  ghost predicate LastColon(s: Text, n: nat) {
    n < |s| && s[n] == COLON && forall i | n < i < |s| :: s[i] != COLON
  }

  lemma ColonBefore(a: Text, x: Text)
    requires COLON !in x
    ensures LastColon(a + [COLON] + x, |a|)
    ensures (a + [COLON] + x)[..|a|] == a && (a + [COLON] + x)[|a| + 1..] == x
  {
  }

  lemma LastPart(a: Text, x: Text, b: Text, y: Text)
    requires a + [COLON] + x == b + [COLON] + y && COLON !in x && COLON !in y
    ensures a == b && x == y
  {
    ColonBefore(a, x);
    ColonBefore(b, y);
  }

  /** An event gets past the first checks exactly if it is well formed, its time is within the window and its nonce
      key is unused; and what a refusal says is so. */
  lemma FirstChecks<H>(cfg: Config<H>, s: Store<H>, e: Event<H>, now: int)
    ensures BeforeVerification(cfg, s, e, now).None? <==>
      && e.schemaValid && e.time.Some? && NonceOf(e) !in s.nonces
      && now - cfg.window <= e.time.value <= now + cfg.window
    ensures var refused := BeforeVerification(cfg, s, e, now);
      && (refused == Some(SchemaInvalid) <==> !e.schemaValid)
      && (refused == Some(TimestampInvalid) ==> e.time.None?)
      && (refused == Some(TimestampOutOfWindow) ==>
            e.time.Some? && !(now - cfg.window <= e.time.value <= now + cfg.window))
      && (refused == Some(NonceReplay) ==> NonceOf(e) in s.nonces)
  {
    hide NonceOf;
  }
}
