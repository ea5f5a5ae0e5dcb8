/** The inclusion and checkpoint part of the verifier, from an envelope down to the log it claims to be
    in. All its other checks are one arbitrary condition. */
module Verifier {
  import H = Hashing
  import opened Wrappers
  import opened Text
  import opened Crypto
  import opened Layout
  import C = Canonical
  import M = MerkleLog
  import K = Consistency
  import R = RelayStore
  import L = RelaySchedules
  import O = RelayObjects

  datatype TreeKind = EventTree | ReceiptTree | AttestationTree | RevocationTree | OtherTree

  /** An inclusion proof with the header that ties it to a checkpoint. */
  datatype LogProof = LogProof(
    treeKind: TreeKind, proof: M.Proof<Hash>,
    epochStart: int, epochDuration: int, shard: Text, checkpointHash: Hash)

  datatype Checks = Checks(
    includedInLog: bool,
    receiptIncluded: Option<bool>, attestationIncluded: Option<bool>, revocationIncluded: Option<bool>,
    checkpointValid: Option<bool>, checkpointSignatureValid: Option<bool>, authorizedRelayValid: Option<bool>,
    checkpointMatchesProof: bool)

  datatype Policy = Policy(
    requireInclusion: bool, requireCheckpoint: bool,
    requireAuthorizedRelay: bool, authorizedRelays: seq<Text>)

  /** `eventHash` and `signature` are the envelope's; `checkpointHash` is the current or the legacy form, as
      configured; `relaySigned` is the outcome of the relay signature check; `othersHold` says that every
      other conjunct holds and that no other check reported an error. */
  datatype Input = Input(
    sha: Bytes -> Hash, eventHash: Hash, signature: Bytes,
    proof: Option<LogProof>, proofSchemaValid: bool,
    checkpoint: Option<K.Checkpoint<Hash>>, checkpointSchemaValid: bool,
    checkpointHash: K.Checkpoint<Hash> -> Hash, relaySigned: bool,
    othersHold: Checks -> bool)

  datatype Error =
    | InclusionInvalid | CheckpointInvalid | IdentityMismatch | CheckpointSignatureInvalid | RelayNotAuthorized

  datatype Outcome = Outcome(verified: bool, commitment: Hash, checks: Checks, errors: seq<Error>)

  function CommitmentOf(x: Input, form: Form): Hash {
    x.sha(CommitmentMessage(form, x.eventHash, x.signature))
  }

  /** An unknown kind of tree has no root. */
  function RootForKind(c: K.Checkpoint<Hash>, kind: TreeKind): Option<Hash> {
    match kind
    case EventTree => Some(c.body.eventRoot)
    case ReceiptTree => Some(c.body.receiptRoot)
    case AttestationTree => Some(c.body.attestationRoot)
    case RevocationTree => Some(c.body.revocationRoot)
    case OtherTree => None
  }

  predicate RelayListed(policy: Policy, relay: Text) {
    policy.authorizedRelays == [] || relay in policy.authorizedRelays
  }

  // ---------- What it means to be verified ----------

  ghost predicate Proves(x: Input, kind: TreeKind) {
    x.proof.Some? && x.proofSchemaValid && x.proof.value.treeKind == kind &&
        M.Accepts(LogHash(x.sha), x.proof.value.proof)
  }

  /** The proof shows one of the two forms of the envelope's commitment in an event log. */
  ghost predicate Included(x: Input) {
    && Proves(x, EventTree)
    && (x.proof.value.proof.commitment == CommitmentOf(x, Current) ||
        x.proof.value.proof.commitment == CommitmentOf(x, Legacy))
  }

  ghost predicate CheckpointValid(x: Input) {
    && x.checkpoint.Some? && x.checkpointSchemaValid
    && (x.checkpoint.value.identityHash.Some? ==>
        x.checkpoint.value.identityHash.value == x.checkpointHash(x.checkpoint.value))
  }

  /** The proof's header and root are the checkpoint's. */
  ghost predicate Matches(x: Input) {
    && x.proof.Some? && CheckpointValid(x)
    && HeaderMatches(x.proof.value, x.checkpoint.value)
    && x.proof.value.checkpointHash == x.checkpointHash(x.checkpoint.value)
  }

  predicate HeaderMatches(p: LogProof, c: K.Checkpoint<Hash>) {
    && p.epochStart == c.body.epochStart && p.epochDuration == c.body.epochDuration && p.shard == c.body.shard
    && RootForKind(c, p.treeKind) == Some(p.proof.root)
  }

  /** A checkpoint that is there is valid, signed by its relay, and by a listed one if the policy asks for it. */
  ghost predicate CheckpointHolds(x: Input, policy: Policy) {
    x.checkpoint.Some? ==>
      && CheckpointValid(x)
      && x.relaySigned
      && (policy.requireAuthorizedRelay ==> RelayListed(policy, x.checkpoint.value.body.relayId))
  }

  /** Relay authorization, where the policy asks for it, is found to hold. */
  ghost predicate RelayAuthorized(x: Input, policy: Policy) {
    policy.requireAuthorizedRelay ==>
      x.checkpoint.Some? && x.checkpointSchemaValid && x.relaySigned &&
          RelayListed(policy, x.checkpoint.value.body.relayId)
  }

  /** Whether a proof of one kind of tree is accepted; nothing without a well-formed one. */
  ghost function IncludedAs(x: Input, kind: TreeKind): Option<bool> {
    if x.proof.Some? && x.proofSchemaValid && x.proof.value.treeKind == kind then Some(Proves(x, kind)) else None
  }

  /** The checks as they end up recorded, which the other conditions may read. */
  ghost function Recorded(x: Input, policy: Policy): Checks {
    var looked := x.checkpoint.Some? && x.checkpointSchemaValid;
    Checks(
      Included(x), IncludedAs(x, ReceiptTree), IncludedAs(x, AttestationTree), IncludedAs(x, RevocationTree),
      if x.checkpoint.Some? then Some(CheckpointValid(x)) else None,
      if looked then Some(x.relaySigned) else None,
      if looked && policy.requireAuthorizedRelay then Some(RelayAuthorized(x, policy)) else None,
      Matches(x))
  }

  ghost predicate Verified(x: Input, policy: Policy) {
    && x.othersHold(Recorded(x, policy))
    && (x.proof.Some? ==> x.proofSchemaValid)
    && CheckpointHolds(x, policy)
    && RelayAuthorized(x, policy)
    && (policy.requireInclusion ==> Included(x))
    && (policy.requireCheckpoint ==> Matches(x))
  }

  /** The part of the verifier that looks at the proof alone. */
  method CheckProof(x: Input) returns (checks: Checks, errors: seq<Error>)
    ensures checks == Checks(Included(x), IncludedAs(x, ReceiptTree), IncludedAs(x, AttestationTree),
                             IncludedAs(x, RevocationTree), None, None, None, false)
    ensures errors == [] <==> (x.proof.Some? ==> x.proofSchemaValid)
  {
    hide M.Accepts, CommitmentOf, LogHash;
    checks, errors := Checks(false, None, None, None, None, None, None, false), [];
    if x.proof.Some? {
      var p := x.proof.value;
      if !x.proofSchemaValid {
        errors := [InclusionInvalid];
      } else {
        var accepted := M.VerifyInclusion(LogHash(x.sha), p.proof);
        var named := p.proof.commitment == CommitmentOf(x, Current) || p.proof.commitment == CommitmentOf(x, Legacy);
        checks := checks.(includedInLog := p.treeKind == EventTree && named && accepted);
        if p.treeKind == ReceiptTree { checks := checks.(receiptIncluded := Some(accepted)); }
        if p.treeKind == AttestationTree { checks := checks.(attestationIncluded := Some(accepted)); }
        if p.treeKind == RevocationTree { checks := checks.(revocationIncluded := Some(accepted)); }
      }
    }
  }

  /** The part of the verifier that looks at the checkpoint, and at how the proof fits it. */
  method CheckCheckpoint(x: Input, policy: Policy, before: Checks) returns (checks: Checks, errors: seq<Error>)
    requires before.checkpointValid == None && before.checkpointSignatureValid == None
    requires before.authorizedRelayValid == None && !before.checkpointMatchesProof
    ensures var all := Recorded(x, policy);
      checks == before.(
        checkpointValid := all.checkpointValid,
        checkpointSignatureValid := all.checkpointSignatureValid,
        authorizedRelayValid := all.authorizedRelayValid,
        checkpointMatchesProof := all.checkpointMatchesProof)
    ensures errors == [] <==> CheckpointHolds(x, policy)
  {
    hide RelayListed, HeaderMatches, Included, IncludedAs;
    checks, errors := before, [];
    if x.checkpoint.Some? {
      var c := x.checkpoint.value;
      checks := checks.(checkpointValid := Some(x.checkpointSchemaValid));
      if !x.checkpointSchemaValid {
        errors := errors + [CheckpointInvalid];
      } else {
        if c.identityHash.Some? && c.identityHash.value != x.checkpointHash(c) {
          checks := checks.(checkpointValid := Some(false));
          errors := errors + [IdentityMismatch];
        }
        checks := checks.(checkpointSignatureValid := Some(x.relaySigned));
        if !x.relaySigned { errors := errors + [CheckpointSignatureInvalid]; }
        if policy.requireAuthorizedRelay {
          var authorized := x.relaySigned && RelayListed(policy, c.body.relayId);
          checks := checks.(authorizedRelayValid := Some(authorized));
          if !authorized { errors := errors + [RelayNotAuthorized]; }
        }
      }
    }
    if x.proof.Some? && checks.checkpointValid == Some(true) {
      var p, c := x.proof.value, x.checkpoint.value;
      checks := checks.(checkpointMatchesProof := HeaderMatches(p, c) && p.checkpointHash == x.checkpointHash(c));
    }
  }

  method VerifyTsl(x: Input, policy: Policy) returns (r: Outcome)
    ensures r.verified <==> Verified(x, policy)
    ensures r.checks == Recorded(x, policy)
    ensures r.commitment == CommitmentOf(x, Current)
    ensures r.verified ==> r.errors == []
  {
    hide Included, IncludedAs, Matches, CheckpointValid, CommitmentOf, RelayListed;
    var checks, errors := CheckProof(x);
    var checkpointErrors;
    checks, checkpointErrors := CheckCheckpoint(x, policy, checks);
    errors := errors + checkpointErrors;
    if policy.requireInclusion && !checks.includedInLog { errors := errors + [InclusionInvalid]; }
    if policy.requireCheckpoint && !checks.checkpointMatchesProof { errors := errors + [CheckpointInvalid]; }
    var verified :=
      && x.othersHold(checks)
      && checks.checkpointSignatureValid != Some(false)
      && checks.authorizedRelayValid != Some(false)
      && |errors| == 0
      && (!policy.requireAuthorizedRelay || checks.authorizedRelayValid == Some(true))
      && (!policy.requireInclusion || checks.includedInLog)
      && (!policy.requireCheckpoint || checks.checkpointMatchesProof);
    r := Outcome(verified, CommitmentOf(x, Current), checks, errors);
  }

  /** What a match says, on the fields of proof and checkpoint. */
  lemma MatchMeans(x: Input)
    requires Matches(x)
    ensures x.proof.Some? && x.checkpoint.Some?
    ensures var p, b := x.proof.value, x.checkpoint.value.body;
      && p.epochStart == b.epochStart && p.epochDuration == b.epochDuration && p.shard == b.shard
      && p.checkpointHash == x.checkpointHash(x.checkpoint.value)
      && (p.treeKind == EventTree ==> p.proof.root == b.eventRoot)
      && (p.treeKind == ReceiptTree ==> p.proof.root == b.receiptRoot)
      && (p.treeKind == AttestationTree ==> p.proof.root == b.attestationRoot)
      && (p.treeKind == RevocationTree ==> p.proof.root == b.revocationRoot)
      && p.treeKind != OtherTree
  {
  }

  /** What verification with everything required says, on the fields of the input. */
  lemma VerifiedMeans(x: Input, policy: Policy)
    requires Verified(x, policy)
    ensures x.checkpoint.Some? ==>
      && x.checkpointSchemaValid && x.relaySigned
      && x.checkpoint.value.identityHash in {None, Some(x.checkpointHash(x.checkpoint.value))}
    ensures policy.requireAuthorizedRelay ==>
      && x.checkpoint.Some?
      && (policy.authorizedRelays != [] ==> x.checkpoint.value.body.relayId in policy.authorizedRelays)
    ensures policy.requireInclusion ==>
      && x.proof.Some? && x.proofSchemaValid && x.proof.value.treeKind == EventTree
      && x.proof.value.proof.commitment in {
           x.sha(CommitmentMessage(Current, x.eventHash, x.signature)),
           x.sha(CommitmentMessage(Legacy, x.eventHash, x.signature))}
  {
    hide M.Accepts, LogHash, CommitmentMessage, Recorded;
  }

  // ---------- From a verdict to the log ----------

  /** Verified with inclusion and a checkpoint required. */
  ghost predicate VerifiedInLog(x: Input, policy: Policy) {
    Verified(x, policy) && policy.requireInclusion && policy.requireCheckpoint
  }

  /** Everything hashed for the log `cs` and for the proof. */
  ghost function LoggedMessages(x: Input, cs: seq<Hash>): set<Bytes>
    requires x.proof.Some?
  {
    LogMessages(M.LogQueries(LogHash(x.sha), cs) + M.ProofQueries(LogHash(x.sha), x.proof.value.proof))
  }

  /** `cs` is the list behind the event root of the checkpoint. */
  ghost predicate IsLog(x: Input, cs: seq<Hash>) {
    && x.checkpoint.Some? && x.proof.Some?
    && x.checkpoint.value.body.eventRoot == M.Root(LogHash(x.sha), ZERO_HASH, cs)
    && |cs| <= UINT64_LIMIT && x.proof.value.proof.leafIndex < UINT64_LIMIT
  }

  /** A verified envelope's commitment, in one of its forms, stands in the list behind the checkpoint's
      event root, at the proof's leaf index. */
  lemma VerifiedIsLogged(x: Input, policy: Policy, cs: seq<Hash>)
    requires VerifiedInLog(x, policy) && IsLog(x, cs)
    requires CollisionFree(x.sha, LoggedMessages(x, cs))
    ensures var i := x.proof.value.proof.leafIndex;
      i < |cs| && (cs[i] == CommitmentOf(x, Current) || cs[i] == CommitmentOf(x, Legacy))
  {
    hide M.Accepts, M.Root, M.LogQueries, M.ProofQueries, H.CollisionFree, LogMessages, LogEncodable;
    var hash, proof := LogHash(x.sha), x.proof.value.proof;
    LogEncodables(hash, cs, proof);
    LogCollisionFree(x.sha, M.LogQueries(hash, cs) + M.ProofQueries(hash, proof));
    M.InclusionIsSound(hash, ZERO_HASH, cs, proof);
  }

  /** The signed event an input was made for. */
  ghost predicate IsFor(x: Input, e: Event) {
    EventEncodable(e) && x.eventHash == x.sha(EventMessage(e)) && x.signature == e.signature
  }

  ghost function AllCommitmentMessages(sha: Bytes -> Hash, e: Event): set<Bytes>
    requires EventEncodable(e)
  {
    CommitmentMessages(sha, Current, e) + CommitmentMessages(sha, Legacy, e)
  }

  /** A commitment of one event in one form is not one of the other in the other form: signatures of one length,
      as Ed25519 signatures are, or event hashes that do not begin like a tag. */
  ghost predicate Unmixed(sha: Bytes -> Hash, e: Event, e': Event)
    requires EventEncodable(e) && EventEncodable(e')
  {
    |e.signature| == |e'.signature| || (!TagLike(sha(EventMessage(e))) && !TagLike(sha(EventMessage(e'))))
  }

  /** The event logged at the proof's leaf index is the verified envelope: every field and the signature. */
  lemma LoggedEventIsEnvelope(x: Input, policy: Policy, cs: seq<Hash>, e: Event, form: Form, logged: Event)
    requires VerifiedInLog(x, policy) && IsLog(x, cs) && IsFor(x, e)
    requires EventEncodable(logged) && Unmixed(x.sha, e, logged)
    requires x.proof.value.proof.leafIndex < |cs| ==>
        cs[x.proof.value.proof.leafIndex] == Commitment(x.sha, form, logged)
    requires CollisionFree(x.sha, LoggedMessages(x, cs) + AllCommitmentMessages(x.sha, e) +
        AllCommitmentMessages(x.sha, logged))
    ensures logged.signature == e.signature && Unsigned(logged) == Unsigned(e)
  {
    hide LoggedMessages, AllCommitmentMessages, CommitmentMessages, Commitment, CommitmentOf, VerifiedInLog, IsLog,
        IsFor, EventEncodable, Unsigned, CollisionFree;
    HasProof(x, cs);
    OwnCommitment(x, Current, e);
    var log, mine, other := LoggedMessages(x, cs), AllCommitmentMessages(x.sha, e),
        AllCommitmentMessages(x.sha, logged);
    CollisionFreeSubset(x.sha, log + mine + other, log);
    CollisionFreeSubset(x.sha, log + mine + other, mine + other);
    VerifiedIsLogged(x, policy, cs);
    var i := x.proof.value.proof.leafIndex;
    var own := if cs[i] == CommitmentOf(x, Current) then Current else Legacy;
    OwnCommitment(x, own, e);
    EitherFormBinds(x.sha, own, e, form, logged);
  }

  lemma OwnCommitment(x: Input, form: Form, e: Event)
    requires IsFor(x, e)
    ensures EventEncodable(e) && CommitmentOf(x, form) == Commitment(x.sha, form, e)
  {
  }

  lemma EitherFormBinds(sha: Bytes -> Hash, form: Form, e: Event, form': Form, e': Event)
    requires EventEncodable(e) && EventEncodable(e') && Unmixed(sha, e, e')
    requires Commitment(sha, form, e) == Commitment(sha, form', e')
    requires CollisionFree(sha, AllCommitmentMessages(sha, e) + AllCommitmentMessages(sha, e'))
    ensures e.signature == e'.signature && Unsigned(e) == Unsigned(e')
  {
    hide CommitmentMessages, Commitment, EventEncodable, Unsigned, CollisionFree;
    CollisionFreeSubset(sha, AllCommitmentMessages(sha, e) + AllCommitmentMessages(sha, e'),
                        CommitmentMessages(sha, form, e) + CommitmentMessages(sha, form', e'));
    CommitmentBindsEvent(sha, form, e, form', e');
  }

  lemma HasProof(x: Input, cs: seq<Hash>)
    requires IsLog(x, cs)
    ensures x.checkpoint.Some? && x.proof.Some?
  {
  }

  // ---------- Two verifiers ----------

  /** The input's checkpoint is hashed in this form, current or legacy. */
  ghost predicate HashedAs(x: Input, form: Form) {
    && x.checkpoint.Some? && BodyEncodable(x.checkpoint.value.body)
    && x.checkpointHash(x.checkpoint.value) == x.sha(CheckpointMessage(form, x.checkpoint.value))
  }

  /** Two verified inputs, each with its own policy and form of checkpoint hash, that hash alike and whose proofs
      name the same checkpoint hash. */
  ghost predicate SameCheckpointHash(x: Input, y: Input, policy: Policy, policy': Policy, form: Form, form': Form) {
    && x.sha == y.sha
    && VerifiedInLog(x, policy) && VerifiedInLog(y, policy') && HashedAs(x, form) && HashedAs(y, form')
    && x.proof.value.checkpointHash == y.proof.value.checkpointHash
    && CollisionFree(x.sha, {CheckpointMessage(form, x.checkpoint.value), CheckpointMessage(form', y.checkpoint.value)})
  }

  /** Such inputs were verified against the same checkpoint, but for the settlement backend, which the legacy form
      does not hash. */
  lemma SameHashSameCheckpoint(x: Input, y: Input, policy: Policy, policy': Policy, form: Form, form': Form)
    requires SameCheckpointHash(x, y, policy, policy', form, form')
    ensures x.checkpoint.value.body.(settlementBackend := None) == y.checkpoint.value.body.(settlementBackend := None)
    ensures form == form' == Current ==> x.checkpoint.value.body == y.checkpoint.value.body
  {
    hide CheckpointMessage, BodyEncodable;
    CheckpointMessageBinds(form, x.checkpoint.value, form', y.checkpoint.value);
  }

  lemma SameLog(x: Input, y: Input, policy: Policy, policy': Policy, form: Form, form': Form, cs: seq<Hash>)
    requires SameCheckpointHash(x, y, policy, policy', form, form') && IsLog(x, cs)
    requires y.proof.Some? && x.proof.value.proof.leafIndex == y.proof.value.proof.leafIndex
    ensures IsLog(y, cs)
  {
    hide CheckpointMessage, BodyEncodable, M.Root, Verified, CollisionFree;
    SameHashSameCheckpoint(x, y, policy, policy', form, form');
    var a, b := x.checkpoint.value.body, y.checkpoint.value.body;
    assert a.eventRoot == a.(settlementBackend := None).eventRoot == b.(settlementBackend := None).eventRoot ==
        b.eventRoot;
  }

  /** Verified envelopes whose proofs name the same checkpoint hash and the same leaf index are the same
      signed event, whoever verified them and whatever checkpoints and paths they were given. */
  lemma SameSlotSameEvent(x: Input, y: Input, policy: Policy, policy': Policy, form: Form, form': Form,
                          cs: seq<Hash>, e: Event, e': Event)
    requires SameCheckpointHash(x, y, policy, policy', form, form')
    requires IsLog(x, cs) && y.proof.Some? && IsFor(x, e) && IsFor(y, e') && Unmixed(x.sha, e, e')
    requires x.proof.value.proof.leafIndex == y.proof.value.proof.leafIndex
    requires CollisionFree(x.sha, LoggedMessages(x, cs) + LoggedMessages(y, cs) +
                           AllCommitmentMessages(x.sha, e) + AllCommitmentMessages(x.sha, e'))
    ensures e.signature == e'.signature && Unsigned(e) == Unsigned(e')
  {
    hide LoggedMessages, AllCommitmentMessages, EventEncodable, HashedAs, Verified, M.Accepts, M.Root, Unsigned,
      CommitmentOf, Commitment, IsFor, IsLog, VerifiedInLog, Unmixed, CollisionFree;
    HasProof(x, cs);
    SameLog(x, y, policy, policy', form, form', cs);
    OwnCommitment(x, Current, e);
    OwnCommitment(y, Current, e');
    var log, log' := LoggedMessages(x, cs), LoggedMessages(y, cs);
    var mine, other := AllCommitmentMessages(x.sha, e), AllCommitmentMessages(x.sha, e');
    CollisionFreeSubset(x.sha, log + log' + mine + other, log);
    CollisionFreeSubset(x.sha, log + log' + mine + other, log');
    CollisionFreeSubset(x.sha, log + log' + mine + other, mine + other);
    VerifiedIsLogged(x, policy, cs);
    VerifiedIsLogged(y, policy', cs);
    var i := x.proof.value.proof.leafIndex;
    var own := if cs[i] == CommitmentOf(x, Current) then Current else Legacy;
    var own' := if cs[i] == CommitmentOf(y, Current) then Current else Legacy;
    OwnCommitment(x, own, e);
    OwnCommitment(y, own', e');
    EitherFormBinds(x.sha, own, e, own', e');
  }

  // ---------- Proofs from the relay ----------

  /** The input carries what the relay's `proofFor` answers for the event at place i of its store. */
  ghost predicate FromRelay(x: Input, cfg: R.Config<Hash>, s: R.Store<Hash>, i: nat)
    requires i < |s.events|
  {
    var e := s.events[i];
    var list, c := R.ListFor(s, e.segment), R.CheckpointOf(cfg, s, e.segment);
    && cfg.merkle == LogHash(x.sha) && cfg.zero == ZERO_HASH
    && e.logIndex < |list|
    && x.proof == Some(LogProof(
         EventTree, M.ProofAt(cfg.merkle, cfg.zero, list, e.logIndex),
         e.segment.epoch, cfg.epochDuration, e.segment.shard, K.CheckpointHash(cfg.bodyHash, c)))
    && x.checkpoint == Some(c)
    && x.checkpointHash(c) == cfg.bodyHash(c.body)
    && x.proofSchemaValid && x.checkpointSchemaValid
  }

  /** After every run of a relay whose steps fit, its answer for any accepted event passes the verifier's
      inclusion and checkpoint checks, before and after settlement; the one thing that can fail is an identity
      hash that the settlement backend put in and that is not the checkpoint's. */
  lemma RelayProofPasses(x: Input, policy: Policy, cfg: R.Config<Hash>, home: Hash -> R.Segment,
      nonceOf: Hash -> R.NonceKey, actions: seq<R.Action<Hash>>, i: nat)
    requires R.ValidConfig(cfg) && L.AllFixed(cfg, home, nonceOf, actions)
    requires forall n: nat | n < |actions| :: L.FitsAt(cfg, home, nonceOf, actions, n)
    requires var s := L.After(cfg, home, nonceOf, actions).store;
      i < |s.events| && FromRelay(x, cfg, s, i) && s.events[i].commitment == CommitmentOf(x, Current)
    ensures Included(x)
    ensures var c := x.checkpoint.value;
      Matches(x) <==> (c.identityHash.Some? ==> c.identityHash.value == cfg.bodyHash(c.body))
    ensures Matches(x) && !policy.requireAuthorizedRelay ==>
      (Verified(x, policy) <==> x.othersHold(Recorded(x, policy)) && x.relaySigned)
  {
    hide L.After, L.FitsAt, FromRelay, Included, Matches, Verified, R.SerialInv;
    L.RunIsExact(cfg, home, nonceOf, actions, |actions|);
    assert actions[..|actions|] == actions;
    StoredProofPasses(x, policy, cfg, nonceOf, L.After(cfg, home, nonceOf, actions).store, i);
  }

  lemma StoredProofPasses(x: Input, policy: Policy, cfg: R.Config<Hash>, nonceOf: Hash -> R.NonceKey,
      s: R.Store<Hash>, i: nat)
    requires R.SerialInv(cfg, nonceOf, s)
    requires i < |s.events| && FromRelay(x, cfg, s, i) && s.events[i].commitment == CommitmentOf(x, Current)
    ensures Included(x)
    ensures var c := x.checkpoint.value;
      Matches(x) <==> (c.identityHash.Some? ==> c.identityHash.value == cfg.bodyHash(c.body))
    ensures Matches(x) && !policy.requireAuthorizedRelay ==>
      (Verified(x, policy) <==> x.othersHold(Recorded(x, policy)) && x.relaySigned)
  {
    hide M.Accepts, M.Root, M.AuditPath, LogHash, R.CheckpointOf, R.ListFor, R.SerialInv, CommitmentOf, Recorded;
    R.ProofMatches(cfg, nonceOf, s, i);
    var e := s.events[i];
    M.BuiltProofsVerify(cfg.merkle, cfg.zero, R.ListFor(s, e.segment), e.logIndex);
  }

  function TreeOf(kind: R.Kind): TreeKind {
    match kind
    case Receipt => ReceiptTree
    case Attestation => AttestationTree
    case Revocation => RevocationTree
  }

  /** A receipt, attestation or revocation newly accepted in an open, numbered segment has a proof that the verifier
      accepts for its kind, and that matches the checkpoint the segment then has. */
  lemma ObjectProofPasses(x: Input, cfg: R.Config<Hash>, s: R.Store<Hash>, kind: R.Kind, commitment: Hash, time: int,
      owner: Text)
    requires R.ValidConfig(cfg) && cfg.merkle == LogHash(x.sha)
    requires O.IsOpen(s, R.SegmentOf(cfg, time, owner)) && O.IsNew(R.Objects(s, kind), commitment)
    requires O.Numbered(R.Objects(s, kind), R.SegmentOf(cfg, time, owner))
    requires var k := R.SegmentOf(cfg, time, owner);
      var (t, r) := R.AcceptObject(cfg, s, kind, commitment, time, owner);
      var list, c := O.ListOf(R.Objects(t, kind), k), R.CheckpointOf(cfg, t, k);
      && x.proofSchemaValid && x.checkpointSchemaValid && x.checkpoint == Some(c)
      && x.checkpointHash(c) == cfg.bodyHash(c.body)
      && r.Ok? && r.value.logIndex < |list|
      && x.proof == Some(LogProof(
           TreeOf(kind), M.ProofAt(cfg.merkle, cfg.zero, list, r.value.logIndex),
           k.epoch, cfg.epochDuration, k.shard, cfg.bodyHash(c.body)))
    ensures Proves(x, TreeOf(kind)) && Matches(x)
  {
    hide M.Accepts, M.ProofAt, M.Root, R.SegmentOf, R.AcceptObject, R.CheckpointOf, O.ListOf, O.Numbered, O.IsNew,
      LogHash;
    var k := R.SegmentOf(cfg, time, owner);
    O.ObjectIsProvable(cfg, s, kind, commitment, time, owner);
    O.OpenStaysOpen(cfg, s, kind, commitment, time, owner, k);
    O.OpenCheckpoint(cfg, R.AcceptObject(cfg, s, kind, commitment, time, owner).0, k);
  }
}
