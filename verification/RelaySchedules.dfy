/** Which interleavings of relay calls keep the log numbered and its settled roots right.

    Closed segments are final under every interleaving. Numbering, nonces and roots are not: they hold
    exactly as long as every resumed call finds what it was started on. */
module RelaySchedules {
  import opened Wrappers
  import opened Text
  import opened RelayStore
  import Sorting
  import M = MerkleLog
  import C = Consistency

  // ---------- Runs ----------

  function Idle<H>(s: Store<H>): System<H> {
    System(s, [], [])
  }

  /** What a run assumes of commitments: each determines its segment and its nonce key. */
  ghost predicate Fixed<H>(cfg: Config<H>, home: H -> Segment, nonceOf: H -> NonceKey, a: Action<H>)
    requires ValidConfig(cfg)
  {
    Homed(cfg, home, a) && (a.BeginAccept? ==> nonceOf(a.event.commitment) == NonceOf(a.event))
  }

  ghost predicate AllFixed<H>(cfg: Config<H>, home: H -> Segment, nonceOf: H -> NonceKey, actions: seq<Action<H>>)
    requires ValidConfig(cfg)
  {
    forall a | a in actions :: Fixed(cfg, home, nonceOf, a)
  }

  ghost predicate WaitingFixed<H>(nonceOf: H -> NonceKey, sys: System<H>) {
    forall e | e in sys.accepting :: nonceOf(e.commitment) == NonceOf(e)
  }

  /** What holds of the system at every point of every run. */
  ghost predicate Always<H>(cfg: Config<H>, home: H -> Segment, nonceOf: H -> NonceKey, sys: System<H>)
    requires ValidConfig(cfg)
  {
    Inv(cfg, home, sys) && WaitingFixed(nonceOf, sys)
  }

  lemma AlwaysStays<H>(cfg: Config<H>, home: H -> Segment, nonceOf: H -> NonceKey, sys: System<H>, a: Action<H>)
    requires ValidConfig(cfg) && Always(cfg, home, nonceOf, sys) && Fixed(cfg, home, nonceOf, a)
    ensures Always(cfg, home, nonceOf, Execute(cfg, sys, a))
  {
    hide AfterVerification, AcceptObject, AfterSettlement, CheckpointOf, StoreInv, NonceOf;
    StepKeeps(cfg, home, sys, a);
  }

  /** The system after a run of actions on an idle, empty relay. */
  ghost function After<H>(cfg: Config<H>, home: H -> Segment, nonceOf: H -> NonceKey,
      actions: seq<Action<H>>): (r: System<H>)
    requires ValidConfig(cfg) && AllFixed(cfg, home, nonceOf, actions)
    ensures Always(cfg, home, nonceOf, r)
    decreases |actions|
  {
    if actions == [] then
      EmptyInv(cfg, home);
      Idle(EmptyStore())
    else
      var n := |actions| - 1;
      var before := After(cfg, home, nonceOf, actions[..n]);
      AlwaysStays(cfg, home, nonceOf, before, actions[n]);
      Execute(cfg, before, actions[n])
  }

  // ---------- The exact condition of a step ----------

  /** The event of a waiting accept would be added now. */
  ghost predicate WouldAdd<H>(cfg: Config<H>, s: Store<H>, e: Event<H>, verified: bool)
    requires ValidConfig(cfg) && e.time.Some?
  {
    verified && SegmentOf(cfg, e.time.value, e.sender) !in s.closed
  }

  /** The reply would be stored now. */
  ghost predicate WouldSettle<H>(cfg: Config<H>, s: Store<H>, segment: Segment, reply: C.Checkpoint<H>) {
    var existing := GetSettled(s.settled, segment);
    existing.None? || C.CheckpointHash(cfg.bodyHash, existing.value) == C.CheckpointHash(cfg.bodyHash, reply)
  }

  /** What a step must find: an event to be added has an unused nonce, and a reply to be stored carries the
      root of the segment's current events. */
  ghost predicate StepFits<H>(cfg: Config<H>, sys: System<H>, a: Action<H>)
    requires ValidConfig(cfg) && forall e | e in sys.accepting :: e.time.Some?
  {
    match a
    case ResumeAccept(call, verified) =>
      call < |sys.accepting| && WouldAdd(cfg, sys.store, sys.accepting[call], verified) ==>
        NonceOf(sys.accepting[call]) !in sys.store.nonces
    case ResumeSubmit(call, reply) =>
      call < |sys.submitting| && reply.Some? &&
          WouldSettle(cfg, sys.store, sys.submitting[call].segment, reply.value) ==>
        IsCurrent(cfg, sys.store, sys.submitting[call].segment, reply.value.body)
    case _ => true
  }

  /** Replacing an event by one numbered after the segment's last leaves a wrong number. */
  lemma ReplacedIsMisnumbered<H>(s: Store<H>, i: nat, entry: Entry<H>)
    requires SegmentsNumbered(s) && i < |s.events| && entry.logIndex == |EntriesFor(s.events, entry.segment)|
    requires s.events[i].segment == entry.segment
    ensures !Consecutive(InSegment(s.events[i := entry], entry.segment))
  {
    hide InSegment, Sorting.StableSort;
    var updated, k := s.events[i := entry], entry.segment;
    ReplaceKeepsCount(s.events, i, entry, k);
    assert Consecutive(InSegment(s.events, k));
    ConsecutiveIsSorted(InSegment(s.events, k));
    EntryInSegment(updated, i);
    var list := InSegment(updated, k);
    var j :| 0 <= j < |list| && list[j] == entry;
    assert list[j].logIndex != j;
  }

  /** An event with a used nonce spoils the log: as a second event with that nonce key or, if it is there
      already, by a log index that is not its place. */
  lemma StaleAcceptSpoils<H>(cfg: Config<H>, home: H -> Segment, nonceOf: H -> NonceKey, s: Store<H>, e: Event<H>)
    requires ValidConfig(cfg) && StoreInv(home, s) && SerialInv(cfg, nonceOf, s)
    requires EventHomed(cfg, home, e) && nonceOf(e.commitment) == NonceOf(e)
    requires e.time.Some? && WouldAdd(cfg, s, e, true) && NonceOf(e) in s.nonces
    ensures !SerialInv(cfg, nonceOf, AfterVerification(cfg, s, e, true).0)
  {
    hide InSegment, RootsRecorded, EntriesFor, SegmentOf, NonceOf, Consecutive;
    var segment := SegmentOf(cfg, e.time.value, e.sender);
    var t := AfterVerification(cfg, s, e, true).0;
    var entry := Entry(e.commitment, segment, |EntriesFor(s.events, segment)|, Some(NonceOf(e)));
    var i := IndexOf(s.events, e.commitment);
    if i < |s.events| {
      assert s.events[i] in s.events;
      ReplacedIsMisnumbered(s, i, entry);
    } else {
      var d :| d in s.events && nonceOf(d.commitment) == NonceOf(e);
      var j :| 0 <= j < |s.events| && s.events[j] == d;
      assert t.events[j].nonceKey == t.events[|s.events|].nonceKey;
    }
  }

  /** A reply that is not current leaves a settled root that is not that of the closed events. */
  lemma StaleReplySpoils<H>(cfg: Config<H>, nonceOf: H -> NonceKey, s: Store<H>, segment: Segment,
      reply: C.Checkpoint<H>)
    requires WouldSettle(cfg, s, segment, reply) && !IsCurrent(cfg, s, segment, reply.body)
    ensures !SerialInv(cfg, nonceOf, AfterSettlement(cfg, s, segment, reply).0)
  {
    hide GetSettled, PutSettled, EntriesFor, M.Root, NoncesUsed, SegmentsNumbered;
    SettledPutGet(s.settled, segment, reply, segment);
    var t := AfterSettlement(cfg, s, segment, reply).0;
    assert segment in t.closed;
  }

  /** A step keeps numbering, nonces and roots if and only if it fits. */
  lemma StepIsExact<H>(cfg: Config<H>, home: H -> Segment, nonceOf: H -> NonceKey, sys: System<H>, a: Action<H>)
    requires ValidConfig(cfg) && Always(cfg, home, nonceOf, sys) && SerialInv(cfg, nonceOf, sys.store)
    ensures SerialInv(cfg, nonceOf, Execute(cfg, sys, a).store) <==> StepFits(cfg, sys, a)
  {
    hide SerialInv, AfterVerification, AcceptObject, AfterSettlement, CheckpointOf, StoreInv, EventHomed, NonceOf,
      BeforeVerification, WouldAdd, WouldSettle, IsCurrent;
    match a
    case ResumeAccept(call, verified) =>
      if call < |sys.accepting| { AcceptIsExact(cfg, home, nonceOf, sys.store, sys.accepting[call], verified); }
    case AddObject(kind, commitment, time, owner) =>
      ObjectCallKeeps(cfg, nonceOf, sys.store, kind, commitment, time, owner);
    case ResumeSubmit(call, reply) =>
      if call < |sys.submitting| && reply.Some? {
        SettleIsExact(cfg, nonceOf, sys.store, sys.submitting[call].segment, reply.value);
      }
    case _ =>
  }

  lemma AcceptIsExact<H>(cfg: Config<H>, home: H -> Segment, nonceOf: H -> NonceKey, s: Store<H>, e: Event<H>,
      verified: bool)
    requires ValidConfig(cfg) && StoreInv(home, s) && SerialInv(cfg, nonceOf, s)
    requires e.time.Some? && EventHomed(cfg, home, e) && nonceOf(e.commitment) == NonceOf(e)
    ensures SerialInv(cfg, nonceOf, AfterVerification(cfg, s, e, verified).0) <==>
      (WouldAdd(cfg, s, e, verified) ==> NonceOf(e) !in s.nonces)
  {
    hide SerialInv, StoreInv, EventHomed, NonceOf, EntriesFor, Put, SegmentOf;
    if WouldAdd(cfg, s, e, verified) {
      if NonceOf(e) in s.nonces {
        StaleAcceptSpoils(cfg, home, nonceOf, s, e);
      } else {
        FreshAcceptKeeps(cfg, nonceOf, s, e, verified);
      }
    }
  }

  lemma SettleIsExact<H>(cfg: Config<H>, nonceOf: H -> NonceKey, s: Store<H>, segment: Segment, reply: C.Checkpoint<H>)
    requires SerialInv(cfg, nonceOf, s)
    ensures SerialInv(cfg, nonceOf, AfterSettlement(cfg, s, segment, reply).0) <==>
      (WouldSettle(cfg, s, segment, reply) ==> IsCurrent(cfg, s, segment, reply.body))
  {
    hide SerialInv, EntriesFor, IsCurrent, GetSettled, PutSettled;
    if WouldSettle(cfg, s, segment, reply) {
      if IsCurrent(cfg, s, segment, reply.body) {
        CurrentReplyKeeps(cfg, nonceOf, s, segment, reply);
      } else {
        StaleReplySpoils(cfg, nonceOf, s, segment, reply);
      }
    }
  }

  // ---------- The exact condition of a run ----------

  /** Numbering, nonces and roots hold after each of the first n actions. */
  ghost predicate SoundUpTo<H>(cfg: Config<H>, home: H -> Segment, nonceOf: H -> NonceKey, actions: seq<Action<H>>,
      n: nat)
    requires ValidConfig(cfg) && AllFixed(cfg, home, nonceOf, actions) && n <= |actions|
  {
    forall i: nat | i <= n :: SerialInv(cfg, nonceOf, After(cfg, home, nonceOf, actions[..i]).store)
  }

  ghost predicate FitsAt<H>(cfg: Config<H>, home: H -> Segment, nonceOf: H -> NonceKey, actions: seq<Action<H>>, i: nat)
    requires ValidConfig(cfg) && AllFixed(cfg, home, nonceOf, actions) && i < |actions|
  {
    StepFits(cfg, After(cfg, home, nonceOf, actions[..i]), actions[i])
  }

  lemma AfterStep<H>(cfg: Config<H>, home: H -> Segment, nonceOf: H -> NonceKey, actions: seq<Action<H>>, i: nat)
    requires ValidConfig(cfg) && AllFixed(cfg, home, nonceOf, actions) && i < |actions|
    ensures After(cfg, home, nonceOf, actions[..i + 1])
         == Execute(cfg, After(cfg, home, nonceOf, actions[..i]), actions[i])
  {
    hide Execute, Always, Fixed;
    assert actions[..i + 1][..i] == actions[..i];
  }

  /** Over every interleaving: the log stays numbered, nonces stay unique and settled roots stay right, all
      along the run, if and only if every step of it fits. */
  lemma {:induction false} RunIsExact<H>(cfg: Config<H>, home: H -> Segment, nonceOf: H -> NonceKey,
      actions: seq<Action<H>>, n: nat)
    requires ValidConfig(cfg) && AllFixed(cfg, home, nonceOf, actions) && n <= |actions|
    ensures SoundUpTo(cfg, home, nonceOf, actions, n) <==> forall i: nat | i < n ::
        FitsAt(cfg, home, nonceOf, actions, i)
  {
    hide Execute, Always, Fixed, SerialInv, StepFits, After, EmptyStore, SoundUpTo;
    if n == 0 {
      SoundAtStart(cfg, home, nonceOf, actions);
    } else {
      RunIsExact(cfg, home, nonceOf, actions, n - 1);
      SoundStep(cfg, home, nonceOf, actions, n);
      AfterStep(cfg, home, nonceOf, actions, n - 1);
      assert (forall i: nat | i < n :: FitsAt(cfg, home, nonceOf, actions, i)) <==>
        (forall i: nat | i < n - 1 :: FitsAt(cfg, home, nonceOf, actions, i)) &&
            FitsAt(cfg, home, nonceOf, actions, n - 1);
      if SoundUpTo(cfg, home, nonceOf, actions, n - 1) {
        StepIsExact(cfg, home, nonceOf, After(cfg, home, nonceOf, actions[..n - 1]), actions[n - 1]);
      }
    }
  }

  lemma SoundAtStart<H>(cfg: Config<H>, home: H -> Segment, nonceOf: H -> NonceKey, actions: seq<Action<H>>)
    requires ValidConfig(cfg) && AllFixed(cfg, home, nonceOf, actions)
    ensures SoundUpTo(cfg, home, nonceOf, actions, 0)
  {
    hide SerialInv, Fixed;
    EmptySerialInv(cfg, nonceOf);
    assert actions[..0] == [];
  }

  lemma SoundStep<H>(cfg: Config<H>, home: H -> Segment, nonceOf: H -> NonceKey, actions: seq<Action<H>>, n: nat)
    requires ValidConfig(cfg) && AllFixed(cfg, home, nonceOf, actions) && 0 < n <= |actions|
    ensures SoundUpTo(cfg, home, nonceOf, actions, n) <==>
      && SoundUpTo(cfg, home, nonceOf, actions, n - 1)
      && SerialInv(cfg, nonceOf, After(cfg, home, nonceOf, actions[..n]).store)
    ensures SoundUpTo(cfg, home, nonceOf, actions, n - 1) ==>
      SerialInv(cfg, nonceOf, After(cfg, home, nonceOf, actions[..n - 1]).store)
  {
    hide SerialInv, After, Fixed;
  }

  // ---------- Schedules that fit ----------

  /** No two waiting accepts share a nonce key, no accept of a segment is taken up while a submit of it waits,
      and the backend changes nothing that is hashed. */
  ghost predicate Orderly<H>(cfg: Config<H>, sys: System<H>, a: Action<H>)
    requires ValidConfig(cfg) && forall e | e in sys.accepting :: e.time.Some?
  {
    match a
    case BeginAccept(event, _) => forall e | e in sys.accepting :: NonceOf(e) != NonceOf(event)
    case ResumeAccept(call, verified) =>
      call < |sys.accepting| && WouldAdd(cfg, sys.store, sys.accepting[call], verified) ==>
        forall p | p in sys.submitting :: p.segment != EventSegment(cfg, sys.accepting[call])
    case ResumeSubmit(call, reply) =>
      call < |sys.submitting| && reply.Some? ==> reply.value.body == sys.submitting[call].sent.body
    case _ => true
  }

  ghost function EventSegment<H>(cfg: Config<H>, e: Event<H>): Segment
    requires ValidConfig(cfg) && e.time.Some?
  {
    SegmentOf(cfg, e.time.value, e.sender)
  }

  /** What orderly schedules keep: waiting accepts have different, unused nonces, and waiting submits have sent
      checkpoints that are still current. */
  ghost predicate Undisturbed<H>(cfg: Config<H>, sys: System<H>) {
    && (forall e | e in sys.accepting :: NonceOf(e) !in sys.store.nonces)
    && (forall i, j | 0 <= i < j < |sys.accepting| :: NonceOf(sys.accepting[i]) != NonceOf(sys.accepting[j]))
    && (forall p | p in sys.submitting :: IsCurrent(cfg, sys.store, p.segment, p.sent.body))
  }

  lemma OrderlyFits<H>(cfg: Config<H>, home: H -> Segment, nonceOf: H -> NonceKey, sys: System<H>, a: Action<H>)
    requires ValidConfig(cfg) && Always(cfg, home, nonceOf, sys) && Undisturbed(cfg, sys) && Orderly(cfg, sys, a)
    ensures StepFits(cfg, sys, a)
  {
    hide NonceOf, WouldAdd, WouldSettle, StoreInv, EventHomed, M.Root, EntriesFor, EventSegment;
    if a.ResumeAccept? && a.call < |sys.accepting| { assert sys.accepting[a.call] in sys.accepting; }
    if a.ResumeSubmit? && a.call < |sys.submitting| { assert sys.submitting[a.call] in sys.submitting; }
  }

  lemma BegunAcceptUndisturbed<H>(cfg: Config<H>, sys: System<H>, e: Event<H>, now: int)
    requires Undisturbed(cfg, sys) && BeforeVerification(cfg, sys.store, e, now).None?
    requires forall d | d in sys.accepting :: NonceOf(d) != NonceOf(e)
    ensures Undisturbed(cfg, sys.(accepting := sys.accepting + [e]))
  {
    hide NonceOf, IsCurrent;
    assert forall i | 0 <= i < |sys.accepting| :: sys.accepting[i] in sys.accepting;
  }

  lemma WithoutAt<T>(s: seq<T>, i: nat, j: nat)
    requires i < |s| && j < |s| - 1
    ensures Without(s, i)[j] == s[if j < i then j else j + 1]
  {
  }

  /** An accept touches no segment but its event's. */
  lemma AddedElsewhere<H>(cfg: Config<H>, home: H -> Segment, s: Store<H>, e: Event<H>, verified: bool, k: Segment)
    requires ValidConfig(cfg) && StoreInv(home, s) && e.time.Some? && EventHomed(cfg, home, e)
    requires WouldAdd(cfg, s, e, verified) ==> EventSegment(cfg, e) != k
    ensures EntriesFor(AfterVerification(cfg, s, e, verified).0.events, k) == EntriesFor(s.events, k)
  {
    hide InSegment, Put, Sorting.StableSort, SegmentOf, NonceOf, EntriesHomed;
    var segment := EventSegment(cfg, e);
    PutElsewhere(home, s.events, Entry(e.commitment, segment, |EntriesFor(s.events, segment)|, Some(NonceOf(e))), k);
  }

  lemma ResumedAcceptUndisturbed<H>(cfg: Config<H>, home: H -> Segment, sys: System<H>, call: nat, verified: bool)
    requires ValidConfig(cfg) && Inv(cfg, home, sys) && Undisturbed(cfg, sys) && call < |sys.accepting|
    requires Orderly(cfg, sys, ResumeAccept(call, verified))
    ensures var t := AfterVerification(cfg, sys.store, sys.accepting[call], verified).0;
      Undisturbed(cfg, sys.(store := t, accepting := Without(sys.accepting, call)))
  {
    hide NonceOf, EntriesFor, SegmentOf, IsFor, M.Root, Without, Put, StoreInv, EventHomed, EventSegment;
    var e, waiting := sys.accepting[call], Without(sys.accepting, call);
    var t := AfterVerification(cfg, sys.store, e, verified).0;
    WithoutLength(sys.accepting, call);
    forall d | d in waiting ensures NonceOf(d) !in t.nonces {
      var j :| 0 <= j < |waiting| && waiting[j] == d;
      WithoutAt(sys.accepting, call, j);
    }
    forall i, j | 0 <= i < j < |waiting| ensures NonceOf(waiting[i]) != NonceOf(waiting[j]) {
      WithoutAt(sys.accepting, call, i);
      WithoutAt(sys.accepting, call, j);
    }
    forall p | p in sys.submitting ensures IsCurrent(cfg, t, p.segment, p.sent.body) {
      AddedElsewhere(cfg, home, sys.store, e, verified, p.segment);
    }
  }

  lemma WithoutLength<T>(s: seq<T>, i: nat)
    requires i < |s|
    ensures |Without(s, i)| == |s| - 1
  {
  }

  lemma SameEventsUndisturbed<H>(cfg: Config<H>, sys: System<H>, t: Store<H>, submitting: seq<Pending<H>>)
    requires Undisturbed(cfg, sys) && t.events == sys.store.events && t.nonces == sys.store.nonces
    requires forall p | p in submitting :: p in sys.submitting || IsCurrent(cfg, sys.store, p.segment, p.sent.body)
    ensures Undisturbed(cfg, System(t, sys.accepting, submitting))
  {
    hide NonceOf, EntriesFor, IsFor, M.Root;
  }

  /** An orderly step keeps everything: numbering, nonces, roots, and what the waiting calls were started on. */
  lemma OrderlyStepKeeps<H>(cfg: Config<H>, home: H -> Segment, nonceOf: H -> NonceKey, sys: System<H>, a: Action<H>)
    requires ValidConfig(cfg) && Always(cfg, home, nonceOf, sys) && SerialInv(cfg, nonceOf, sys.store)
    requires Undisturbed(cfg, sys) && Orderly(cfg, sys, a)
    ensures SerialInv(cfg, nonceOf, Execute(cfg, sys, a).store) && Undisturbed(cfg, Execute(cfg, sys, a))
  {
    hide SerialInv, AfterVerification, AfterSettlement, AcceptObject, CheckpointOf, StoreInv, EventHomed, NonceOf,
        BeforeVerification,
      Undisturbed, IsCurrent, StepFits, WouldAdd, EventSegment;
    OrderlyFits(cfg, home, nonceOf, sys, a);
    StepIsExact(cfg, home, nonceOf, sys, a);
    match a
    case BeginAccept(e, now) =>
      if BeforeVerification(cfg, sys.store, e, now).None? { BegunAcceptUndisturbed(cfg, sys, e, now); }
    case ResumeAccept(call, verified) =>
      if call < |sys.accepting| { ResumedAcceptUndisturbed(cfg, home, sys, call, verified); }
    case AddObject(kind, commitment, time, owner) =>
      ObjectKeepsEvents(cfg, sys.store, kind, commitment, time, owner);
      SameEventsUndisturbed(cfg, sys, AcceptObject(cfg, sys.store, kind, commitment, time, owner).0, sys.submitting);
    case BeginSubmit(segment) =>
      SentIsCurrent(cfg, nonceOf, sys.store, segment);
      SameEventsUndisturbed(cfg, sys, sys.store,
          sys.submitting + [Pending(segment, CheckpointOf(cfg, sys.store, segment))]);
    case ResumeSubmit(call, reply) =>
      if call < |sys.submitting| {
        SameEventsUndisturbed(cfg, sys, sys.store, Without(sys.submitting, call));
        if reply.Some? {
          var t := AfterSettlement(cfg, sys.store, sys.submitting[call].segment, reply.value).0;
          SettlementKeepsEvents(cfg, sys.store, sys.submitting[call].segment, reply.value);
          SameEventsUndisturbed(cfg, sys, t, Without(sys.submitting, call));
        }
      }
  }

  lemma ObjectKeepsEvents<H>(cfg: Config<H>, s: Store<H>, kind: Kind, commitment: H, time: int, owner: Text)
    requires ValidConfig(cfg)
    ensures var t := AcceptObject(cfg, s, kind, commitment, time, owner).0; t.events == s.events && t.nonces == s.nonces
  {
    hide Put, EntriesFor;
  }

  lemma SettlementKeepsEvents<H>(cfg: Config<H>, s: Store<H>, segment: Segment, reply: C.Checkpoint<H>)
    ensures var t := AfterSettlement(cfg, s, segment, reply).0; t.events == s.events && t.nonces == s.nonces
  {
    hide GetSettled, PutSettled, EntriesFor;
  }

  lemma SentIsCurrent<H>(cfg: Config<H>, nonceOf: H -> NonceKey, s: Store<H>, segment: Segment)
    requires SerialInv(cfg, nonceOf, s)
    ensures IsCurrent(cfg, s, segment, CheckpointOf(cfg, s, segment).body)
  {
    hide CheckpointOf, EntriesFor, M.Root, RootsRecorded;
    SubmittedRoot(cfg, s, segment);
  }

  ghost predicate OrderlyAt<H>(cfg: Config<H>, home: H -> Segment, nonceOf: H -> NonceKey, actions: seq<Action<H>>,
      i: nat)
    requires ValidConfig(cfg) && AllFixed(cfg, home, nonceOf, actions) && i < |actions|
  {
    Orderly(cfg, After(cfg, home, nonceOf, actions[..i]), actions[i])
  }

  /** After every orderly interleaving the log is numbered, no nonce key is used twice, and every settled
      checkpoint has the root of the events it closed. */
  lemma {:induction false} OrderlyRunsKeepInv<H>(cfg: Config<H>, home: H -> Segment, nonceOf: H -> NonceKey,
      actions: seq<Action<H>>, n: nat)
    requires ValidConfig(cfg) && AllFixed(cfg, home, nonceOf, actions) && n <= |actions|
    requires forall i: nat | i < n :: OrderlyAt(cfg, home, nonceOf, actions, i)
    ensures var sys := After(cfg, home, nonceOf, actions[..n]);
      SerialInv(cfg, nonceOf, sys.store) && Undisturbed(cfg, sys)
  {
    hide Execute, Always, Fixed, SerialInv, Undisturbed, Orderly, After;
    if n == 0 {
      UndisturbedAtStart(cfg, home, nonceOf);
      assert actions[..0] == [];
    } else {
      OrderlyRunsKeepInv(cfg, home, nonceOf, actions, n - 1);
      assert OrderlyAt(cfg, home, nonceOf, actions, n - 1);
      AfterStep(cfg, home, nonceOf, actions, n - 1);
      OrderlyStepKeeps(cfg, home, nonceOf, After(cfg, home, nonceOf, actions[..n - 1]), actions[n - 1]);
    }
  }

  lemma UndisturbedAtStart<H>(cfg: Config<H>, home: H -> Segment, nonceOf: H -> NonceKey)
    requires ValidConfig(cfg)
    ensures var sys := After(cfg, home, nonceOf, []); SerialInv(cfg, nonceOf, sys.store) && Undisturbed(cfg, sys)
  {
    hide SerialInv;
    EmptySerialInv(cfg, nonceOf);
  }

  // ---------- Whole calls ----------

  /** The actions of a call that runs from its beginning to its end. */
  ghost function ActionsOf<H>(cfg: Config<H>, s: Store<H>, call: Call<H>): seq<Action<H>> {
    match call
    case AcceptCall(e, now, verified) => [BeginAccept(e, now), ResumeAccept(0, verified)]
    case ObjectCall(kind, commitment, time, owner) => [AddObject(kind, commitment, time, owner)]
    case SubmitCall(segment, tx, identity, answered) =>
      var reply := ReplyTo(CheckpointOf(cfg, s, segment), tx, identity);
      [BeginSubmit(segment), ResumeSubmit(0, if answered then Some(reply) else None)]
  }

  /** A whole call is its actions one after the other: what it refuses at its beginning stays refused. */
  lemma CallIsItsActions<H>(cfg: Config<H>, s: Store<H>, call: Call<H>)
    requires ValidConfig(cfg)
    ensures var actions := ActionsOf(cfg, s, call);
      var begun := Execute(cfg, Idle(s), actions[0]);
      && (forall e | e in begun.accepting :: e.time.Some?)
      && Idle(Perform(cfg, s, call)) == if |actions| == 1 then begun else Execute(cfg, begun, actions[1])
  {
    hide AfterVerification, AfterSettlement, AcceptObject, CheckpointOf, NonceOf;
  }

  /** Both actions of a whole call are orderly. */
  lemma WholeCallIsOrderly<H>(cfg: Config<H>, s: Store<H>, call: Call<H>)
    requires ValidConfig(cfg)
    ensures var actions := ActionsOf(cfg, s, call);
      var begun := Execute(cfg, Idle(s), actions[0]);
      && Orderly(cfg, Idle(s), actions[0])
      && (forall e | e in begun.accepting :: e.time.Some?)
      && (|actions| == 2 ==> Orderly(cfg, begun, actions[1]))
  {
    hide AfterVerification, AfterSettlement, AcceptObject, CheckpointOf, NonceOf, WouldAdd;
  }

  /** The actions of a run of whole calls. */
  ghost function RunOf<H>(cfg: Config<H>, calls: seq<Call<H>>): seq<Action<H>>
    requires ValidConfig(cfg)
  {
    if calls == [] then [] else
      var before := calls[..|calls| - 1];
      RunOf(cfg, before) + ActionsOf(cfg, PerformAll(cfg, before), calls[|calls| - 1])
  }

  lemma AfterLast<H>(cfg: Config<H>, home: H -> Segment, nonceOf: H -> NonceKey, actions: seq<Action<H>>, a: Action<H>)
    requires ValidConfig(cfg) && AllFixed(cfg, home, nonceOf, actions + [a])
    ensures AllFixed(cfg, home, nonceOf, actions)
    ensures After(cfg, home, nonceOf, actions + [a]) == Execute(cfg, After(cfg, home, nonceOf, actions), a)
  {
    hide Execute, Always, Fixed;
    assert (actions + [a])[..|actions|] == actions;
  }

  /** A run of whole calls is a run of actions: the two semantics of the store agree. */
  lemma {:induction false} CallsAreRuns<H>(cfg: Config<H>, home: H -> Segment, nonceOf: H -> NonceKey,
      calls: seq<Call<H>>)
    requires ValidConfig(cfg) && AllFixed(cfg, home, nonceOf, RunOf(cfg, calls))
    ensures After(cfg, home, nonceOf, RunOf(cfg, calls)) == Idle(PerformAll(cfg, calls))
  {
    hide Execute, Always, Fixed, Perform;
    if calls != [] {
      var before, call := calls[..|calls| - 1], calls[|calls| - 1];
      var run, s := RunOf(cfg, before), PerformAll(cfg, before);
      var actions := ActionsOf(cfg, s, call);
      CallsAreRuns(cfg, home, nonceOf, before);
      CallIsItsActions(cfg, s, call);
      if |actions| == 1 {
        assert actions == [actions[0]];
        AfterLast(cfg, home, nonceOf, run, actions[0]);
      } else {
        assert run + actions == run + [actions[0]] + [actions[1]];
        AfterLast(cfg, home, nonceOf, run + [actions[0]], actions[1]);
        AfterLast(cfg, home, nonceOf, run, actions[0]);
      }
    }
  }

  /** Every action of a run of whole calls is orderly. */
  lemma {:induction false} WholeCallsAreOrderly<H>(cfg: Config<H>, home: H -> Segment, nonceOf: H -> NonceKey,
      calls: seq<Call<H>>, i: nat)
    requires ValidConfig(cfg) && AllFixed(cfg, home, nonceOf, RunOf(cfg, calls)) && i < |RunOf(cfg, calls)|
    ensures OrderlyAt(cfg, home, nonceOf, RunOf(cfg, calls), i)
  {
    hide Execute, Always, Fixed, Perform, Orderly;
    var before, call := calls[..|calls| - 1], calls[|calls| - 1];
    var run, all, s := RunOf(cfg, before), RunOf(cfg, calls), PerformAll(cfg, before);
    var actions := ActionsOf(cfg, s, call);
    assert all == run + actions;
    if i < |run| {
      WholeCallsAreOrderly(cfg, home, nonceOf, before, i);
      assert all[..i] == run[..i] && all[i] == run[i];
    } else {
      CallsAreRuns(cfg, home, nonceOf, before);
      WholeCallIsOrderly(cfg, s, call);
      assert all[..|run|] == run;
      if i > |run| {
        assert all[..i] == run + [actions[0]];
        AfterLast(cfg, home, nonceOf, run, actions[0]);
      }
    }
  }

  // ---------- Two runs that do not fit ----------

  /** One event offered twice before the first offer is verified ends as a single event numbered 1, past the
      end of its list, so that no proof can be built for it. */
  lemma OfferedTwice<H>(cfg: Config<H>, e: Event<H>, now: int)
    requires ValidConfig(cfg) && BeforeVerification(cfg, EmptyStore(), e, now).None?
    ensures e.time.Some?
    ensures var begun := Execute(cfg, Idle(EmptyStore()), BeginAccept(e, now));
      var both := Execute(cfg, begun, BeginAccept(e, now));
      both == System(EmptyStore(), [e, e], [])
    ensures var first := Execute(cfg, System(EmptyStore(), [e, e], []), ResumeAccept(0, true));
      first.accepting == [e] &&
      var s := Execute(cfg, first, ResumeAccept(0, true)).store;
      && s.events == [Entry(e.commitment, EventSegment(cfg, e), 1, Some(NonceOf(e)))]
      && |Commitments(EntriesFor(s.events, EventSegment(cfg, e)))| == 1
  {
    hide NonceOf, SegmentOf;
    var k := EventSegment(cfg, e);
    var one := [Entry(e.commitment, k, 0, Some(NonceOf(e)))];
    SingleEntry(one[0]);
    SingleEntry(Entry(e.commitment, k, 1, Some(NonceOf(e))));
  }

  lemma SingleEntry<H>(entry: Entry<H>)
    ensures EntriesFor([entry], entry.segment) == [entry]
    ensures EntriesFor<H>([], entry.segment) == []
  {
    assert InSegment([entry], entry.segment) == [entry];
    Sorting.SortOfSorted(LogIndex, [entry]);
  }

  /** An event accepted between the sending of its segment's checkpoint and the reply is closed under a root
      that does not cover it. */
  lemma AcceptedLate<H>(cfg: Config<H>, e: Event<H>, now: int)
    requires ValidConfig(cfg) && BeforeVerification(cfg, EmptyStore(), e, now).None? && cfg.backend.Some?
    requires cfg.merkle(M.LeafQuery(0, e.commitment)) != cfg.zero
    ensures e.time.Some?
    ensures var k := EventSegment(cfg, e);
      var sent := Execute(cfg, Idle(EmptyStore()), BeginSubmit(k));
      sent.submitting != [] &&
      var begun := Execute(cfg, sent, BeginAccept(e, now));
      begun.accepting == [e] &&
      var added := Execute(cfg, begun, ResumeAccept(0, true));
      added.accepting == [] &&
      var s := Execute(cfg, added, ResumeSubmit(0, Some(sent.submitting[0].sent))).store;
      && k in s.closed && s.closed[k] == [e.commitment]
      && GetSettled(s.settled, k).Some?
      && GetSettled(s.settled, k).value.body.eventRoot != M.Root(cfg.merkle, cfg.zero, s.closed[k])
  {
    hide NonceOf, SegmentOf, PreviousCheckpointHash, M.Root, EntriesFor;
    var k := EventSegment(cfg, e);
    var entry := Entry(e.commitment, k, 0, Some(NonceOf(e)));
    SingleEntry(entry);
    assert Commitments(EntriesFor([entry], k)) == [e.commitment] && Commitments(EntriesFor<H>([], k)) == [];
    var sent := CheckpointOf(cfg, EmptyStore(), k);
    assert GetSettled<H>([], k) == None && sent.body.eventRoot == M.Root(cfg.merkle, cfg.zero, []);
    assert PutSettled([], k, sent) == [Settled(k, sent)] && GetSettled([Settled(k, sent)], k) == Some(sent);
    var waiting := [Pending(k, sent)];
    assert Execute(cfg, Idle(EmptyStore()), BeginSubmit(k)) == System(EmptyStore(), [], waiting);
    assert Execute(cfg, System(EmptyStore(), [], waiting), BeginAccept(e, now)) == System(EmptyStore(), [e], waiting);
    var added := EmptyStore().(nonces := {NonceOf(e)}, events := [entry]);
    assert AfterVerification(cfg, EmptyStore(), e, true).0 == added;
    assert Execute(cfg, System(EmptyStore(), [e], waiting), ResumeAccept(0, true)) == System(added, [], waiting);
    var settled := added.(closed := map[k := [e.commitment]], settled := [Settled(k, sent)]);
    assert Execute(cfg, System(added, [], waiting), ResumeSubmit(0, Some(sent))).store == settled;
    SmallRoots(cfg, e.commitment);
  }

  lemma SmallRoots<H>(cfg: Config<H>, commitment: H)
    ensures M.Root(cfg.merkle, cfg.zero, []) == cfg.zero
    ensures M.Root(cfg.merkle, cfg.zero, [commitment]) == cfg.merkle(M.LeafQuery(0, commitment))
  {
    M.TopShape(cfg.merkle, [commitment], 0);
  }
}
