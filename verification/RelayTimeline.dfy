/** Which interleavings keep the log numbered, nonces unique and settled roots right, in terms of what happened
    between the beginning and the end of each call. */
module RelayTimeline {
  import opened Wrappers
  import opened Hashing
  import opened Text
  import opened RelayStore
  import opened RelaySchedules
  import Sorting
  import M = MerkleLog
  import C = Consistency

  datatype Run<!H> = Run(cfg: Config<H>, home: H -> Segment, nonceOf: H -> NonceKey, actions: seq<Action<H>>)

  ghost predicate IsRun<H>(run: Run<H>) {
    ValidConfig(run.cfg) && AllFixed(run.cfg, run.home, run.nonceOf, run.actions)
  }

  /** The system before action n. */
  ghost function At<H>(run: Run<H>, n: nat): (sys: System<H>)
    requires IsRun(run) && n <= |run.actions|
    ensures Always(run.cfg, run.home, run.nonceOf, sys)
    ensures forall e | e in sys.accepting :: e.time.Some?
  {
    After(run.cfg, run.home, run.nonceOf, run.actions[..n])
  }

  lemma AtStep<H>(run: Run<H>, i: nat)
    requires IsRun(run) && i < |run.actions|
    ensures At(run, i + 1) == Execute(run.cfg, At(run, i), run.actions[i])
  {
    hide After, Always, AllFixed, Execute;
    AfterStep(run.cfg, run.home, run.nonceOf, run.actions, i);
  }

  lemma AtStart<H>(run: Run<H>)
    requires IsRun(run)
    ensures At(run, 0) == Idle(EmptyStore())
  {
    hide Always, Fixed;
    assert run.actions[..0] == [];
  }

  /** Numbering, nonces and roots hold before each of the first n actions and after them. */
  ghost predicate Sound<H>(run: Run<H>, n: nat)
    requires IsRun(run) && n <= |run.actions|
  {
    forall i: nat | i <= n :: SerialInv(run.cfg, run.nonceOf, At(run, i).store)
  }

  // ---------- When a waiting call began ----------

  /** The place that a waiting accept had before an action, unless the action began it. */
  function AcceptPlaceBefore<H>(before: System<H>, a: Action<H>, place: nat): Option<nat> {
    match a
    case BeginAccept(_, _) => if place == |before.accepting| then None else Some(place)
    case ResumeAccept(call, _) => Some(if call < |before.accepting| && call <= place then place + 1 else place)
    case _ => Some(place)
  }

  lemma AcceptPlaceIs<H>(cfg: Config<H>, before: System<H>, a: Action<H>, place: nat)
    requires ValidConfig(cfg) && (forall e | e in before.accepting :: e.time.Some?)
    requires place < |Execute(cfg, before, a).accepting|
    ensures var e, p := Execute(cfg, before, a).accepting[place], AcceptPlaceBefore(before, a, place);
      && (p.Some? ==> p.value < |before.accepting| && before.accepting[p.value] == e)
      && (p.None? ==> a.BeginAccept? && a.event == e && BeforeVerification(cfg, before.store, e, a.now).None?)
  {
    hide AfterVerification, AfterSettlement, AcceptObject, CheckpointOf, BeforeVerification;
  }

  /** The action that began the accept waiting at a place before action n. */
  ghost function AcceptBegan<H>(run: Run<H>, n: nat, place: nat): nat
    requires IsRun(run) && n <= |run.actions| && place < |At(run, n).accepting|
  {
    if n == 0 then 0 else
      AtStep(run, n - 1);
      AcceptPlaceIs(run.cfg, At(run, n - 1), run.actions[n - 1], place);
      var earlier := AcceptPlaceBefore(At(run, n - 1), run.actions[n - 1], place);
      if earlier.None? then n - 1 else AcceptBegan(run, n - 1, earlier.value)
  }

  lemma {:induction false} AcceptBeganIs<H>(run: Run<H>, n: nat, place: nat)
    requires IsRun(run) && n <= |run.actions| && place < |At(run, n).accepting|
    ensures var b, e := AcceptBegan(run, n, place), At(run, n).accepting[place];
      b < n && run.actions[b].BeginAccept? && run.actions[b].event == e && NonceOf(e) !in At(run, b).store.nonces
  {
    hide At, Execute, Always, NonceOf, AcceptPlaceBefore;
    if n == 0 {
      AtStart(run);
    } else {
      AtStep(run, n - 1);
      AcceptPlaceIs(run.cfg, At(run, n - 1), run.actions[n - 1], place);
      var earlier := AcceptPlaceBefore(At(run, n - 1), run.actions[n - 1], place);
      if earlier.Some? { AcceptBeganIs(run, n - 1, earlier.value); }
    }
  }

  /** The place that a waiting submit had before an action, unless the action began it. */
  function SubmitPlaceBefore<H>(before: System<H>, a: Action<H>, place: nat): Option<nat> {
    match a
    case BeginSubmit(_) => if place == |before.submitting| then None else Some(place)
    case ResumeSubmit(call, _) => Some(if call < |before.submitting| && call <= place then place + 1 else place)
    case _ => Some(place)
  }

  lemma SubmitPlaceIs<H>(cfg: Config<H>, before: System<H>, a: Action<H>, place: nat)
    requires ValidConfig(cfg) && (forall e | e in before.accepting :: e.time.Some?)
    requires place < |Execute(cfg, before, a).submitting|
    ensures var q, p := Execute(cfg, before, a).submitting[place], SubmitPlaceBefore(before, a, place);
      && (p.Some? ==> p.value < |before.submitting| && before.submitting[p.value] == q)
      && (p.None? ==> a == BeginSubmit(q.segment) && q.sent == CheckpointOf(cfg, before.store, q.segment))
  {
    hide AfterVerification, AfterSettlement, AcceptObject, CheckpointOf, BeforeVerification;
  }

  /** The action that began the submit waiting at a place before action n. */
  ghost function SubmitBegan<H>(run: Run<H>, n: nat, place: nat): nat
    requires IsRun(run) && n <= |run.actions| && place < |At(run, n).submitting|
  {
    if n == 0 then 0 else
      AtStep(run, n - 1);
      SubmitPlaceIs(run.cfg, At(run, n - 1), run.actions[n - 1], place);
      var earlier := SubmitPlaceBefore(At(run, n - 1), run.actions[n - 1], place);
      if earlier.None? then n - 1 else SubmitBegan(run, n - 1, earlier.value)
  }

  lemma {:induction false} SubmitBeganIs<H>(run: Run<H>, n: nat, place: nat)
    requires IsRun(run) && n <= |run.actions| && place < |At(run, n).submitting|
    ensures var b, q := SubmitBegan(run, n, place), At(run, n).submitting[place];
      && b < n && run.actions[b] == BeginSubmit(q.segment)
      && q.sent == CheckpointOf(run.cfg, At(run, b).store, q.segment)
  {
    hide At, Execute, Always, CheckpointOf, SubmitPlaceBefore;
    if n == 0 {
      AtStart(run);
    } else {
      AtStep(run, n - 1);
      SubmitPlaceIs(run.cfg, At(run, n - 1), run.actions[n - 1], place);
      var earlier := SubmitPlaceBefore(At(run, n - 1), run.actions[n - 1], place);
      if earlier.Some? { SubmitBeganIs(run, n - 1, earlier.value); }
    }
  }

  // ---------- What happened in between ----------

  /** Action i adds an event to the log. */
  ghost predicate Adds<H>(run: Run<H>, i: nat)
    requires IsRun(run) && i < |run.actions|
  {
    var sys, a := At(run, i), run.actions[i];
    a.ResumeAccept? && a.call < |sys.accepting| && WouldAdd(run.cfg, sys.store, sys.accepting[a.call], a.verified)
  }

  ghost function Added<H>(run: Run<H>, i: nat): Event<H>
    requires IsRun(run) && i < |run.actions| && Adds(run, i)
  {
    At(run, i).accepting[run.actions[i].call]
  }

  ghost predicate AddsNonce<H>(run: Run<H>, i: nat, key: NonceKey)
    requires IsRun(run) && i < |run.actions|
  {
    Adds(run, i) && NonceOf(Added(run, i)) == key
  }

  ghost predicate AddsTo<H>(run: Run<H>, i: nat, k: Segment)
    requires IsRun(run) && i < |run.actions|
  {
    Adds(run, i) && EventSegment(run.cfg, Added(run, i)) == k
  }

  /** An event with this nonce key is added from action b on and before action n. */
  ghost predicate NonceUsedBetween<H>(run: Run<H>, b: nat, n: nat, key: NonceKey)
    requires IsRun(run) && n <= |run.actions|
  {
    exists i: nat | b <= i < n :: AddsNonce(run, i, key)
  }

  /** An event of this segment is added from action b on and before action n. */
  ghost predicate AddedBetween<H>(run: Run<H>, b: nat, n: nat, k: Segment)
    requires IsRun(run) && n <= |run.actions|
  {
    exists i: nat | b <= i < n :: AddsTo(run, i, k)
  }

  lemma NonceStep<H>(cfg: Config<H>, sys: System<H>, a: Action<H>, key: NonceKey)
    requires ValidConfig(cfg) && (forall e | e in sys.accepting :: e.time.Some?)
    ensures key in Execute(cfg, sys, a).store.nonces <==>
      || key in sys.store.nonces
      || (a.ResumeAccept? && a.call < |sys.accepting| && WouldAdd(cfg, sys.store, sys.accepting[a.call], a.verified)
          && NonceOf(sys.accepting[a.call]) == key)
  {
    hide EntriesFor, Put, GetSettled, PutSettled, CheckpointOf, NonceOf, SegmentOf, BeforeVerification, AcceptObject;
    if a.AddObject? { ObjectKeepsEvents(cfg, sys.store, a.kind, a.commitment, a.time, a.owner); }
  }

  lemma {:induction false} NoncesGrow<H>(run: Run<H>, b: nat, n: nat, key: NonceKey)
    requires IsRun(run) && b <= n <= |run.actions|
    ensures key in At(run, n).store.nonces <==> key in At(run, b).store.nonces || NonceUsedBetween(run, b, n, key)
    decreases n - b
  {
    hide At, Execute, Always, NonceOf, WouldAdd;
    if b < n {
      NoncesGrow(run, b, n - 1, key);
      AtStep(run, n - 1);
      NonceStep(run.cfg, At(run, n - 1), run.actions[n - 1], key);
      assert NonceUsedBetween(run, b, n, key) <==> NonceUsedBetween(run, b, n - 1, key) || AddsNonce(run, n - 1, key);
    }
  }

  /** The commitments of a segment before action n. */
  ghost function ListAt<H>(run: Run<H>, n: nat, k: Segment): seq<H>
    requires IsRun(run) && n <= |run.actions|
  {
    Commitments(EntriesFor(At(run, n).store.events, k))
  }

  /** An event that is rightly added makes its segment's list longer. */
  lemma FreshIsLonger<H>(cfg: Config<H>, nonceOf: H -> NonceKey, s: Store<H>, e: Event<H>)
    requires ValidConfig(cfg) && SerialInv(cfg, nonceOf, s) && nonceOf(e.commitment) == NonceOf(e)
    requires e.time.Some? && WouldAdd(cfg, s, e, true) && NonceOf(e) !in s.nonces
    ensures var k := EventSegment(cfg, e);
      |EntriesFor(AfterVerification(cfg, s, e, true).0.events, k)| == |EntriesFor(s.events, k)| + 1
  {
    hide InSegment, Put, RootsRecorded, SegmentOf, NonceOf, Sorting.StableSort;
    var k := EventSegment(cfg, e);
    var entry := Entry(e.commitment, k, |EntriesFor(s.events, k)|, Some(NonceOf(e)));
    EventIsAppended(nonceOf, s, entry);
    AppendInSegment(s.events, entry, k);
    Sorting.SortKeepsMembers(LogIndex, InSegment(s.events, k));
    Sorting.SortKeepsMembers(LogIndex, InSegment(s.events + [entry], k));
  }

  /** A step that keeps the log sound lengthens the list of the segment it adds to, and changes no other. */
  lemma ListStep<H>(cfg: Config<H>, home: H -> Segment, nonceOf: H -> NonceKey, sys: System<H>, a: Action<H>,
      k: Segment)
    requires ValidConfig(cfg) && Always(cfg, home, nonceOf, sys)
    requires SerialInv(cfg, nonceOf, sys.store) && SerialInv(cfg, nonceOf, Execute(cfg, sys, a).store)
    ensures var adds := a.ResumeAccept? && a.call < |sys.accepting|
        && WouldAdd(cfg, sys.store, sys.accepting[a.call], a.verified) && EventSegment(cfg, sys.accepting[a.call]) == k;
      var before, after := EntriesFor(sys.store.events, k), EntriesFor(Execute(cfg, sys, a).store.events, k);
      && (adds ==> |after| == |before| + 1)
      && (!adds ==> after == before)
  {
    hide AfterVerification, AfterSettlement, AcceptObject, CheckpointOf, StoreInv, EventHomed, NonceOf, SerialInv,
      BeforeVerification, EntriesFor, EventSegment, IsCurrent, WouldSettle;
    StepIsExact(cfg, home, nonceOf, sys, a);
    match a
    case ResumeAccept(call, verified) =>
      if call < |sys.accepting| {
        var e := sys.accepting[call];
        if WouldAdd(cfg, sys.store, e, verified) && EventSegment(cfg, e) == k {
          FreshIsLonger(cfg, nonceOf, sys.store, e);
        } else {
          AddedElsewhere(cfg, home, sys.store, e, verified, k);
        }
      }
    case AddObject(kind, commitment, time, owner) =>
      ObjectKeepsEvents(cfg, sys.store, kind, commitment, time, owner);
    case ResumeSubmit(call, reply) =>
      if call < |sys.submitting| && reply.Some? {
        SettlementKeepsEvents(cfg, sys.store, sys.submitting[call].segment, reply.value);
      }
    case _ =>
  }

  /** In a sound run a segment's list stays the same exactly as long as no event is added to it. */
  lemma {:induction false} ListStays<H>(run: Run<H>, b: nat, n: nat, k: Segment)
    requires IsRun(run) && b <= n <= |run.actions| && Sound(run, n)
    ensures !AddedBetween(run, b, n, k) ==> ListAt(run, n, k) == ListAt(run, b, k)
    ensures |ListAt(run, b, k)| <= |ListAt(run, n, k)|
    ensures AddedBetween(run, b, n, k) ==> |ListAt(run, b, k)| < |ListAt(run, n, k)|
    decreases n - b
  {
    hide At, Execute, Always, EntriesFor, WouldAdd, EventSegment, SerialInv;
    if b < n {
      ListStays(run, b, n - 1, k);
      AtStep(run, n - 1);
      assert SerialInv(run.cfg, run.nonceOf, At(run, n - 1).store) && SerialInv(run.cfg, run.nonceOf, At(run, n).store);
      ListStep(run.cfg, run.home, run.nonceOf, At(run, n - 1), run.actions[n - 1], k);
      assert AddedBetween(run, b, n, k) <==> AddedBetween(run, b, n - 1, k) || AddsTo(run, n - 1, k);
    }
  }

  // ---------- The exact condition on the schedule ----------

  /** A checkpoint made from one store is current in another exactly if the segment holds the same events. */
  lemma CurrentMeansSame<H>(cfg: Config<H>, nonceOf: H -> NonceKey, s: Store<H>, t: Store<H>, k: Segment)
    requires SerialInv(cfg, nonceOf, s)
    requires var old', new' := Commitments(EntriesFor(s.events, k)), Commitments(EntriesFor(t.events, k));
      CollisionFree(cfg.merkle, cfg.zero, M.LogQueries(cfg.merkle, old') + M.LogQueries(cfg.merkle, new'))
    ensures IsCurrent(cfg, t, k, CheckpointOf(cfg, s, k).body) <==>
      Commitments(EntriesFor(s.events, k)) == Commitments(EntriesFor(t.events, k))
  {
    hide EntriesFor, CheckpointOf, M.Root, M.LogQueries, SerialInv, CollisionFree;
    SentIsCurrent(cfg, nonceOf, s, k);
    var old', new' := Commitments(EntriesFor(s.events, k)), Commitments(EntriesFor(t.events, k));
    if M.Root(cfg.merkle, cfg.zero, old') == M.Root(cfg.merkle, cfg.zero, new') {
      M.RootBindsList(cfg.merkle, cfg.zero, old', new');
    }
  }

  /** The backend changes nothing that is hashed of what was sent to it. */
  ghost predicate FaithfulAt<H>(run: Run<H>, i: nat)
    requires IsRun(run) && i < |run.actions|
  {
    var sys, a := At(run, i), run.actions[i];
    a.ResumeSubmit? && a.call < |sys.submitting| && a.reply.Some? ==>
      a.reply.value.body == sys.submitting[a.call].sent.body
  }

  /** Everything hashed for the event logs along the run. */
  ghost predicate HashesWithin<H(!new)>(run: Run<H>, queries: set<M.Query<H>>)
    requires IsRun(run)
  {
    forall n: nat, k: Segment | n <= |run.actions| :: M.LogQueries(run.cfg.merkle, ListAt(run, n, k)) <= queries
  }

  /** Nothing a resumed call relies on happened while it waited: no event with the nonce key of an event it adds
      was added since it began, and no event of the segment whose reply it stores. */
  ghost predicate InTime<H>(run: Run<H>, i: nat)
    requires IsRun(run) && i < |run.actions|
  {
    var sys := At(run, i);
    match run.actions[i]
    case ResumeAccept(call, verified) =>
      call < |sys.accepting| && WouldAdd(run.cfg, sys.store, sys.accepting[call], verified) ==>
        !NonceUsedBetween(run, AcceptBegan(run, i, call), i, NonceOf(sys.accepting[call]))
    case ResumeSubmit(call, reply) =>
      call < |sys.submitting| && reply.Some?
      && WouldSettle(run.cfg, sys.store, sys.submitting[call].segment, reply.value) ==>
        !AddedBetween(run, SubmitBegan(run, i, call), i, sys.submitting[call].segment)
    case _ => true
  }

  lemma AcceptInTime<H>(run: Run<H>, i: nat, call: nat)
    requires IsRun(run) && i <= |run.actions| && call < |At(run, i).accepting|
    ensures NonceOf(At(run, i).accepting[call]) in At(run, i).store.nonces <==>
      NonceUsedBetween(run, AcceptBegan(run, i, call), i, NonceOf(At(run, i).accepting[call]))
  {
    hide At, AcceptBegan, NonceOf, NonceUsedBetween;
    AcceptBeganIs(run, i, call);
    NoncesGrow(run, AcceptBegan(run, i, call), i, NonceOf(At(run, i).accepting[call]));
  }

  lemma SubmitInTime<H(!new)>(run: Run<H>, i: nat, call: nat, queries: set<M.Query<H>>)
    requires IsRun(run) && i <= |run.actions| && call < |At(run, i).submitting| && Sound(run, i)
    requires HashesWithin(run, queries) && CollisionFree(run.cfg.merkle, run.cfg.zero, queries)
    ensures var q := At(run, i).submitting[call];
      IsCurrent(run.cfg, At(run, i).store, q.segment, q.sent.body) <==>
      !AddedBetween(run, SubmitBegan(run, i, call), i, q.segment)
  {
    hide At, SubmitBegan, AddedBetween, IsCurrent, CheckpointOf, EntriesFor, SerialInv, M.LogQueries;
    SubmitBeganIs(run, i, call);
    var b, k := SubmitBegan(run, i, call), At(run, i).submitting[call].segment;
    assert SerialInv(run.cfg, run.nonceOf, At(run, b).store);
    assert M.LogQueries(run.cfg.merkle, ListAt(run, b, k)) <= queries;
    assert M.LogQueries(run.cfg.merkle, ListAt(run, i, k)) <= queries;
    CurrentMeansSame(run.cfg, run.nonceOf, At(run, b).store, At(run, i).store, k);
    ListStays(run, b, i, k);
  }

  lemma InTimeIsFit<H(!new)>(run: Run<H>, i: nat, queries: set<M.Query<H>>)
    requires IsRun(run) && i < |run.actions| && Sound(run, i) && FaithfulAt(run, i)
    requires HashesWithin(run, queries) && CollisionFree(run.cfg.merkle, run.cfg.zero, queries)
    ensures StepFits(run.cfg, At(run, i), run.actions[i]) <==> InTime(run, i)
  {
    hide At, AcceptBegan, SubmitBegan, AddedBetween, NonceUsedBetween, NonceOf, WouldAdd, WouldSettle, Sound,
      HashesWithin, CollisionFree, M.Root, EntriesFor, IsFor;
    match run.actions[i]
    case ResumeAccept(call, _) =>
      if call < |At(run, i).accepting| { AcceptInTime(run, i, call); }
    case ResumeSubmit(call, reply) =>
      if call < |At(run, i).submitting| { SubmitInTime(run, i, call, queries); }
    case _ =>
  }

  lemma SoundIsExact<H>(run: Run<H>, n: nat)
    requires IsRun(run) && 0 < n <= |run.actions|
    ensures Sound(run, n) <==> Sound(run, n - 1) && StepFits(run.cfg, At(run, n - 1), run.actions[n - 1])
  {
    hide At, Execute, Always, SerialInv, StepFits;
    AtStep(run, n - 1);
    if Sound(run, n - 1) {
      assert SerialInv(run.cfg, run.nonceOf, At(run, n - 1).store);
      StepIsExact(run.cfg, run.home, run.nonceOf, At(run, n - 1), run.actions[n - 1]);
    }
  }

  /** Over every interleaving whose backend changes nothing that is hashed: the log stays numbered, nonces stay
      unique and settled roots stay right, all along the run, if and only if every action of it is in time. */
  lemma {:induction false} ScheduleIsExact<H(!new)>(run: Run<H>, n: nat, queries: set<M.Query<H>>)
    requires IsRun(run) && n <= |run.actions| && forall i: nat | i < n :: FaithfulAt(run, i)
    requires HashesWithin(run, queries) && CollisionFree(run.cfg.merkle, run.cfg.zero, queries)
    ensures Sound(run, n) <==> forall i: nat | i < n :: InTime(run, i)
  {
    hide At, Sound, InTime, StepFits, HashesWithin, CollisionFree;
    if n == 0 {
      SoundFromStart(run);
    } else {
      ScheduleIsExact(run, n - 1, queries);
      SoundIsExact(run, n);
      assert FaithfulAt(run, n - 1);
      if Sound(run, n - 1) { InTimeIsFit(run, n - 1, queries); }
      assert (forall i: nat | i < n :: InTime(run, i)) <==>
        (forall i: nat | i < n - 1 :: InTime(run, i)) && InTime(run, n - 1);
    }
  }

  lemma SoundFromStart<H>(run: Run<H>)
    requires IsRun(run)
    ensures Sound(run, 0)
  {
    hide SerialInv, At;
    AtStart(run);
    EmptySerialInv(run.cfg, run.nonceOf);
  }
}
