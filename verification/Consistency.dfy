/** Checkpoints, what of them is hashed, and proofs that a list of them is one hash chain. */
module Consistency {
  import opened Hashing
  import opened Wrappers
  import opened Text
  import opened Sorting

  /** The fields the checkpoint hash covers. */
  datatype Body<H> = Body(
    epochStart: int, epochDuration: int, shard: Text,
    eventRoot: H, receiptRoot: H, attestationRoot: H, revocationRoot: H,
    eventCount: nat, receiptCount: nat,
    previous: H, settlementBackend: Option<Text>, relayId: Text)

  datatype Checkpoint<H> = Checkpoint(
    body: Body<H>, identityHash: Option<H>, settlementTx: Option<Text>, relaySignature: Text)

  /** Signature, settlement transaction and identity hash do not enter the hash. */
  function CheckpointHash<H>(hash: Body<H> -> H, c: Checkpoint<H>): H {
    hash(c.body)
  }

  ghost function Bodies<H>(cs: seq<Checkpoint<H>>): seq<Body<H>> {
    seq(|cs|, i requires 0 <= i < |cs| => cs[i].body)
  }

  // ---------- Proofs ----------

  datatype Link<H> = Link(hash: H, previous: H, epochStart: int)

  /** `known` says that the type field is the expected one. */
  datatype Proof<H> = Proof(known: bool, shard: Text, from: H, to: H, chain: seq<Link<H>>)

  datatype Error = ChainTooShort | ShardMismatch

  function Epoch<H>(c: Checkpoint<H>): int {
    c.body.epochStart
  }

  function LinkOf<H>(hash: Body<H> -> H, c: Checkpoint<H>): Link<H> {
    Link(CheckpointHash(hash, c), c.body.previous, c.body.epochStart)
  }

  function BuildProof<H>(hash: Body<H> -> H, cs: seq<Checkpoint<H>>): Result<Proof<H>, Error> {
    if |cs| < 2 then Err(ChainTooShort) else
      var ordered := StableSort(Epoch, cs);
      SortKeepsMembers(Epoch, cs);
      var shard := ordered[0].body.shard;
      if exists i | 0 <= i < |ordered| :: ordered[i].body.shard != shard then Err(ShardMismatch) else
        var chain := seq(|ordered|, i requires 0 <= i < |ordered| => LinkOf(hash, ordered[i]));
        Ok(Proof(true, shard, CheckpointHash(hash, ordered[0]), CheckpointHash(hash, ordered[|ordered| - 1]), chain))
  }

  lemma SortedFrom<H>(cs: seq<Checkpoint<H>>, c: Checkpoint<H>)
    requires c in StableSort(Epoch, cs)
    ensures c in cs
  {
    SortKeepsMembers(Epoch, cs);
    assert c in multiset(StableSort(Epoch, cs));
  }

  /** A proof is built exactly for two or more checkpoints of one shard, and names that shard; which error is
      returned otherwise. */
  lemma BuildsExactly<H>(hash: Body<H> -> H, cs: seq<Checkpoint<H>>)
    ensures BuildProof(hash, cs).Ok? <==> |cs| >= 2 && forall c | c in cs :: c.body.shard == cs[0].body.shard
    ensures BuildProof(hash, cs) == Err(ChainTooShort) <==> |cs| < 2
    ensures BuildProof(hash, cs).Ok? ==> BuildProof(hash, cs).value.shard == cs[0].body.shard
  {
    hide StableSort;
    if |cs| >= 2 {
      SortKeepsMembers(Epoch, cs);
      var ordered := StableSort(Epoch, cs);
      assert ordered[0] in ordered && cs[0] in cs;
      if forall i | 0 <= i < |ordered| :: ordered[i].body.shard == ordered[0].body.shard {
        forall c | c in cs ensures c.body.shard == cs[0].body.shard {
          assert c in ordered && cs[0] in ordered;
        }
      }
      if forall c | c in cs :: c.body.shard == cs[0].body.shard {
        forall i | 0 <= i < |ordered| ensures ordered[i].body.shard == ordered[0].body.shard {
          SortedFrom(cs, ordered[i]);
          SortedFrom(cs, ordered[0]);
        }
      }
    }
  }

  /** Each link names the hash of the one before it, at a strictly later epoch. */
  ghost predicate Linked<H>(chain: seq<Link<H>>) {
    forall i | 0 < i < |chain| :: LinkedAt(chain, i)
  }

  ghost predicate LinkedAt<H>(chain: seq<Link<H>>, i: int)
    requires 0 < i < |chain|
  {
    chain[i].previous == chain[i - 1].hash && chain[i - 1].epochStart < chain[i].epochStart
  }

  ghost predicate Accepts<H>(proof: Proof<H>) {
    && proof.known
    && |proof.chain| >= 2
    && proof.chain[0].hash == proof.from
    && proof.chain[|proof.chain| - 1].hash == proof.to
    && Linked(proof.chain)
  }

  method VerifyProof<H(==)>(proof: Proof<H>) returns (ok: bool)
    ensures ok <==> Accepts(proof)
  {
    if !proof.known { return false; }
    var chain := proof.chain;
    if |chain| < 2 { return false; }
    if chain[0].hash != proof.from { return false; }
    if chain[|chain| - 1].hash != proof.to { return false; }
    for i := 1 to |chain|
      invariant forall j | 0 < j < i :: LinkedAt(chain, j)
    {
      if chain[i].previous != chain[i - 1].hash || chain[i].epochStart <= chain[i - 1].epochStart {
        assert !LinkedAt(chain, i);
        return false;
      }
    }
    return true;
  }

  // ---------- Chains of bodies ----------

  /** Each body names the hash of the one before it, at a strictly later epoch. */
  ghost predicate Chained<H>(hash: Body<H> -> H, bodies: seq<Body<H>>) {
    forall i | 0 < i < |bodies| :: ChainedAt(hash, bodies, i)
  }

  ghost predicate ChainedAt<H>(hash: Body<H> -> H, bodies: seq<Body<H>>, i: int)
    requires 0 < i < |bodies|
  {
    bodies[i].previous == hash(bodies[i - 1]) && bodies[i - 1].epochStart < bodies[i].epochStart
  }

  /** The bodies of a list of checkpoints in epoch order. */
  ghost function OrderedBodies<H>(cs: seq<Checkpoint<H>>): seq<Body<H>> {
    Bodies(StableSort(Epoch, cs))
  }

  lemma LinksOfBodies<H>(hash: Body<H> -> H, chain: seq<Link<H>>, bodies: seq<Body<H>>)
    requires |chain| == |bodies|
    requires forall i | 0 <= i < |chain| :: chain[i] == Link(hash(bodies[i]), bodies[i].previous, bodies[i].epochStart)
    ensures Linked(chain) <==> Chained(hash, bodies)
  {
    assert forall i | 0 < i < |chain| :: LinkedAt(chain, i) <==> ChainedAt(hash, bodies, i);
  }

  /** A built proof is accepted exactly when the checkpoints in epoch order form a chain. */
  lemma BuiltProofAccepted<H>(hash: Body<H> -> H, cs: seq<Checkpoint<H>>)
    requires BuildProof(hash, cs).Ok?
    ensures Accepts(BuildProof(hash, cs).value) <==> Chained(hash, OrderedBodies(cs))
    ensures |OrderedBodies(cs)| == |cs|
    ensures BuildProof(hash, cs).value.to == hash(OrderedBodies(cs)[|cs| - 1])
  {
    hide StableSort;
    SortKeepsMembers(Epoch, cs);
    LinksOfBodies(hash, BuildProof(hash, cs).value.chain, OrderedBodies(cs));
  }

  ghost function Members<H>(bodies: seq<Body<H>>): set<Body<H>> {
    set b | b in bodies
  }

  /** The last k bodies. */
  ghost function Last<H>(bodies: seq<Body<H>>, k: nat): seq<Body<H>>
    requires k <= |bodies|
  {
    bodies[|bodies| - k..]
  }

  /** Two chains with the same last hash agree m places before the end, as far as both reach. */
  lemma {:induction false} ChainsAgreeAt<H>(hash: Body<H> -> H, zero: H, a: seq<Body<H>>, b: seq<Body<H>>, m: nat)
    requires Chained(hash, a) && Chained(hash, b)
    requires m < |a| && m < |b| && hash(a[|a| - 1]) == hash(b[|b| - 1])
    requires CollisionFree(hash, zero, Members(a) + Members(b))
    ensures a[|a| - 1 - m] == b[|b| - 1 - m]
  {
    var i, j := |a| - 1 - m, |b| - 1 - m;
    assert a[i] in Members(a) && b[j] in Members(b);
    if m > 0 {
      ChainsAgreeAt(hash, zero, a, b, m - 1);
      assert ChainedAt(hash, a, i + 1) && ChainedAt(hash, b, j + 1);
    }
  }

  lemma ChainsAgree<H>(hash: Body<H> -> H, zero: H, a: seq<Body<H>>, b: seq<Body<H>>, k: nat)
    requires Chained(hash, a) && Chained(hash, b)
    requires 0 < k <= |a| && k <= |b| && hash(a[|a| - 1]) == hash(b[|b| - 1])
    requires CollisionFree(hash, zero, Members(a) + Members(b))
    ensures Last(a, k) == Last(b, k)
  {
    forall i | 0 <= i < k ensures Last(a, k)[i] == Last(b, k)[i] {
      ChainsAgreeAt(hash, zero, a, b, k - 1 - i);
    }
  }

  /** No forks: of two lists whose built proofs are accepted with the same end, the shorter is a
      suffix of the longer, up to the fields the hash leaves out. */
  lemma NoForks<H>(hash: Body<H> -> H, zero: H, cs: seq<Checkpoint<H>>, ds: seq<Checkpoint<H>>)
    requires BuildProof(hash, cs).Ok? && BuildProof(hash, ds).Ok?
    requires Accepts(BuildProof(hash, cs).value) && Accepts(BuildProof(hash, ds).value)
    requires BuildProof(hash, cs).value.to == BuildProof(hash, ds).value.to
    requires CollisionFree(hash, zero, Members(OrderedBodies(cs)) + Members(OrderedBodies(ds)))
    ensures |OrderedBodies(cs)| == |cs| && |OrderedBodies(ds)| == |ds|
    ensures |cs| <= |ds| ==> OrderedBodies(cs) == Last(OrderedBodies(ds), |cs|)
    ensures |ds| <= |cs| ==> OrderedBodies(ds) == Last(OrderedBodies(cs), |ds|)
  {
    BuiltProofAccepted(hash, cs);
    BuiltProofAccepted(hash, ds);
    var a, b := OrderedBodies(cs), OrderedBodies(ds);
    ChainsAgree(hash, zero, a, b, if |cs| <= |ds| then |cs| else |ds|);
    assert Last(a, |cs|) == a && Last(b, |ds|) == b;
  }

  lemma OnlyFirstNamesZero<H>(hash: Body<H> -> H, zero: H, a: seq<Body<H>>)
    requires Chained(hash, a) && forall b | b in Members(a) :: hash(b) != zero
    ensures forall i | 0 < i < |a| :: a[i].previous != zero
  {
    forall i | 0 < i < |a| ensures a[i].previous != zero {
      assert ChainedAt(hash, a, i) && a[i - 1] in Members(a);
    }
  }

  /** Two chains that start at zero and have the same last hash are the same chain. */
  lemma RootedChainsEqual<H>(hash: Body<H> -> H, zero: H, a: seq<Body<H>>, b: seq<Body<H>>)
    requires Chained(hash, a) && Chained(hash, b) && a != [] && b != []
    requires a[0].previous == zero && b[0].previous == zero
    requires hash(a[|a| - 1]) == hash(b[|b| - 1])
    requires CollisionFree(hash, zero, Members(a) + Members(b))
    ensures a == b
  {
    hide Chained;
    OnlyFirstNamesZero(hash, zero, a);
    OnlyFirstNamesZero(hash, zero, b);
    var k := if |a| <= |b| then |a| else |b|;
    ChainsAgree(hash, zero, a, b, k);
    assert Last(a, |a|) == a && Last(b, |b|) == b;
    assert Last(a, k)[0] == a[|a| - k] && Last(b, k)[0] == b[|b| - k];
  }
}
