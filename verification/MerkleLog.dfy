/** The Merkle log: leaves bound to their index, levels built bottom up with an odd last node
    carried over, inclusion proofs and their verifier.

    Everything is stated for an arbitrary hash function on the two kinds of hashed input. */
module MerkleLog {
  import opened Hashing
  import opened Wrappers

  /** What is hashed: a leaf under its index, or a pair of children. */
  datatype Query<H> = LeafQuery(index: nat, commitment: H) | NodeQuery(left: H, right: H)

  /** `Neither` stands for any other string in a proof from outside. */
  datatype Side = Left | Right | Neither

  datatype Step<H> = Step(side: Side, sibling: H)

  datatype Tree<H> = Tree(leaves: seq<H>, levels: seq<seq<H>>, root: H)

  datatype Proof<H> = Proof(commitment: H, leafIndex: nat, leafHash: H, root: H, path: seq<Step<H>>)

  // ---------- Bottom-up levels ----------

  function Leaves<H>(hash: Query<H> -> H, cs: seq<H>): (r: seq<H>)
    ensures |r| == |cs|
  {
    seq(|cs|, i requires 0 <= i < |cs| => hash(LeafQuery(i, cs[i])))
  }

  /** One level up: neighbours hashed in pairs, an odd last node carried over unchanged. */
  function PairUp<H>(hash: Query<H> -> H, level: seq<H>): (r: seq<H>)
    ensures |r| == (|level| + 1) / 2
  {
    if |level| <= 1 then level
    else [hash(NodeQuery(level[0], level[1]))] + PairUp(hash, level[2..])
  }

  lemma {:induction false} PairUpAt<H>(hash: Query<H> -> H, level: seq<H>, i: nat)
    requires i < (|level| + 1) / 2
    ensures PairUp(hash, level)[i]
         == if 2 * i + 1 < |level| then hash(NodeQuery(level[2 * i], level[2 * i + 1])) else level[2 * i]
  {
    if i > 0 { PairUpAt(hash, level[2..], i - 1); }
  }

  /** `levels` runs from the leaves to a single root, each level paired up from the one below. */
  ghost predicate IsLevels<H>(hash: Query<H> -> H, leaves: seq<H>, levels: seq<seq<H>>) {
    && levels != []
    && levels[0] == leaves
    && (forall k | 0 <= k < |levels| - 1 :: |levels[k]| > 1 && levels[k + 1] == PairUp(hash, levels[k]))
  }

  /** The inner loop of the builder: two nodes at a time, from left to right. */
  method NextLevel<H>(hash: Query<H> -> H, current: seq<H>) returns (next: seq<H>)
    ensures next == PairUp(hash, current)
  {
    next := [];
    var index := 0;
    while index < |current|
      invariant 0 <= index <= |current| + 1 && index % 2 == 0
      invariant next == PairUp(hash, current)[..index / 2]
    {
      PairUpAt(hash, current, index / 2);
      if index + 1 < |current| {
        next := next + [hash(NodeQuery(current[index], current[index + 1]))];
      } else {
        next := next + [current[index]];
      }
      index := index + 2;
    }
  }

  method BuildMerkleTree<H(==)>(hash: Query<H> -> H, zero: H, cs: seq<H>) returns (tree: Tree<H>)
    ensures tree.leaves == Leaves(hash, cs)
    ensures tree.root == Root(hash, zero, cs)
    ensures IsLevels(hash, tree.leaves, tree.levels)
    ensures cs != [] ==> tree.levels[|tree.levels| - 1] == [tree.root]
    ensures cs == [] ==> tree.levels == [[]]
  {
    hide PairUp, SplitRoot, RootFrom;
    if |cs| == 0 {
      return Tree([], [[]], zero);
    }
    var leaves := Leaves(hash, cs);
    var levels := [leaves];
    var current := leaves;
    while |current| > 1
      invariant current != [] && levels != [] && levels[|levels| - 1] == current
      invariant IsLevels(hash, leaves, levels)
      invariant SplitRoot(hash, current) == SplitRoot(hash, leaves)
      decreases |current|
    {
      var next := NextLevel(hash, current);
      PairUpKeepsRoot(hash, current);
      levels := levels + [next];
      current := next;
    }
    SplitRootOne(hash, current);
    LeavesRoot(hash, cs, 0);
    assert Leaves(hash, cs) == LeavesFrom(hash, cs, 0);
    tree := Tree(leaves, levels, current[0]);
  }

  // ---------- The recursive tree of section 2.1 of RFC 6962 ----------

  /** The largest power of two below n. */
  function Split(n: nat): (k: nat)
    requires n >= 2
    ensures 1 <= k < n <= 2 * k
    ensures n > 2 ==> k % 2 == 0
  {
    if n == 2 then 1 else 2 * Split((n + 1) / 2)
  }

  lemma SplitHalf(n: nat)
    requires n > 2
    ensures Split(n) == 2 * Split((n + 1) / 2)
  {
  }

  ghost predicate IsPowerOfTwo(k: nat) {
    k == 1 || (k > 0 && k % 2 == 0 && IsPowerOfTwo(k / 2))
  }

  /** `Split` is what its description says, and nothing else is. */
  lemma {:induction false} SplitIsPowerOfTwo(n: nat)
    requires n >= 2
    ensures IsPowerOfTwo(Split(n))
  {
    if n > 2 { SplitIsPowerOfTwo((n + 1) / 2); }
  }

  lemma {:induction false} SplitUnique(n: nat, k: nat)
    requires n >= 2 && IsPowerOfTwo(k) && k < n <= 2 * k
    ensures k == Split(n)
  {
    if n > 2 { SplitUnique((n + 1) / 2, k / 2); }
  }

  ghost function SplitRoot<H>(hash: Query<H> -> H, leaves: seq<H>): H
    requires leaves != []
  {
    if |leaves| == 1 then leaves[0] else
      var k := Split(|leaves|);
      hash(NodeQuery(SplitRoot(hash, leaves[..k]), SplitRoot(hash, leaves[k..])))
  }

  /** The root of commitments `cs` whose first one has index `start`. */
  ghost function RootFrom<H>(hash: Query<H> -> H, cs: seq<H>, start: nat): H
    requires cs != []
    decreases |cs|
  {
    hash(TopQuery(hash, cs, start))
  }

  /** The input whose hash is the root. */
  ghost function TopQuery<H>(hash: Query<H> -> H, cs: seq<H>, start: nat): Query<H>
    requires cs != []
    decreases |cs|, 0
  {
    if |cs| == 1 then LeafQuery(start, cs[0]) else
      var k := Split(|cs|);
      NodeQuery(RootFrom(hash, cs[..k], start), RootFrom(hash, cs[k..], start + k))
  }

  /** The root the log publishes; the empty log has the zero hash. */
  ghost function Root<H>(hash: Query<H> -> H, zero: H, cs: seq<H>): H {
    if cs == [] then zero else RootFrom(hash, cs, 0)
  }

  lemma {:induction false} PairUpConcat<H>(hash: Query<H> -> H, a: seq<H>, b: seq<H>)
    requires |a| % 2 == 0
    ensures PairUp(hash, a + b) == PairUp(hash, a) + PairUp(hash, b)
  {
    if a == [] {
      assert a + b == b;
    } else {
      PairUpConcat(hash, a[2..], b);
      assert (a + b)[2..] == a[2..] + b;
    }
  }

  /** Pairing up halves the split point and acts on the two parts separately. */
  lemma PairUpSplit<H>(hash: Query<H> -> H, level: seq<H>)
    requires |level| > 2
    ensures var k, up := Split(|level|), PairUp(hash, level);
      && Split(|up|) == k / 2
      && up[..k / 2] == PairUp(hash, level[..k])
      && up[k / 2..] == PairUp(hash, level[k..])
  {
    hide Split, PairUp;
    SplitHalf(|level|);
    var k := Split(|level|);
    var a, b := level[..k], level[k..];
    PairUpConcat(hash, a, b);
    assert level == a + b;
    var left, right := PairUp(hash, a), PairUp(hash, b);
    assert |left| == k / 2;
    SplitConcat(left, right);
  }

  lemma SplitConcat<T>(a: seq<T>, b: seq<T>)
    ensures (a + b)[..|a|] == a && (a + b)[|a|..] == b
  {
  }

  lemma SplitRootTop<H>(hash: Query<H> -> H, leaves: seq<H>)
    requires |leaves| > 1
    ensures var k := Split(|leaves|);
      SplitRoot(hash, leaves) == hash(NodeQuery(SplitRoot(hash, leaves[..k]), SplitRoot(hash, leaves[k..])))
  {
  }

  lemma SplitRootOne<H>(hash: Query<H> -> H, leaves: seq<H>)
    requires |leaves| == 1
    ensures SplitRoot(hash, leaves) == leaves[0]
  {
  }

  lemma {:induction false} PairUpKeepsRoot<H>(hash: Query<H> -> H, level: seq<H>)
    requires level != []
    ensures SplitRoot(hash, PairUp(hash, level)) == SplitRoot(hash, level)
    decreases |level|
  {
    if |level| == 2 {
      assert PairUp(hash, level) == [hash(NodeQuery(level[0], level[1]))];
    } else if |level| > 2 {
      var k := Split(|level|);
      PairUpSplit(hash, level);
      PairUpKeepsRoot(hash, level[..k]);
      PairUpKeepsRoot(hash, level[k..]);
    }
  }

  ghost function LeavesFrom<H>(hash: Query<H> -> H, cs: seq<H>, start: nat): (r: seq<H>)
    ensures |r| == |cs|
  {
    seq(|cs|, i requires 0 <= i < |cs| => hash(LeafQuery(start + i, cs[i])))
  }

  lemma LeavesFromParts<H>(hash: Query<H> -> H, cs: seq<H>, start: nat, k: nat)
    requires k <= |cs|
    ensures cs != [] ==> LeavesFrom(hash, cs, start)[0] == hash(LeafQuery(start, cs[0]))
    ensures LeavesFrom(hash, cs, start)[..k] == LeavesFrom(hash, cs[..k], start)
    ensures LeavesFrom(hash, cs, start)[k..] == LeavesFrom(hash, cs[k..], start + k)
  {
  }

  lemma {:induction false} LeavesRoot<H>(hash: Query<H> -> H, cs: seq<H>, start: nat)
    requires cs != []
    ensures SplitRoot(hash, LeavesFrom(hash, cs, start)) == RootFrom(hash, cs, start)
    decreases |cs|
  {
    hide RootFrom, TopQuery, SplitRoot, Split, LeavesFrom, TreeQueries;
    TopShape(hash, cs, start);
    TopInTree(hash, cs, start);
    var leaves := LeavesFrom(hash, cs, start);
    if |cs| == 1 {
      LeavesFromParts(hash, cs, start, 1);
      SplitRootOne(hash, leaves);
    } else {
      var k := Split(|cs|);
      LeavesRoot(hash, cs[..k], start);
      LeavesRoot(hash, cs[k..], start + k);
      LeavesFromParts(hash, cs, start, k);
      SplitRootTop(hash, leaves);
    }
  }

  // ---------- Proofs ----------

  /** What the verifier computes: the leaf folded with each sibling in turn. */
  ghost function Fold<H>(hash: Query<H> -> H, current: H, path: seq<Step<H>>): H {
    if path == [] then current
    else hash(StepQuery(Fold(hash, current, path[..|path| - 1]), path[|path| - 1]))
  }

  ghost function StepQuery<H>(current: H, step: Step<H>): Query<H> {
    if step.side == Left then NodeQuery(step.sibling, current) else NodeQuery(current, step.sibling)
  }

  ghost predicate Accepts<H>(hash: Query<H> -> H, proof: Proof<H>) {
    && hash(LeafQuery(proof.leafIndex, proof.commitment)) == proof.leafHash
    && (forall step | step in proof.path :: step.side != Neither)
    && Fold(hash, proof.leafHash, proof.path) == proof.root
  }

  method VerifyInclusion<H(==)>(hash: Query<H> -> H, proof: Proof<H>) returns (ok: bool)
    ensures ok <==> Accepts(hash, proof)
  {
    var current := hash(LeafQuery(proof.leafIndex, proof.commitment));
    if current != proof.leafHash { return false; }
    for i := 0 to |proof.path|
      invariant current == Fold(hash, proof.leafHash, proof.path[..i])
      invariant forall step | step in proof.path[..i] :: step.side != Neither
    {
      var step := proof.path[i];
      assert proof.path[..i + 1][..i] == proof.path[..i];
      if step.side == Left {
        current := hash(NodeQuery(step.sibling, current));
      } else if step.side == Right {
        current := hash(NodeQuery(current, step.sibling));
      } else {
        return false;
      }
    }
    assert proof.path[..|proof.path|] == proof.path;
    ok := current == proof.root;
  }

  /** The audit path of section 2.1.1 of RFC 6962: siblings from the leaf up. */
  ghost function AuditPath<H>(hash: Query<H> -> H, leaves: seq<H>, index: nat): seq<Step<H>>
    requires index < |leaves|
    decreases |leaves|
  {
    if |leaves| == 1 then [] else
      var k := Split(|leaves|);
      if index < k then AuditPath(hash, leaves[..k], index) + [Step(Right, SplitRoot(hash, leaves[k..]))]
      else AuditPath(hash, leaves[k..], index - k) + [Step(Left, SplitRoot(hash, leaves[..k]))]
  }

  /** The sibling of one node, if the level has one. */
  ghost function Sibling<H>(level: seq<H>, index: nat): seq<Step<H>>
    requires index < |level|
  {
    if index % 2 == 1 then [Step(Left, level[index - 1])]
    else if index + 1 < |level| then [Step(Right, level[index + 1])]
    else []
  }

  lemma SiblingInPart<H>(level: seq<H>, k: nat, index: nat)
    requires k % 2 == 0 && k <= |level| && index < |level|
    ensures index < k ==> Sibling(level[..k], index) == Sibling(level, index)
    ensures index >= k ==> Sibling(level[k..], index - k) == Sibling(level, index)
  {
  }

  /** The last step of an audit path, and the part of the tree the rest of it lies in. */
  lemma AuditPathTop<H>(hash: Query<H> -> H, leaves: seq<H>, index: nat)
    requires index < |leaves| && |leaves| > 1
    ensures var k := Split(|leaves|);
      AuditPath(hash, leaves, index)
      == if index < k then AuditPath(hash, leaves[..k], index) + [Step(Right, SplitRoot(hash, leaves[k..]))]
         else AuditPath(hash, leaves[k..], index - k) + [Step(Left, SplitRoot(hash, leaves[..k]))]
  {
  }

  lemma AuditPathOne<H>(hash: Query<H> -> H, leaves: seq<H>)
    requires |leaves| == 1
    ensures AuditPath(hash, leaves, 0) == []
  {
  }

  /** Going up one level prepends the sibling found there. */
  lemma {:induction false} AuditPathUp<H>(hash: Query<H> -> H, level: seq<H>, index: nat)
    requires index < |level| && |level| > 1
    ensures AuditPath(hash, level, index) == Sibling(level, index) + AuditPath(hash, PairUp(hash, level), index / 2)
    decreases |level|
  {
    hide AuditPath, SplitRoot, PairUp, Split, Sibling;
    var k, up := Split(|level|), PairUp(hash, level);
    AuditPathTop(hash, level, index);
    if |level| == 2 {
      PairAuditPath(hash, level, index);
    } else {
      var part := if index < k then level[..k] else level[k..];
      var at := if index < k then index else index - k;
      PairUpSplit(hash, level);
      PairUpKeepsRoot(hash, level[..k]);
      PairUpKeepsRoot(hash, level[k..]);
      AuditPathTop(hash, up, index / 2);
      SiblingInPart(level, k, index);
      if |part| > 1 {
        AuditPathUp(hash, part, at);
        assert index >= k ==> index / 2 - k / 2 == at / 2;
      } else {
        PairUpOne(hash, part);
      }
    }
  }

  lemma PairUpOne<H>(hash: Query<H> -> H, level: seq<H>)
    requires |level| == 1
    ensures PairUp(hash, level) == level && Sibling(level, 0) == []
  {
  }

  lemma PairAuditPath<H>(hash: Query<H> -> H, level: seq<H>, index: nat)
    requires |level| == 2 && index < 2
    ensures AuditPath(hash, level, index) == Sibling(level, index)
    ensures AuditPath(hash, PairUp(hash, level), index / 2) == []
  {
  }

  /** The proof for a place in a list: the commitment there and its audit path, against the list's root. */
  ghost function ProofAt<H>(hash: Query<H> -> H, zero: H, cs: seq<H>, i: nat): Proof<H>
    requires i < |cs|
  {
    Proof(cs[i], i, hash(LeafQuery(i, cs[i])), Root(hash, zero, cs), AuditPath(hash, Leaves(hash, cs), i))
  }

  method BuildInclusionProof<H(==)>(hash: Query<H> -> H, zero: H, cs: seq<H>, leafIndex: int)
      returns (r: Option<Proof<H>>)
    ensures r.None? <==> !(0 <= leafIndex < |cs|)
    ensures r.Some? ==> r.value == ProofAt(hash, zero, cs, leafIndex)
  {
    hide PairUp, SplitRoot, RootFrom, AuditPath;
    var tree := BuildMerkleTree(hash, zero, cs);
    if !(0 <= leafIndex < |cs|) { return None; }
    var path := [];
    var index := leafIndex;
    for j := 0 to |tree.levels| - 1
      invariant 0 <= index < |tree.levels[j]|
      invariant AuditPath(hash, tree.leaves, leafIndex) == path + AuditPath(hash, tree.levels[j], index)
    {
      var level := tree.levels[j];
      AuditPathUp(hash, level, index);
      var isRight := index % 2 == 1;
      var siblingIndex := if isRight then index - 1 else index + 1;
      ghost var before := path;
      if siblingIndex < |level| {
        path := path + [Step(if isRight then Left else Right, level[siblingIndex])];
      }
      assert path == before + Sibling(level, index);
      index := index / 2;
    }
    AuditPathOne(hash, tree.levels[|tree.levels| - 1]);
    r := Some(Proof(cs[leafIndex], leafIndex, tree.leaves[leafIndex], tree.root, path));
  }

  lemma {:induction false} AuditPathFolds<H>(hash: Query<H> -> H, leaves: seq<H>, index: nat)
    requires index < |leaves|
    ensures Fold(hash, leaves[index], AuditPath(hash, leaves, index)) == SplitRoot(hash, leaves)
    ensures forall step | step in AuditPath(hash, leaves, index) :: step.side != Neither
    decreases |leaves|
  {
    if |leaves| > 1 {
      var k := Split(|leaves|);
      var path := AuditPath(hash, leaves, index);
      if index < k {
        AuditPathFolds(hash, leaves[..k], index);
        assert path[..|path| - 1] == AuditPath(hash, leaves[..k], index);
      } else {
        AuditPathFolds(hash, leaves[k..], index - k);
        assert path[..|path| - 1] == AuditPath(hash, leaves[k..], index - k);
      }
    }
  }

  /** Every proof that is built is accepted, against the root of the list it was built from. */
  lemma BuiltProofsVerify<H>(hash: Query<H> -> H, zero: H, cs: seq<H>, i: nat)
    requires i < |cs|
    ensures Accepts(hash, ProofAt(hash, zero, cs, i))
  {
    AuditPathFolds(hash, Leaves(hash, cs), i);
    LeavesRoot(hash, cs, 0);
    assert Leaves(hash, cs) == LeavesFrom(hash, cs, 0);
  }

  // ---------- Binding ----------

  /** Every input hashed while building the tree over `cs`. */
  ghost function TreeQueries<H>(hash: Query<H> -> H, cs: seq<H>, start: nat): set<Query<H>>
    requires cs != []
    decreases |cs|
  {
    {TopQuery(hash, cs, start)} +
    if |cs| == 1 then {} else
      var k := Split(|cs|);
      TreeQueries(hash, cs[..k], start) + TreeQueries(hash, cs[k..], start + k)
  }

  lemma TopInTree<H>(hash: Query<H> -> H, cs: seq<H>, start: nat)
    requires cs != []
    ensures TopQuery(hash, cs, start) in TreeQueries(hash, cs, start)
    ensures hash(TopQuery(hash, cs, start)) == RootFrom(hash, cs, start)
  {
  }

  lemma TopShape<H>(hash: Query<H> -> H, cs: seq<H>, start: nat)
    requires cs != []
    ensures |cs| == 1 ==> TopQuery(hash, cs, start) == LeafQuery(start, cs[0])
    ensures |cs| > 1 ==> var k := Split(|cs|);
      && TopQuery(hash, cs, start) == NodeQuery(RootFrom(hash, cs[..k], start), RootFrom(hash, cs[k..], start + k))
      && TreeQueries(hash, cs[..k], start) <= TreeQueries(hash, cs, start)
      && TreeQueries(hash, cs[k..], start + k) <= TreeQueries(hash, cs, start)
  {
  }

  lemma TreeQueriesAre<H>(hash: Query<H> -> H, cs: seq<H>, start: nat)
    requires cs != []
    ensures |cs| == 1 ==> TreeQueries(hash, cs, start) == {TopQuery(hash, cs, start)}
    ensures |cs| > 1 ==> var k := Split(|cs|);
      TreeQueries(hash, cs, start)
      == {TopQuery(hash, cs, start)} + TreeQueries(hash, cs[..k], start) + TreeQueries(hash, cs[k..], start + k)
  {
    hide TopQuery, Split;
  }

  /** Every input hashed while folding a path. */
  ghost function PathQueries<H>(hash: Query<H> -> H, current: H, path: seq<Step<H>>): set<Query<H>> {
    if path == [] then {} else
      var before := path[..|path| - 1];
      PathQueries(hash, current, before) + {StepQuery(Fold(hash, current, before), path[|path| - 1])}
  }

  /** Everything hashed while building the log over `cs`; nothing for the empty log. */
  ghost function LogQueries<H>(hash: Query<H> -> H, cs: seq<H>): set<Query<H>> {
    if cs == [] then {} else TreeQueries(hash, cs, 0)
  }

  /** Everything hashed while verifying `proof`. */
  ghost function ProofQueries<H>(hash: Query<H> -> H, proof: Proof<H>): set<Query<H>> {
    {LeafQuery(proof.leafIndex, proof.commitment)} + PathQueries(hash, proof.leafHash, proof.path)
  }

  lemma {:induction false} FoldBinds<H>(hash: Query<H> -> H, zero: H, cs: seq<H>, start: nat, proof: Proof<H>)
    requires cs != []
    requires hash(LeafQuery(proof.leafIndex, proof.commitment)) == proof.leafHash
    requires Fold(hash, proof.leafHash, proof.path) == RootFrom(hash, cs, start)
    requires CollisionFree(hash, zero, TreeQueries(hash, cs, start) + ProofQueries(hash, proof))
    ensures start <= proof.leafIndex < start + |cs|
    ensures cs[proof.leafIndex - start] == proof.commitment
    decreases |proof.path|
  {
    hide TreeQueries, TopQuery, RootFrom, Split;
    TopInTree(hash, cs, start);
    TopShape(hash, cs, start);
    if proof.path == [] {
      assert LeafQuery(proof.leafIndex, proof.commitment) in ProofQueries(hash, proof);
      assert TopQuery(hash, cs, start) == LeafQuery(proof.leafIndex, proof.commitment);
    } else {
      var n := |proof.path| - 1;
      var last := StepQuery(Fold(hash, proof.leafHash, proof.path[..n]), proof.path[n]);
      assert last in ProofQueries(hash, proof);
      assert TopQuery(hash, cs, start) == last;
      var k := Split(|cs|);
      var shorter := proof.(path := proof.path[..n]);
      assert ProofQueries(hash, shorter) <= ProofQueries(hash, proof);
      if proof.path[n].side == Left {
        FoldBinds(hash, zero, cs[k..], start + k, shorter);
      } else {
        FoldBinds(hash, zero, cs[..k], start, shorter);
      }
    }
  }

  /** A proof accepted against the root of `cs` names a commitment that stands in `cs` at the proof's
      leaf index, whatever the path looks like. */
  lemma InclusionIsSound<H>(hash: Query<H> -> H, zero: H, cs: seq<H>, proof: Proof<H>)
    requires Accepts(hash, proof) && proof.root == Root(hash, zero, cs)
    requires CollisionFree(hash, zero, LogQueries(hash, cs) + ProofQueries(hash, proof))
    ensures proof.leafIndex < |cs| && cs[proof.leafIndex] == proof.commitment
  {
    if cs == [] {
      FoldIsHashed(hash, proof);
    } else {
      FoldBinds(hash, zero, cs, 0, proof);
    }
  }

  lemma FoldIsHashed<H>(hash: Query<H> -> H, proof: Proof<H>)
    requires hash(LeafQuery(proof.leafIndex, proof.commitment)) == proof.leafHash
    ensures exists q :: q in ProofQueries(hash, proof) && hash(q) == Fold(hash, proof.leafHash, proof.path)
  {
    if proof.path == [] {
      assert LeafQuery(proof.leafIndex, proof.commitment) in ProofQueries(hash, proof);
    } else {
      var n := |proof.path| - 1;
      assert StepQuery(Fold(hash, proof.leafHash, proof.path[..n]), proof.path[n]) in ProofQueries(hash, proof);
    }
  }

  lemma {:induction false} RootFromBinds<H>(hash: Query<H> -> H, zero: H, cs: seq<H>, ds: seq<H>, start: nat)
    requires cs != [] && ds != []
    requires RootFrom(hash, cs, start) == RootFrom(hash, ds, start)
    requires CollisionFree(hash, zero, TreeQueries(hash, cs, start) + TreeQueries(hash, ds, start))
    ensures cs == ds
    decreases |cs|
  {
    hide TreeQueries, TopQuery, RootFrom, Split;
    TopInTree(hash, cs, start);
    TopInTree(hash, ds, start);
    assert TopQuery(hash, cs, start) == TopQuery(hash, ds, start);
    TopShape(hash, cs, start);
    TopShape(hash, ds, start);
    if |cs| > 1 {
      var k, l := Split(|cs|), Split(|ds|);
      RootFromBinds(hash, zero, cs[..k], ds[..l], start);
      assert k == l;
      RootFromBinds(hash, zero, cs[k..], ds[l..], start + k);
      assert cs == cs[..k] + cs[k..] && ds == ds[..l] + ds[l..];
    }
  }

  /** Equal roots mean equal lists of commitments. */
  lemma RootBindsList<H>(hash: Query<H> -> H, zero: H, cs: seq<H>, ds: seq<H>)
    requires Root(hash, zero, cs) == Root(hash, zero, ds)
    requires CollisionFree(hash, zero, LogQueries(hash, cs) + LogQueries(hash, ds))
    ensures cs == ds
  {
    if cs != [] { assert TopQuery(hash, cs, 0) in LogQueries(hash, cs); }
    if ds != [] { assert TopQuery(hash, ds, 0) in LogQueries(hash, ds); }
    if cs != [] && ds != [] {
      RootFromBinds(hash, zero, cs, ds, 0);
    }
  }
}
