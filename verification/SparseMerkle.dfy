/** The sparse Merkle tree over a set of values: a map of occupied leaves, hashed level by level with
    empty subtrees replaced by precomputed hashes, and its inclusion and non-membership proofs.

    Everything is stated for an arbitrary hash function on the kinds of hashed input and an arbitrary
    reading of values as numbers. */
module SparseMerkle {
  import opened Hashing
  import opened Wrappers
  import opened Text
  import Bps

  const LEFT: Text := [0x6c, 0x65, 0x66, 0x74]
  const RIGHT: Text := [0x72, 0x69, 0x67, 0x68, 0x74]

  /** A side is "left" or any other text, which the verifier reads as "right". */
  datatype Step<H> = Step(side: Text, sibling: H)

  /** What is hashed, one constructor for each label. */
  datatype Query<H> =
    | ZeroLeafQuery
    | LeafQuery(value: H)
    | NodeQuery(left: H, right: H)
    | IndexQuery(treeId: Text, index: nat)
    | InclusionQuery(root: H, value: H, index: nat, depth: nat, path: seq<Step<H>>)
    | NonMembershipQuery(root: H, value: H, index: nat, depth: nat, path: seq<Step<H>>)

  datatype Error = DepthInvalid | IndexCollision | ValueMissing | ValuePresent

  datatype Tree<H> = Tree(treeId: Text, depth: nat, root: H, leaves: map<nat, H>, zeroes: seq<H>)

  datatype Proof<H> = Proof(
    setRoot: H, root: Option<H>, value: H, treeId: Text, depth: nat,
    leafIndex: Option<nat>, leafIndexCommitment: H, leafValueCommitment: H,
    emptyLeaf: Option<H>, path: Option<seq<Step<H>>>, proof: H)

  // ---------- Positions ----------

  function PowerOfTwo(k: nat): (p: nat)
    ensures p > 0
  {
    if k == 0 then 1 else 2 * PowerOfTwo(k - 1)
  }

  /** The ancestor of position `index` at a level. */
  function Ancestor(index: nat, level: nat): nat {
    if level == 0 then index else Ancestor(index, level - 1) / 2
  }

  lemma {:induction false} AncestorBound(index: nat, level: nat, rest: nat)
    requires index < PowerOfTwo(level + rest)
    ensures Ancestor(index, level) < PowerOfTwo(rest)
    decreases level
  {
    if level > 0 { AncestorBound(index, level - 1, rest + 1); }
  }

  function SiblingOf(position: nat): nat {
    if position % 2 == 0 then position + 1 else position - 1
  }

  /** The low k bits of n. */
  function LowBits(n: nat, k: nat): (r: nat)
    ensures r < PowerOfTwo(k)
  {
    if k == 0 then 0 else n % 2 + 2 * LowBits(n / 2, k - 1)
  }

  /** The low `depth` bits of a value; only depths 1 to 30 are allowed. */
  function Index<H>(digest: H -> nat, value: H, depth: nat): (r: Result<nat, Error>)
    ensures r.Ok? <==> 1 <= depth <= 30
    ensures r.Ok? ==> r.value < PowerOfTwo(depth)
  {
    if depth < 1 || depth > 30 then Err(DepthInvalid) else Ok(LowBits(digest(value), depth))
  }

  lemma {:induction false} LowBitsAreRemainder(n: nat, k: nat)
    ensures LowBits(n, k) == n % PowerOfTwo(k)
  {
    if k > 0 {
      LowBitsAreRemainder(n / 2, k - 1);
      var p, m := PowerOfTwo(k - 1), n / 2;
      var q, r := m / p, m % p;
      assert m == p * q + r;
      assert n == 2 * p * q + (2 * r + n % 2);
      Bps.RemainderIs(n, 2 * p, q, 2 * r + n % 2);
    }
  }

  /** The index is the remainder of the value's digest by two to the depth: its low bits, in their places. */
  lemma IndexIsRemainder<H>(digest: H -> nat, value: H, depth: nat)
    requires Index(digest, value, depth).Ok?
    ensures Index(digest, value, depth).value == digest(value) % PowerOfTwo(depth)
    ensures PowerOfTwo(0) == 1 && forall k: nat :: PowerOfTwo(k + 1) == 2 * PowerOfTwo(k)
  {
    LowBitsAreRemainder(digest(value), depth);
  }

  // ---------- The dense tree ----------

  /** The hashed input at a leaf position of the full tree. */
  ghost function LeafAt<H>(leaves: map<nat, H>, position: nat): Query<H> {
    if position in leaves then LeafQuery(leaves[position]) else ZeroLeafQuery
  }

  /** The hash of the full binary subtree of height `level` at `position`. */
  ghost function Dense<H>(hash: Query<H> -> H, leaves: map<nat, H>, level: nat, position: nat): H
    decreases level
  {
    hash(DenseQuery(hash, leaves, level, position))
  }

  ghost function DenseQuery<H>(hash: Query<H> -> H, leaves: map<nat, H>, level: nat, position: nat): Query<H>
    decreases level, 0
  {
    if level == 0 then LeafAt(leaves, position)
    else NodeQuery(Dense(hash, leaves, level - 1, 2 * position), Dense(hash, leaves, level - 1, 2 * position + 1))
  }

  ghost function ZeroAt<H>(hash: Query<H> -> H, level: nat): H {
    if level == 0 then hash(ZeroLeafQuery)
    else hash(NodeQuery(ZeroAt(hash, level - 1), ZeroAt(hash, level - 1)))
  }

  ghost predicate AreZeroes<H>(hash: Query<H> -> H, zeroes: seq<H>, depth: nat) {
    |zeroes| == depth + 1 && forall l | 0 <= l <= depth :: zeroes[l] == ZeroAt(hash, l)
  }

  method ZeroHashes<H>(hash: Query<H> -> H, depth: nat) returns (zeroes: seq<H>)
    ensures AreZeroes(hash, zeroes, depth)
  {
    zeroes := [hash(ZeroLeafQuery)];
    for level := 1 to depth + 1
      invariant AreZeroes(hash, zeroes, level - 1)
    {
      zeroes := zeroes + [hash(NodeQuery(zeroes[level - 1], zeroes[level - 1]))];
    }
  }

  // ---------- Level by level ----------

  function Get<H>(current: map<nat, H>, position: nat, zero: H): H {
    if position in current then current[position] else zero
  }

  /** `current`, read with the level's zero hash as default, is that level of the dense tree. */
  ghost predicate Represents<H>(hash: Query<H> -> H, leaves: map<nat, H>, level: nat, current: map<nat, H>) {
    forall p: nat :: Get(current, p, ZeroAt(hash, level)) == Dense(hash, leaves, level, p)
  }

  method HashLeaves<H>(hash: Query<H> -> H, leaves: map<nat, H>) returns (current: map<nat, H>)
    ensures Represents(hash, leaves, 0, current)
  {
    current := map i | i in leaves :: hash(LeafQuery(leaves[i]));
  }

  ghost predicate IsNextLevel<H>(hash: Query<H> -> H, current: map<nat, H>, zero: H, next: map<nat, H>, zeroAbove: H) {
    forall p: nat ::
      Get(next, p, zeroAbove) == hash(NodeQuery(Get(current, 2 * p, zero), Get(current, 2 * p + 1, zero)))
  }

  /** Builds the parents of the present nodes and leaves out those that hash like an empty subtree. */
  method NextLevel<H(==)>(hash: Query<H> -> H, current: map<nat, H>, zero: H, zeroAbove: H) returns (next: map<nat, H>)
    requires zeroAbove == hash(NodeQuery(zero, zero))
    ensures IsNextLevel(hash, current, zero, next, zeroAbove)
  {
    next := map[];
    var parents: set<nat> := set i | i in current :: i / 2;
    assert forall p: nat | p !in parents :: 2 * p !in current && 2 * p + 1 !in current by {
      forall p: nat | p !in parents ensures 2 * p !in current && 2 * p + 1 !in current {
        assert 2 * p / 2 == p && (2 * p + 1) / 2 == p;
      }
    }
    while parents != {}
      invariant forall p: nat | p !in parents ::
        Get(next, p, zeroAbove) == hash(NodeQuery(Get(current, 2 * p, zero), Get(current, 2 * p + 1, zero)))
      invariant forall p: nat | p in parents :: p !in next
      decreases |parents|
    {
      var parent :| parent in parents;
      var node := hash(NodeQuery(Get(current, parent * 2, zero), Get(current, parent * 2 + 1, zero)));
      if node != zeroAbove {
        next := next[parent := node];
      }
      parents := parents - {parent};
    }
  }

  lemma RepresentsUp<H>(hash: Query<H> -> H, leaves: map<nat, H>, level: nat, current: map<nat, H>, next: map<nat, H>)
    requires Represents(hash, leaves, level, current)
    requires IsNextLevel(hash, current, ZeroAt(hash, level), next, ZeroAt(hash, level + 1))
    ensures Represents(hash, leaves, level + 1, next)
  {
    var zero, zeroAbove, above := ZeroAt(hash, level), ZeroAt(hash, level + 1), level + 1;
    forall p: nat
      ensures Get(next, p, zeroAbove) == Dense(hash, leaves, above, p)
    {
      assert Get(next, p, zeroAbove) == hash(NodeQuery(Get(current, 2 * p, zero), Get(current, 2 * p + 1, zero)));
      assert Get(current, 2 * p, zero) == Dense(hash, leaves, level, 2 * p);
      assert Get(current, 2 * p + 1, zero) == Dense(hash, leaves, level, 2 * p + 1);
    }
  }

  /** The pruned computation gives the root of the full tree. */
  method RootFromLeaves<H(==)>(hash: Query<H> -> H, leaves: map<nat, H>, depth: nat, zeroes: seq<H>) returns (root: H)
    requires AreZeroes(hash, zeroes, depth)
    ensures root == Dense(hash, leaves, depth, 0)
  {
    hide Dense;
    var current := HashLeaves(hash, leaves);
    for level := 0 to depth
      invariant Represents(hash, leaves, level, current)
    {
      var next := NextLevel(hash, current, zeroes[level], zeroes[level + 1]);
      RepresentsUp(hash, leaves, level, current, next);
      current := next;
    }
    root := Get(current, 0, zeroes[depth]);
  }

  // ---------- Paths ----------

  /** The first `depth` siblings on the way up from `index`, each with its side. */
  ghost function SiblingPath<H>(hash: Query<H> -> H, leaves: map<nat, H>, index: nat, depth: nat): seq<Step<H>> {
    if depth == 0 then [] else
      var cursor := Ancestor(index, depth - 1);
      SiblingPath(hash, leaves, index, depth - 1) +
      [Step(if cursor % 2 == 0 then RIGHT else LEFT, Dense(hash, leaves, depth - 1, SiblingOf(cursor)))]
  }

  method BuildPath<H(==)>(hash: Query<H> -> H, leaves: map<nat, H>, index: nat, depth: nat, zeroes: seq<H>)
    returns (path: seq<Step<H>>)
    requires AreZeroes(hash, zeroes, depth)
    ensures path == SiblingPath(hash, leaves, index, depth)
  {
    hide Dense;
    var current := HashLeaves(hash, leaves);
    var cursor := index;
    path := [];
    for level := 0 to depth
      invariant Represents(hash, leaves, level, current)
      invariant cursor == Ancestor(index, level)
      invariant path == SiblingPath(hash, leaves, index, level)
    {
      var siblingIndex := if cursor % 2 == 0 then cursor + 1 else cursor - 1;
      path := path + [Step(if cursor % 2 == 0 then RIGHT else LEFT, Get(current, siblingIndex, zeroes[level]))];
      var next := NextLevel(hash, current, zeroes[level], zeroes[level + 1]);
      RepresentsUp(hash, leaves, level, current, next);
      current := next;
      cursor := cursor / 2;
    }
  }

  ghost function StepQuery<H>(current: H, step: Step<H>): Query<H> {
    if step.side == LEFT then NodeQuery(step.sibling, current) else NodeQuery(current, step.sibling)
  }

  ghost function Fold<H>(hash: Query<H> -> H, current: H, path: seq<Step<H>>): H {
    if path == [] then current
    else hash(StepQuery(Fold(hash, current, path[..|path| - 1]), path[|path| - 1]))
  }

  /** One step up from a position gives the parent. */
  lemma StepIsDense<H>(hash: Query<H> -> H, leaves: map<nat, H>, level: nat, cursor: nat)
    ensures var side := if cursor % 2 == 0 then RIGHT else LEFT;
      StepQuery(Dense(hash, leaves, level, cursor), Step(side, Dense(hash, leaves, level, SiblingOf(cursor))))
      == DenseQuery(hash, leaves, level + 1, cursor / 2)
  {
    hide Dense;
    assert cursor == 2 * (cursor / 2) + cursor % 2;
  }

  lemma SiblingPathLast<H>(hash: Query<H> -> H, leaves: map<nat, H>, index: nat, depth: nat)
    requires depth > 0
    ensures var cursor := Ancestor(index, depth - 1);
      SiblingPath(hash, leaves, index, depth) == SiblingPath(hash, leaves, index, depth - 1)
        + [Step(if cursor % 2 == 0 then RIGHT else LEFT, Dense(hash, leaves, depth - 1, SiblingOf(cursor)))]
  {
    hide Dense;
  }

  lemma FoldLast<H>(hash: Query<H> -> H, current: H, path: seq<Step<H>>, last: Step<H>)
    ensures Fold(hash, current, path + [last]) == hash(StepQuery(Fold(hash, current, path), last))
  {
    hide StepQuery;
    assert (path + [last])[..|path|] == path;
  }

  lemma DenseIsHashed<H>(hash: Query<H> -> H, leaves: map<nat, H>, level: nat, position: nat)
    ensures Dense(hash, leaves, level, position) == hash(DenseQuery(hash, leaves, level, position))
  {
  }

  lemma NoPathFolds<H>(hash: Query<H> -> H, leaves: map<nat, H>, index: nat)
    ensures SiblingPath(hash, leaves, index, 0) == []
    ensures Fold(hash, Dense(hash, leaves, 0, index), []) == Dense(hash, leaves, 0, index)
  {
    hide Dense;
  }

  lemma {:induction false} PathFolds<H>(hash: Query<H> -> H, leaves: map<nat, H>, index: nat, depth: nat)
    ensures |SiblingPath(hash, leaves, index, depth)| == depth
    ensures Fold(hash, Dense(hash, leaves, 0, index), SiblingPath(hash, leaves, index, depth))
         == Dense(hash, leaves, depth, Ancestor(index, depth))
    decreases depth
  {
    hide Dense, StepQuery, DenseQuery, SiblingPath, Fold;
    NoPathFolds(hash, leaves, index);
    if depth > 0 {
      PathFolds(hash, leaves, index, depth - 1);
      var start, path := Dense(hash, leaves, 0, index), SiblingPath(hash, leaves, index, depth - 1);
      var cursor := Ancestor(index, depth - 1);
      SiblingPathLast(hash, leaves, index, depth);
      var last := Step(if cursor % 2 == 0 then RIGHT else LEFT, Dense(hash, leaves, depth - 1, SiblingOf(cursor)));
      FoldLast(hash, start, path, last);
      StepIsDense(hash, leaves, depth - 1, cursor);
      DenseIsHashed(hash, leaves, depth, cursor / 2);
    }
  }

  // ---------- Trees and proofs ----------

  ghost function ValueSet<H>(values: seq<H>): set<H> {
    set v | v in values
  }

  /** No two different values share an index. */
  ghost predicate NoIndexCollision<H>(digest: H -> nat, values: set<H>, depth: nat) {
    forall v, w | v in values && w in values && Index(digest, v, depth) == Index(digest, w, depth) :: v == w
  }

  /** Every value at its index and nothing else. */
  ghost predicate Occupies<H>(digest: H -> nat, values: set<H>, depth: nat, leaves: map<nat, H>) {
    && (forall i | i in leaves :: leaves[i] in values && Index(digest, leaves[i], depth) == Ok(i))
    && (forall v | v in values ::
          Index(digest, v, depth).Ok? &&
          var i := Index(digest, v, depth).value; i in leaves && leaves[i] == v)
  }

  ghost predicate IsTree<H>(hash: Query<H> -> H, digest: H -> nat, values: set<H>, tree: Tree<H>) {
    && Occupies(digest, values, tree.depth, tree.leaves)
    && tree.root == Dense(hash, tree.leaves, tree.depth, 0)
    && AreZeroes(hash, tree.zeroes, tree.depth)
  }

  /** The outcome depends on the set of values alone, not on their order or repetition: `IsTree`
      determines the tree, and the errors speak of the set. */
  method BuildTree<H(==)>(hash: Query<H> -> H, digest: H -> nat, values: seq<H>, treeId: Text, depth: nat)
    returns (r: Result<Tree<H>, Error>)
    ensures r.Ok? <==> (values == [] || 1 <= depth <= 30) && NoIndexCollision(digest, ValueSet(values), depth)
    ensures r.Ok? ==>
      && IsTree(hash, digest, ValueSet(values), r.value) && r.value.treeId == treeId
      && r.value.depth == depth
    ensures r.Err? ==> r.error == if 1 <= depth <= 30 then IndexCollision else DepthInvalid
  {
    hide Index, Dense;
    var zeroes := ZeroHashes(hash, depth);
    var leaves: map<nat, H> := map[];
    for k := 0 to |values|
      invariant k > 0 ==> 1 <= depth <= 30
      invariant Occupies(digest, ValueSet(values[..k]), depth, leaves)
    {
      var value := values[k];
      var index := Index(digest, value, depth);
      if index.Err? { return Err(DepthInvalid); }
      if index.value in leaves && leaves[index.value] != value {
        assert leaves[index.value] in ValueSet(values) && value in ValueSet(values);
        return Err(IndexCollision);
      }
      assert ValueSet(values[..k + 1]) == ValueSet(values[..k]) + {value};
      leaves := leaves[index.value := value];
    }
    assert values[..|values|] == values;
    var root := RootFromLeaves(hash, leaves, depth, zeroes);
    r := Ok(Tree(treeId, depth, root, leaves, zeroes));
  }

  lemma TreeIsDetermined<H>(hash: Query<H> -> H, digest: H -> nat, values: set<H>, t: Tree<H>, u: Tree<H>)
    requires IsTree(hash, digest, values, t) && IsTree(hash, digest, values, u)
    requires t.depth == u.depth && t.treeId == u.treeId
    ensures t == u
  {
    hide Index;
    assert forall i | i in t.leaves :: i in u.leaves && u.leaves[i] == t.leaves[i];
    assert t.leaves == u.leaves;
  }

  ghost predicate Accepts<H>(hash: Query<H> -> H, digest: H -> nat, proof: Proof<H>, root: H, treeId: Text,
      depth: nat) {
    && proof.treeId == treeId && proof.depth == depth
    && (proof.root.Some? ==> proof.root.value == root)
    && proof.setRoot == root
    && proof.leafIndex.Some? && proof.path.Some? && |proof.path.value| == depth
    && Index(digest, proof.value, depth) == Ok(proof.leafIndex.value)
    && proof.leafIndexCommitment == hash(IndexQuery(treeId, proof.leafIndex.value))
    && (proof.emptyLeaf.Some? ==> proof.emptyLeaf.value == hash(ZeroLeafQuery))
    && proof.leafValueCommitment == hash(LeafQuery(proof.value))
    && Fold(hash, hash(StartQuery(proof)), proof.path.value) == root
    && proof.proof == hash(SealQuery(proof, root, depth))
  }

  /** The leaf a proof starts from: the empty leaf for non-membership, the value's leaf otherwise. */
  ghost function StartQuery<H>(proof: Proof<H>): Query<H> {
    if proof.emptyLeaf.Some? then ZeroLeafQuery else LeafQuery(proof.value)
  }

  function SealQuery<H>(proof: Proof<H>, root: H, depth: nat): Query<H>
    requires proof.leafIndex.Some? && proof.path.Some?
  {
    if proof.emptyLeaf.Some? then NonMembershipQuery(root, proof.value, proof.leafIndex.value, depth, proof.path.value)
    else InclusionQuery(root, proof.value, proof.leafIndex.value, depth, proof.path.value)
  }

  /** What acceptance says, on the fields of the proof. */
  lemma AcceptedMeans<H>(hash: Query<H> -> H, digest: H -> nat, proof: Proof<H>, root: H, treeId: Text, depth: nat)
    requires Accepts(hash, digest, proof, root, treeId, depth)
    ensures proof.treeId == treeId && proof.depth == depth && proof.setRoot == root && proof.root in {None, Some(root)}
    ensures proof.leafIndex.Some? && proof.path.Some? && |proof.path.value| == depth && 1 <= depth <= 30
    ensures proof.leafIndex.value == digest(proof.value) % PowerOfTwo(depth)
    ensures proof.leafIndexCommitment == hash(IndexQuery(treeId, proof.leafIndex.value))
    ensures proof.leafValueCommitment == hash(LeafQuery(proof.value))
    ensures proof.emptyLeaf in {None, Some(hash(ZeroLeafQuery))}
    ensures var i, path := proof.leafIndex.value, proof.path.value;
      proof.proof == if proof.emptyLeaf.Some? then hash(NonMembershipQuery(root, proof.value, i, depth, path))
                     else hash(InclusionQuery(root, proof.value, i, depth, path))
  {
    hide Fold, StartQuery, LowBits, PowerOfTwo;
    IndexIsRemainder(digest, proof.value, depth);
  }

  method VerifyProof<H(==)>(hash: Query<H> -> H, digest: H -> nat, proof: Proof<H>, root: H, treeId: Text, depth: nat)
    returns (r: Result<bool, Error>)
    ensures r == Ok(true) <==> Accepts(hash, digest, proof, root, treeId, depth)
    ensures r.Err? ==> r.error == DepthInvalid && !(1 <= depth <= 30)
  {
    hide Index;
    if proof.treeId != treeId || proof.depth != depth { return Ok(false); }
    if proof.root.Some? && proof.root.value != root { return Ok(false); }
    if proof.setRoot != root { return Ok(false); }
    if proof.leafIndex.None? || proof.path.None? || |proof.path.value| != depth { return Ok(false); }
    var expected := Index(digest, proof.value, depth);
    if expected.Err? { return Err(DepthInvalid); }
    if proof.leafIndex.value != expected.value { return Ok(false); }
    if proof.leafIndexCommitment != hash(IndexQuery(treeId, proof.leafIndex.value)) { return Ok(false); }
    var zeroes := ZeroHashes(hash, depth);
    var nonMembership := proof.emptyLeaf.Some?;
    var current := if nonMembership then zeroes[0] else hash(LeafQuery(proof.value));
    if nonMembership && proof.emptyLeaf.value != zeroes[0] { return Ok(false); }
    if proof.leafValueCommitment != hash(LeafQuery(proof.value)) { return Ok(false); }
    var path := proof.path.value;
    for i := 0 to |path|
      invariant current == Fold(hash, hash(StartQuery(proof)), path[..i])
    {
      assert path[..i + 1][..i] == path[..i];
      current := if path[i].side == LEFT then hash(NodeQuery(path[i].sibling, current))
                 else hash(NodeQuery(current, path[i].sibling));
    }
    assert path[..|path|] == path;
    if current != root { return Ok(false); }
    return Ok(proof.proof == hash(SealQuery(proof, root, depth)));
  }

  /** The shared part of the two provers. */
  method MakeProof<H(==)>(hash: Query<H> -> H, value: H, tree: Tree<H>, index: nat, emptyLeaf: Option<H>)
    returns (proof: Proof<H>)
    requires AreZeroes(hash, tree.zeroes, tree.depth)
    ensures proof.setRoot == tree.root && proof.root == Some(tree.root) && proof.value == value
    ensures proof.treeId == tree.treeId && proof.depth == tree.depth
    ensures proof.leafIndex == Some(index) && proof.leafIndexCommitment == hash(IndexQuery(tree.treeId, index))
    ensures proof.leafValueCommitment == hash(LeafQuery(value)) && proof.emptyLeaf == emptyLeaf
    ensures proof.path == Some(SiblingPath(hash, tree.leaves, index, tree.depth))
    ensures proof.proof == hash(SealQuery(proof, tree.root, tree.depth))
  {
    var path := BuildPath(hash, tree.leaves, index, tree.depth, tree.zeroes);
    var seal := if emptyLeaf.Some? then NonMembershipQuery(tree.root, value, index, tree.depth, path)
                else InclusionQuery(tree.root, value, index, tree.depth, path);
    proof := Proof(tree.root, Some(tree.root), value, tree.treeId, tree.depth, Some(index),
                   hash(IndexQuery(tree.treeId, index)), hash(LeafQuery(value)), emptyLeaf, Some(path), hash(seal));
  }

  /** Proving inclusion succeeds for exactly the values in the set, and the proof verifies. */
  method ProveInclusion<H(==)>(hash: Query<H> -> H, digest: H -> nat, value: H, tree: Tree<H>, ghost values: set<H>)
    returns (r: Result<Proof<H>, Error>)
    requires IsTree(hash, digest, values, tree)
    ensures r.Ok? <==> value in values
    ensures r.Ok? ==>
      && r.value.value == value && r.value.emptyLeaf.None? && r.value.leafIndex.Some? && r.value.path.Some?
      && r.value.proof
         == hash(InclusionQuery(tree.root, value, r.value.leafIndex.value, tree.depth, r.value.path.value))
      && Accepts(hash, digest, r.value, tree.root, tree.treeId, tree.depth)
    ensures r.Err? ==> r.error == if 1 <= tree.depth <= 30 then ValueMissing else DepthInvalid
  {
    var index := Index(digest, value, tree.depth);
    if index.Err? { return Err(DepthInvalid); }
    if index.value !in tree.leaves || tree.leaves[index.value] != value { return Err(ValueMissing); }
    var proof := MakeProof(hash, value, tree, index.value, None);
    ProofFolds(hash, tree, index.value);
    r := Ok(proof);
  }

  /** Proving non-membership succeeds for exactly the values whose index is free, and the proof verifies. */
  method ProveNonMembership<H(==)>(hash: Query<H> -> H, digest: H -> nat, value: H, tree: Tree<H>, ghost values: set<H>)
    returns (r: Result<Proof<H>, Error>)
    requires IsTree(hash, digest, values, tree)
    ensures r.Ok? <==>
      && 1 <= tree.depth <= 30
      && (forall v | v in values :: Index(digest, v, tree.depth) != Index(digest, value, tree.depth))
    ensures r.Ok? ==>
      && r.value.value == value && r.value.emptyLeaf == Some(hash(ZeroLeafQuery))
      && r.value.leafIndex.Some? && r.value.path.Some?
      && r.value.proof
         == hash(NonMembershipQuery(tree.root, value, r.value.leafIndex.value, tree.depth, r.value.path.value))
      && Accepts(hash, digest, r.value, tree.root, tree.treeId, tree.depth)
      && SidesFollow(r.value.path.value, r.value.leafIndex.value)
    ensures r.Err? ==> r.error == if 1 <= tree.depth <= 30 then ValuePresent else DepthInvalid
  {
    var index := Index(digest, value, tree.depth);
    if index.Err? { return Err(DepthInvalid); }
    if index.value in tree.leaves { return Err(ValuePresent); }
    var proof := MakeProof(hash, value, tree, index.value, Some(tree.zeroes[0]));
    ProofFolds(hash, tree, index.value);
    PathSides(hash, tree.leaves, index.value, tree.depth);
    r := Ok(proof);
  }

  lemma ProofFolds<H>(hash: Query<H> -> H, tree: Tree<H>, index: nat)
    requires index < PowerOfTwo(tree.depth)
    requires tree.root == Dense(hash, tree.leaves, tree.depth, 0)
    ensures |SiblingPath(hash, tree.leaves, index, tree.depth)| == tree.depth
    ensures Fold(hash, hash(LeafAt(tree.leaves, index)), SiblingPath(hash, tree.leaves, index, tree.depth)) == tree.root
  {
    AncestorBound(index, tree.depth, 0);
    PathFolds(hash, tree.leaves, index, tree.depth);
  }

  // ---------- Soundness ----------

  /** Every input hashed in the full subtree at a position. */
  ghost function DenseQueries<H>(hash: Query<H> -> H, leaves: map<nat, H>, level: nat, position: nat): set<Query<H>> {
    {DenseQuery(hash, leaves, level, position)} +
    if level == 0 then {} else
      DenseQueries(hash, leaves, level - 1, 2 * position) + DenseQueries(hash, leaves, level - 1, 2 * position + 1)
  }

  ghost function PathQueries<H>(hash: Query<H> -> H, current: H, path: seq<Step<H>>): set<Query<H>> {
    if path == [] then {} else
      var before := path[..|path| - 1];
      PathQueries(hash, current, before) + {StepQuery(Fold(hash, current, before), path[|path| - 1])}
  }

  /** Everything hashed on the way from a proof's leaf to its root. */
  ghost function ProofQueries<H>(hash: Query<H> -> H, proof: Proof<H>): set<Query<H>>
    requires proof.path.Some?
  {
    {StartQuery(proof)} + PathQueries(hash, hash(StartQuery(proof)), proof.path.value)
  }

  /** The leaf position that the sides of a path lead down to from `top`. */
  ghost function LeafPosition<H>(path: seq<Step<H>>, top: nat): nat {
    if path == [] then top else
      var n := |path| - 1;
      LeafPosition(path[..n], 2 * top + if path[n].side == LEFT then 1 else 0)
  }

  lemma {:induction false} FoldBinds<H>(hash: Query<H> -> H, leaves: map<nat, H>, start: Query<H>, path: seq<Step<H>>,
      top: nat)
    requires Fold(hash, hash(start), path) == Dense(hash, leaves, |path|, top)
    requires Separates(hash, DenseQueries(hash, leaves, |path|, top) + {start} + PathQueries(hash, hash(start), path))
    ensures start == LeafAt(leaves, LeafPosition(path, top))
    decreases |path|
  {
    assert DenseQuery(hash, leaves, |path|, top) in DenseQueries(hash, leaves, |path|, top);
    if path != [] {
      var n := |path| - 1;
      var last := StepQuery(Fold(hash, hash(start), path[..n]), path[n]);
      assert last in PathQueries(hash, hash(start), path);
      assert last == DenseQuery(hash, leaves, |path|, top);
      FoldBinds(hash, leaves, start, path[..n], 2 * top + if path[n].side == LEFT then 1 else 0);
    }
  }

  /** Every side is left exactly where the bit of the index is set. The verifier does not ask for this. Where it
      holds, an accepted non-membership proof is sound (`NonMembershipIsSound`); what holds without it is
      `NonMembershipHoldsExactly`. */
  ghost predicate SidesFollow<H>(path: seq<Step<H>>, index: nat) {
    forall l | 0 <= l < |path| :: path[l].side == LEFT <==> Ancestor(index, l) % 2 == 1
  }

  lemma {:induction false} PathSides<H>(hash: Query<H> -> H, leaves: map<nat, H>, index: nat, depth: nat)
    ensures |SiblingPath(hash, leaves, index, depth)| == depth
    ensures SidesFollow(SiblingPath(hash, leaves, index, depth), index)
    decreases depth
  {
    if depth > 0 { PathSides(hash, leaves, index, depth - 1); }
  }

  lemma {:induction false} SidesLeadToIndex<H>(path: seq<Step<H>>, index: nat)
    requires SidesFollow(path, index)
    ensures LeafPosition(path, Ancestor(index, |path|)) == index
    decreases |path|
  {
    if path != [] {
      var n := |path| - 1;
      SidesLeadToIndex(path[..n], index);
      assert Ancestor(index, |path|) == Ancestor(index, n) / 2;
      assert path[n].side == LEFT <==> Ancestor(index, n) % 2 == 1;
    }
  }

  lemma {:induction false} PositionFollowsSides<H>(path: seq<Step<H>>, top: nat)
    ensures Ancestor(LeafPosition(path, top), |path|) == top
    ensures SidesFollow(path, LeafPosition(path, top))
    decreases |path|
  {
    if path != [] {
      var n := |path| - 1;
      var child := 2 * top + if path[n].side == LEFT then 1 else 0;
      PositionFollowsSides(path[..n], child);
      var position := LeafPosition(path[..n], child);
      forall l | 0 <= l < |path| ensures path[l].side == LEFT <==> Ancestor(position, l) % 2 == 1 {
        if l < n { assert path[..n][l] == path[l]; }
      }
    }
  }

  lemma {:induction false} LeafPositionBound<H>(path: seq<Step<H>>, top: nat, k: nat)
    requires top < PowerOfTwo(k)
    ensures LeafPosition(path, top) < PowerOfTwo(k + |path|)
    decreases |path|
  {
    if path != [] {
      var n := |path| - 1;
      LeafPositionBound(path[..n], 2 * top + if path[n].side == LEFT then 1 else 0, k + 1);
    }
  }

  /** The sides follow the bits of an index exactly when they lead to it. */
  lemma SidesFollowExactly<H>(path: seq<Step<H>>, index: nat)
    requires index < PowerOfTwo(|path|)
    ensures SidesFollow(path, index) <==> LeafPosition(path, 0) == index
  {
    hide SidesFollow;
    AncestorBound(index, |path|, 0);
    PositionFollowsSides(path, 0);
    if SidesFollow(path, index) { SidesLeadToIndex(path, index); }
  }

  /** What an accepted proof says of the tree: the leaf it starts from is the one at the position its
      sides lead to. */
  lemma AcceptedProofNamesLeaf<H>(hash: Query<H> -> H, digest: H -> nat, values: set<H>, tree: Tree<H>, proof: Proof<H>)
    requires IsTree(hash, digest, values, tree)
    requires Accepts(hash, digest, proof, tree.root, tree.treeId, tree.depth)
    requires Separates(hash, DenseQueries(hash, tree.leaves, tree.depth, 0) + ProofQueries(hash, proof))
    ensures StartQuery(proof) == LeafAt(tree.leaves, LeafPosition(proof.path.value, 0))
  {
    FoldBinds(hash, tree.leaves, StartQuery(proof), proof.path.value, 0);
  }

  /** Accepted inclusion: the value is in the set, whatever the sides. */
  lemma InclusionIsSound<H>(hash: Query<H> -> H, digest: H -> nat, values: set<H>, tree: Tree<H>, proof: Proof<H>)
    requires IsTree(hash, digest, values, tree)
    requires Accepts(hash, digest, proof, tree.root, tree.treeId, tree.depth) && proof.emptyLeaf.None?
    requires Separates(hash, DenseQueries(hash, tree.leaves, tree.depth, 0) + ProofQueries(hash, proof))
    ensures proof.value in values
  {
    AcceptedProofNamesLeaf(hash, digest, values, tree, proof);
  }

  /** Accepted non-membership, with sides following the bits of the leaf index: the value is not in
      the set, and no value of the set shares its index. */
  lemma NonMembershipIsSound<H>(hash: Query<H> -> H, digest: H -> nat, values: set<H>, tree: Tree<H>, proof: Proof<H>)
    requires IsTree(hash, digest, values, tree)
    requires Accepts(hash, digest, proof, tree.root, tree.treeId, tree.depth) && proof.emptyLeaf.Some?
    requires SidesFollow(proof.path.value, proof.leafIndex.value)
    requires Separates(hash, DenseQueries(hash, tree.leaves, tree.depth, 0) + ProofQueries(hash, proof))
    ensures proof.value !in values
    ensures forall v | v in values :: Index(digest, v, tree.depth) != Index(digest, proof.value, tree.depth)
  {
    AcceptedProofNamesLeaf(hash, digest, values, tree, proof);
    SidesLeadToIndex(proof.path.value, proof.leafIndex.value);
    AncestorBound(proof.leafIndex.value, tree.depth, 0);
  }

  // ---------- Non-membership without the sides ----------

  /** A non-membership proof for a value, with the value's own index but the path of another position. */
  ghost function ProofElsewhere<H>(hash: Query<H> -> H, tree: Tree<H>, value: H, index: nat, position: nat): Proof<H> {
    var path := SiblingPath(hash, tree.leaves, position, tree.depth);
    Proof(tree.root, Some(tree.root), value, tree.treeId, tree.depth, Some(index), hash(IndexQuery(tree.treeId, index)),
          hash(LeafQuery(value)), Some(hash(ZeroLeafQuery)), Some(path),
          hash(NonMembershipQuery(tree.root, value, index, tree.depth, path)))
  }

  lemma PathQueriesLast<H>(hash: Query<H> -> H, current: H, path: seq<Step<H>>, last: Step<H>)
    ensures PathQueries(hash, current, path + [last]) ==
        PathQueries(hash, current, path) + {StepQuery(Fold(hash, current, path), last)}
  {
    hide StepQuery;
    assert (path + [last])[..|path|] == path;
  }

  lemma DenseQueriesBelow<H>(hash: Query<H> -> H, leaves: map<nat, H>, level: nat, cursor: nat)
    ensures DenseQuery(hash, leaves, level + 1, cursor / 2) in DenseQueries(hash, leaves, level + 1, cursor / 2)
    ensures DenseQueries(hash, leaves, level, cursor) <= DenseQueries(hash, leaves, level + 1, cursor / 2)
  {
    hide DenseQuery;
    assert cursor == 2 * (cursor / 2) + cursor % 2;
  }

  lemma NoPathIsDense<H>(hash: Query<H> -> H, leaves: map<nat, H>, position: nat)
    ensures DenseQueries(hash, leaves, 0, position) == {DenseQuery(hash, leaves, 0, position)}
    ensures PathQueries(hash, Dense(hash, leaves, 0, position), SiblingPath(hash, leaves, position, 0)) == {}
  {
    hide Dense, DenseQuery;
  }

  lemma FreeLeaf<H>(hash: Query<H> -> H, leaves: map<nat, H>, position: nat)
    requires position !in leaves
    ensures DenseQuery(hash, leaves, 0, position) == LeafAt(leaves, position) == ZeroLeafQuery
    ensures Dense(hash, leaves, 0, position) == hash(ZeroLeafQuery)
  {
  }

  /** Everything hashed on the way up from a position is hashed in the tree. */
  lemma {:induction false} PathIsDense<H>(hash: Query<H> -> H, leaves: map<nat, H>, position: nat, level: nat)
    ensures var all := DenseQueries(hash, leaves, level, Ancestor(position, level));
      && DenseQuery(hash, leaves, 0, position) in all
      && PathQueries(hash, Dense(hash, leaves, 0, position), SiblingPath(hash, leaves, position, level)) <= all
    decreases level
  {
    hide Dense, DenseQuery, StepQuery, DenseQueries, PathQueries, SiblingPath;
    NoPathIsDense(hash, leaves, position);
    if level > 0 {
      PathIsDense(hash, leaves, position, level - 1);
      PathFolds(hash, leaves, position, level - 1);
      var start, path := Dense(hash, leaves, 0, position), SiblingPath(hash, leaves, position, level - 1);
      var cursor := Ancestor(position, level - 1);
      SiblingPathLast(hash, leaves, position, level);
      var last := Step(if cursor % 2 == 0 then RIGHT else LEFT, Dense(hash, leaves, level - 1, SiblingOf(cursor)));
      PathQueriesLast(hash, start, path, last);
      StepIsDense(hash, leaves, level - 1, cursor);
      DenseQueriesBelow(hash, leaves, level - 1, cursor);
    }
  }

  /** The verifier takes such a proof for a value of the set whenever the other position is free. Nothing
      is hashed for it that is not in the tree, so this needs no collision. */
  lemma ElsewhereIsAccepted<H>(hash: Query<H> -> H, digest: H -> nat, values: set<H>, tree: Tree<H>, value: H,
      position: nat)
    requires IsTree(hash, digest, values, tree) && value in values
    requires position < PowerOfTwo(tree.depth) && position !in tree.leaves
    ensures Index(digest, value, tree.depth).Ok?
    ensures var proof := ProofElsewhere(hash, tree, value, Index(digest, value, tree.depth).value, position);
      && Accepts(hash, digest, proof, tree.root, tree.treeId, tree.depth)
      && ProofQueries(hash, proof) <= DenseQueries(hash, tree.leaves, tree.depth, 0)
  {
    hide Index, Dense, DenseQuery, DenseQueries, PathQueries, SiblingPath, Fold, IsTree, PowerOfTwo, Ancestor, LeafAt;
    OccupiedIndex(hash, digest, values, tree, value);
    TreeRoot(hash, digest, values, tree);
    FreeLeaf(hash, tree.leaves, position);
    ProofFolds(hash, tree, position);
    PathIsDense(hash, tree.leaves, position, tree.depth);
    AncestorBound(position, tree.depth, 0);
    PowerOfTwoZero();
  }

  lemma PowerOfTwoZero()
    ensures PowerOfTwo(0) == 1
  {
  }

  lemma OccupiedIndex<H>(hash: Query<H> -> H, digest: H -> nat, values: set<H>, tree: Tree<H>, value: H)
    requires IsTree(hash, digest, values, tree) && value in values
    ensures Index(digest, value, tree.depth).Ok?
  {
    hide Index, Dense;
  }

  lemma TreeRoot<H>(hash: Query<H> -> H, digest: H -> nat, values: set<H>, tree: Tree<H>)
    requires IsTree(hash, digest, values, tree)
    ensures tree.root == Dense(hash, tree.leaves, tree.depth, 0)
  {
    hide Index, Dense;
  }

  /** An accepted non-membership proof against the tree, with no collision in sight. */
  ghost predicate AcceptedAsAbsent<H>(hash: Query<H> -> H, digest: H -> nat, tree: Tree<H>, proof: Proof<H>) {
    && Accepts(hash, digest, proof, tree.root, tree.treeId, tree.depth) && proof.emptyLeaf.Some?
    && Separates(hash, DenseQueries(hash, tree.leaves, tree.depth, 0) + ProofQueries(hash, proof))
  }

  /** Every accepted non-membership proof against the tree speaks of a value outside the set. */
  ghost predicate NonMembershipHolds<H(!new)>(hash: Query<H> -> H, digest: H -> nat, values: set<H>, tree: Tree<H>) {
    forall proof: Proof<H> | AcceptedAsAbsent(hash, digest, tree, proof) :: proof.value !in values
  }

  /** Without a condition on the sides, non-membership proofs can be relied on exactly for the empty set and
      for a full tree. */
  lemma NonMembershipHoldsExactly<H(!new)>(hash: Query<H> -> H, digest: H -> nat, values: set<H>, tree: Tree<H>)
    requires IsTree(hash, digest, values, tree)
    requires Separates(hash, DenseQueries(hash, tree.leaves, tree.depth, 0))
    ensures NonMembershipHolds(hash, digest, values, tree) <==>
      values == {} || forall p: nat | p < PowerOfTwo(tree.depth) :: p in tree.leaves
  {
    hide AcceptedAsAbsent, IsTree, DenseQueries, Separates;
    if p: nat :| p < PowerOfTwo(tree.depth) && p !in tree.leaves {
      if value :| value in values {
        var proof := AbsentElsewhere(hash, digest, values, tree, value, p);
      }
    } else {
      forall proof: Proof<H> ensures !AcceptedAsAbsent(hash, digest, tree, proof) {
        FullTreeHasNoEmptyLeaf(hash, digest, values, tree, proof);
      }
    }
  }

  lemma AbsentElsewhere<H>(hash: Query<H> -> H, digest: H -> nat, values: set<H>, tree: Tree<H>, value: H,
      position: nat)
    returns (proof: Proof<H>)
    requires IsTree(hash, digest, values, tree) && value in values
    requires Separates(hash, DenseQueries(hash, tree.leaves, tree.depth, 0))
    requires position < PowerOfTwo(tree.depth) && position !in tree.leaves
    ensures AcceptedAsAbsent(hash, digest, tree, proof) && proof.value == value
  {
    hide IsTree, DenseQueries, ProofQueries, Accepts, Index;
    ElsewhereIsAccepted(hash, digest, values, tree, value, position);
    proof := ProofElsewhere(hash, tree, value, Index(digest, value, tree.depth).value, position);
    var all := DenseQueries(hash, tree.leaves, tree.depth, 0);
    assert all + ProofQueries(hash, proof) == all;
  }

  lemma FullTreeHasNoEmptyLeaf<H>(hash: Query<H> -> H, digest: H -> nat, values: set<H>, tree: Tree<H>, proof: Proof<H>)
    requires IsTree(hash, digest, values, tree) && forall p: nat | p < PowerOfTwo(tree.depth) :: p in tree.leaves
    ensures !AcceptedAsAbsent(hash, digest, tree, proof)
  {
    if AcceptedAsAbsent(hash, digest, tree, proof) {
      AcceptedProofNamesLeaf(hash, digest, values, tree, proof);
      LeafPositionBound(proof.path.value, 0, 0);
    }
  }
}
