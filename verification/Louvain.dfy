/** Greedy modularity passes: every node in turn is tried in its neighbours' communities, and the
    communities are renumbered after each pass. Modularity is any function of assignments. */
module Louvain {
  import opened Wrappers
  import opened Text
  import opened Graph
  import opened Community

  // ---------- What a run is ----------

  /** Each node numbered by its place in the list, its last one if it is listed more than once. */
  ghost function Initial(nodes: seq<Text>): Assignment {
    if nodes == [] then map[] else Initial(nodes[..|nodes| - 1])[nodes[|nodes| - 1] := |nodes| - 1]
  }

  /** The node at the other end of an edge, if it is one of the edge's ends. */
  function OtherEnd(edge: Edge, node: Text): Option<Text> {
    if edge.src == node then Some(edge.dst) else if edge.dst == node then Some(edge.src) else None
  }

  /** The other end of an edge is the node it joins to this one, either way round. */
  lemma OtherEndIs(edge: Edge, node: Text, w: Text)
    ensures OtherEnd(edge, node) == Some(w) <==>
      (edge.src == node && edge.dst == w) || (edge.dst == node && edge.src == w)
  {
  }

  /** The communities a node may move to, in ascending order: its own and those of the other ends of its
      edges. The empty id does not count. */
  ghost function Candidates(edges: seq<Edge>, a: Assignment, node: Text): (r: seq<int>)
    requires node in a
    ensures Ascending(r)
  {
    if edges == [] then [a[node]] else
      var before := Candidates(edges[..|edges| - 1], a, node);
      var other := OtherEnd(edges[|edges| - 1], node);
      if other.Some? && other.value != [] && other.value in a then InsertId(a[other.value], before) else before
  }

  datatype Choice = Choice(community: int, score: int)

  /** The move kept after trying the candidates in order: one that gains more than the tolerance over the
      one kept so far, or scores the same with a smaller number. */
  ghost function Scan(modularity: Assignment -> int, tolerance: int, a: Assignment, node: Text,
      candidates: seq<int>): Choice
    requires node in a
  {
    if candidates == [] then Choice(a[node], modularity(a)) else
      var kept, c := Scan(modularity, tolerance, a, node, candidates[..|candidates| - 1]), candidates[|candidates| - 1];
      var trial := modularity(a[node := c]);
      if trial > kept.score + tolerance || (trial == kept.score && c < kept.community) then Choice(c, trial) else kept
  }

  /** One node's turn. */
  ghost function Turn(graph: Graph, modularity: Assignment -> int, tolerance: int, a: Assignment,
      node: Text): (r: Assignment)
    requires node in a
    ensures r.Keys == a.Keys
  {
    a[node := Scan(modularity, tolerance, a, node, Candidates(graph.edges, a, node)).community]
  }

  /** The turns of some nodes, one after the other. */
  ghost function Turns(graph: Graph, modularity: Assignment -> int, tolerance: int, a: Assignment,
      nodes: seq<Text>): (r: Assignment)
    requires forall v | v in nodes :: v in a
    ensures r.Keys == a.Keys
    decreases |nodes|
  {
    if nodes == [] then a else
      var before := Turns(graph, modularity, tolerance, a, nodes[..|nodes| - 1]);
      Turn(graph, modularity, tolerance, before, nodes[|nodes| - 1])
  }

  /** The turn at place i changes something. */
  ghost predicate MovesAt(graph: Graph, modularity: Assignment -> int, tolerance: int, a: Assignment,
      nodes: seq<Text>, i: nat)
    requires i < |nodes| && forall v | v in nodes :: v in a
  {
    var before := Turns(graph, modularity, tolerance, a, nodes[..i]);
    Turn(graph, modularity, tolerance, before, nodes[i]) != before
  }

  /** No turn of the pass moves its node. */
  ghost predicate Quiet(graph: Graph, modularity: Assignment -> int, tolerance: int, a: Assignment, nodes: seq<Text>)
    requires forall v | v in nodes :: v in a
  {
    forall i: nat | i < |nodes| :: !MovesAt(graph, modularity, tolerance, a, nodes, i)
  }

  /** The nodes in the order of their turns. */
  ghost function Order(graph: Graph): (r: seq<Text>)
    ensures forall v | v in r :: v in Elements(graph.nodes)
    ensures forall v | v in Elements(graph.nodes) :: v in r
  {
    var r := Sort(graph.nodes);
    assert forall v | v in r :: v in Elements(r);
    r
  }

  /** The assignment after k passes. */
  ghost function AfterPasses(graph: Graph, modularity: Assignment -> int, tolerance: int, k: nat): (r: Assignment)
    ensures r.Keys == Elements(graph.nodes)
  {
    if k == 0 then
      InitialIsSingletons(graph.nodes);
      Initial(Order(graph))
    else
      Normalized(Turns(graph, modularity, tolerance, AfterPasses(graph, modularity, tolerance, k - 1), Order(graph)))
  }

  ghost predicate QuietAfter(graph: Graph, modularity: Assignment -> int, tolerance: int, k: nat) {
    Quiet(graph, modularity, tolerance, AfterPasses(graph, modularity, tolerance, k), Order(graph))
  }

  /** The run ends with pass k: no earlier pass was quiet, and pass k was, or k is the limit. */
  ghost predicate EndsAfter(graph: Graph, modularity: Assignment -> int, tolerance: int, limit: int, k: nat) {
    && (k <= limit || k == 0)
    && (forall j: nat | j + 1 < k :: !QuietAfter(graph, modularity, tolerance, j))
    && (k < limit ==> k > 0 && QuietAfter(graph, modularity, tolerance, k - 1))
  }

  /** A run has one end, so the two predicates above determine the result. */
  lemma EndIsUnique(graph: Graph, modularity: Assignment -> int, tolerance: int, limit: int, k: nat, l: nat)
    requires EndsAfter(graph, modularity, tolerance, limit, k) && EndsAfter(graph, modularity, tolerance, limit, l)
    ensures k == l
  {
    hide QuietAfter;
  }

  // ---------- The start ----------

  /** Every node in a community of its own. */
  ghost predicate AllSingletons(nodes: seq<Text>, a: Assignment) {
    a.Keys == Elements(nodes) && forall u, v | u in a && v in a && a[u] == a[v] :: u == v
  }

  lemma {:induction false} InitialPlaces(nodes: seq<Text>)
    ensures Initial(nodes).Keys == Elements(nodes)
    ensures forall v | v in Initial(nodes) :: 0 <= Initial(nodes)[v] < |nodes| && nodes[Initial(nodes)[v]] == v
  {
    if nodes != [] {
      var n := |nodes| - 1;
      InitialPlaces(nodes[..n]);
      assert nodes == nodes[..n] + [nodes[n]];
    }
  }

  lemma InitialIsSingletons(nodes: seq<Text>)
    ensures AllSingletons(nodes, Initial(Sort(nodes)))
  {
    InitialPlaces(Sort(nodes));
  }

  method InitialAssignment(nodes: seq<Text>) returns (a: Assignment)
    ensures a == Initial(Sort(nodes))
  {
    hide Sort;
    var sorted := Sort(nodes);
    a := map[];
    for index := 0 to |sorted|
      invariant a == Initial(sorted[..index])
    {
      assert sorted[..index + 1][..index] == sorted[..index];
      a := a[sorted[index] := index];
    }
    assert sorted[..|sorted|] == sorted;
  }

  // ---------- One turn ----------

  /** The other ends of a node's edges that have a community; the empty id does not count. */
  ghost predicate Neighbouring(graph: Graph, a: Assignment, node: Text, w: Text) {
    w != [] && w in a && exists e | e in graph.edges :: OtherEnd(e, node) == Some(w)
  }

  /** The candidates are the node's own community and its neighbours', and no others. */
  lemma {:induction false} CandidatesAre(graph: Graph, a: Assignment, node: Text, n: nat, c: int)
    requires node in a && n <= |graph.edges|
    ensures c in Candidates(graph.edges[..n], a, node) <==>
      c == a[node] || exists j | 0 <= j < n :: LeadsTo(graph.edges[j], a, node, c)
  {
    hide InsertId;
    if n > 0 {
      assert graph.edges[..n][..n - 1] == graph.edges[..n - 1];
      CandidatesAre(graph, a, node, n - 1, c);
      CandidateStep(graph.edges[..n], a, node, c);
    }
  }

  /** The edge's other end is in community c. */
  ghost predicate LeadsTo(e: Edge, a: Assignment, node: Text, c: int) {
    var other := OtherEnd(e, node);
    other.Some? && other.value != [] && other.value in a && a[other.value] == c
  }

  lemma CandidateStep(edges: seq<Edge>, a: Assignment, node: Text, c: int)
    requires edges != [] && node in a
    ensures var n := |edges| - 1;
      c in Candidates(edges, a, node) <==> c in Candidates(edges[..n], a, node) || LeadsTo(edges[n], a, node, c)
  {
    hide InsertId;
    var other := OtherEnd(edges[|edges| - 1], node);
    if other.Some? && other.value != [] && other.value in a {
      var d := a[other.value];
    }
  }

  lemma NeighbourIsCandidate(graph: Graph, a: Assignment, node: Text, w: Text)
    requires node in a && Neighbouring(graph, a, node, w)
    ensures a[w] in Candidates(graph.edges, a, node)
  {
    hide Candidates;
    var c := a[w];
    assert graph.edges[..|graph.edges|] == graph.edges;
    CandidatesAre(graph, a, node, |graph.edges|, c);
    var e :| e in graph.edges && OtherEnd(e, node) == Some(w);
    var j :| 0 <= j < |graph.edges| && graph.edges[j] == e;
    assert LeadsTo(graph.edges[j], a, node, c);
  }

  /** The kept score is that of the kept move, never falls and, for tolerance >= 0, is missed by no candidate
      by more than the tolerance; a move away from the node's community is one to a candidate. */
  lemma {:induction false} ScanBounds(modularity: Assignment -> int, tolerance: int, a: Assignment, node: Text,
      candidates: seq<int>)
    requires node in a
    ensures var kept := Scan(modularity, tolerance, a, node, candidates);
      && kept.score == modularity(a[node := kept.community])
      && (kept.community == a[node] || kept.community in candidates)
      && (tolerance >= 0 ==>
            && kept.score >= modularity(a)
            && (forall c | c in candidates :: modularity(a[node := c]) <= kept.score + tolerance))
  {
    if candidates == [] {
      assert a[node := a[node]] == a;
    } else {
      var n := |candidates| - 1;
      ScanBounds(modularity, tolerance, a, node, candidates[..n]);
      assert candidates == candidates[..n] + [candidates[n]];
    }
  }

  /** For tolerance >= 0 a node is moved only for a gain above the tolerance, or to a smaller number at the same
      score. */
  lemma {:induction false} ScanGains(modularity: Assignment -> int, tolerance: int, a: Assignment, node: Text,
      candidates: seq<int>)
    requires node in a && tolerance >= 0
    ensures var kept := Scan(modularity, tolerance, a, node, candidates);
      || kept == Choice(a[node], modularity(a))
      || kept.score > modularity(a) + tolerance
      || (kept.score == modularity(a) && kept.community < a[node])
  {
    if candidates != [] {
      ScanGains(modularity, tolerance, a, node, candidates[..|candidates| - 1]);
    }
  }

  /** Without tolerance the kept move is the best one, and among the best the one with the least number. */
  lemma {:induction false} ScanIsBest(modularity: Assignment -> int, a: Assignment, node: Text, candidates: seq<int>)
    requires node in a
    ensures var kept := Scan(modularity, 0, a, node, candidates);
      forall c | c in candidates || c == a[node] ::
        modularity(a[node := c]) <= kept.score && (modularity(a[node := c]) == kept.score ==> kept.community <= c)
  {
    if candidates == [] {
      assert a[node := a[node]] == a;
    } else {
      var n := |candidates| - 1;
      ScanIsBest(modularity, a, node, candidates[..n]);
      assert candidates == candidates[..n] + [candidates[n]];
    }
  }

  lemma TurnNeverFalls(graph: Graph, modularity: Assignment -> int, tolerance: int, a: Assignment, node: Text)
    requires node in a && tolerance >= 0
    ensures modularity(a) <= modularity(Turn(graph, modularity, tolerance, a, node))
  {
    hide Candidates, Scan;
    ScanBounds(modularity, tolerance, a, node, Candidates(graph.edges, a, node));
  }

  /** A node that moves goes to the community of a neighbour. */
  lemma MovesToNeighbour(graph: Graph, modularity: Assignment -> int, tolerance: int, a: Assignment, node: Text)
    requires node in a && Turn(graph, modularity, tolerance, a, node) != a
    ensures exists w ::
      Neighbouring(graph, a, node, w) && Turn(graph, modularity, tolerance, a, node) == a[node := a[w]]
  {
    hide Candidates, Scan;
    var candidates := Candidates(graph.edges, a, node);
    ScanBounds(modularity, tolerance, a, node, candidates);
    var c := Scan(modularity, tolerance, a, node, candidates).community;
    assert a[node := a[node]] == a;
    assert graph.edges[..|graph.edges|] == graph.edges;
    CandidatesAre(graph, a, node, |graph.edges|, c);
    var j :| 0 <= j < |graph.edges| && LeadsTo(graph.edges[j], a, node, c);
    var w := OtherEnd(graph.edges[j], node).value;
    assert Neighbouring(graph, a, node, w) && a[w] == c;
  }

  // ---------- Never falling ----------

  lemma {:induction false} TurnsNeverFall(graph: Graph, modularity: Assignment -> int, tolerance: int, a: Assignment,
      nodes: seq<Text>)
    requires tolerance >= 0 && forall v | v in nodes :: v in a
    ensures modularity(a) <= modularity(Turns(graph, modularity, tolerance, a, nodes))
    decreases |nodes|
  {
    hide Turn;
    if nodes != [] {
      var n := |nodes| - 1;
      TurnsNeverFall(graph, modularity, tolerance, a, nodes[..n]);
      TurnNeverFalls(graph, modularity, tolerance, Turns(graph, modularity, tolerance, a, nodes[..n]), nodes[n]);
    }
  }

  /** Over any number of passes modularity never falls, from the singletons on. */
  lemma {:induction false} PassesNeverFall(graph: Graph, modularity: Assignment -> int, tolerance: int, j: nat, k: nat)
    requires PartitionOnly(modularity) && tolerance >= 0 && j <= k
    ensures modularity(AfterPasses(graph, modularity, tolerance, j)) <=
        modularity(AfterPasses(graph, modularity, tolerance, k))
    decreases k
  {
    hide AfterPasses;
    if j < k {
      PassesNeverFall(graph, modularity, tolerance, j, k - 1);
      PassNeverFalls(graph, modularity, tolerance, k - 1);
    }
  }

  lemma PassNeverFalls(graph: Graph, modularity: Assignment -> int, tolerance: int, k: nat)
    requires PartitionOnly(modularity) && tolerance >= 0
    ensures modularity(AfterPasses(graph, modularity, tolerance, k)) <=
        modularity(AfterPasses(graph, modularity, tolerance, k + 1))
  {
    hide Turns, SamePartition, Normalized, Order;
    var before := AfterPasses(graph, modularity, tolerance, k);
    TurnsNeverFall(graph, modularity, tolerance, before, Order(graph));
    var moved := Turns(graph, modularity, tolerance, before, Order(graph));
    assert SamePartition(moved, Normalized(moved));
  }

  /** The result scores at least as high as all singletons, however those are numbered. */
  lemma AboveSingletons(graph: Graph, modularity: Assignment -> int, tolerance: int, k: nat, s: Assignment)
    requires PartitionOnly(modularity) && tolerance >= 0 && AllSingletons(graph.nodes, s)
    ensures modularity(s) <= modularity(AfterPasses(graph, modularity, tolerance, k))
  {
    PassesNeverFall(graph, modularity, tolerance, 0, k);
    InitialIsSingletons(graph.nodes);
    SingletonsSame(graph.nodes, s, Initial(Sort(graph.nodes)));
  }

  lemma SingletonsSame(nodes: seq<Text>, a: Assignment, b: Assignment)
    requires AllSingletons(nodes, a) && AllSingletons(nodes, b)
    ensures SamePartition(a, b)
  {
  }

  // ---------- Where a run stops ----------

  /** No single move to a neighbour's community gains more than the tolerance. */
  ghost predicate LocalOptimum(graph: Graph, modularity: Assignment -> int, tolerance: int, a: Assignment) {
    forall node | node in a :: NoBetterMove(graph, modularity, tolerance, a, node)
  }

  ghost predicate NoBetterMove(graph: Graph, modularity: Assignment -> int, tolerance: int, a: Assignment, node: Text)
    requires node in a
  {
    forall w | Neighbouring(graph, a, node, w) :: modularity(a[node := a[w]]) <= modularity(a) + tolerance
  }

  lemma StayingIsBest(graph: Graph, modularity: Assignment -> int, tolerance: int, a: Assignment, node: Text)
    requires node in a && tolerance >= 0 && Turn(graph, modularity, tolerance, a, node) == a
    ensures NoBetterMove(graph, modularity, tolerance, a, node)
  {
    hide Candidates, Scan;
    var candidates := Candidates(graph.edges, a, node);
    var kept := Scan(modularity, tolerance, a, node, candidates);
    ScanBounds(modularity, tolerance, a, node, candidates);
    assert a[node := kept.community] == a;
    forall w | Neighbouring(graph, a, node, w) ensures modularity(a[node := a[w]]) <= modularity(a) + tolerance {
      var c := a[w];
      NeighbourIsCandidate(graph, a, node, w);
      assert c in candidates;
    }
  }

  lemma {:induction false} QuietTurns(graph: Graph, modularity: Assignment -> int, tolerance: int, a: Assignment,
      nodes: seq<Text>, i: nat)
    requires (forall v | v in nodes :: v in a) && Quiet(graph, modularity, tolerance, a, nodes) && i <= |nodes|
    ensures Turns(graph, modularity, tolerance, a, nodes[..i]) == a
  {
    hide Turn;
    if i > 0 {
      QuietTurns(graph, modularity, tolerance, a, nodes, i - 1);
      assert nodes[..i][..i - 1] == nodes[..i - 1];
      assert !MovesAt(graph, modularity, tolerance, a, nodes, i - 1);
    }
  }

  lemma QuietIsOptimum(graph: Graph, modularity: Assignment -> int, tolerance: int, a: Assignment, nodes: seq<Text>)
    requires tolerance >= 0 && (forall v | v in nodes :: v in a) && (forall v | v in a :: v in nodes)
    requires Quiet(graph, modularity, tolerance, a, nodes)
    ensures LocalOptimum(graph, modularity, tolerance, a)
  {
    hide Turn, Turns, NoBetterMove;
    forall node | node in a ensures NoBetterMove(graph, modularity, tolerance, a, node) {
      var i :| 0 <= i < |nodes| && nodes[i] == node;
      QuietTurns(graph, modularity, tolerance, a, nodes, i);
      assert !MovesAt(graph, modularity, tolerance, a, nodes, i);
      StayingIsBest(graph, modularity, tolerance, a, node);
    }
  }

  /** A run that ends before its limit ends where no single move gains more than the tolerance. */
  lemma EndsInOptimum(graph: Graph, modularity: Assignment -> int, tolerance: int, limit: int, k: nat)
    requires PartitionOnly(modularity) && tolerance >= 0
    requires EndsAfter(graph, modularity, tolerance, limit, k) && k < limit
    ensures LocalOptimum(graph, modularity, tolerance, AfterPasses(graph, modularity, tolerance, k))
  {
    hide Turns, Quiet, LocalOptimum, SamePartition;
    var before, order := AfterPasses(graph, modularity, tolerance, k - 1), Order(graph);
    assert QuietAfter(graph, modularity, tolerance, k - 1);
    QuietIsOptimum(graph, modularity, tolerance, before, order);
    QuietTurns(graph, modularity, tolerance, before, order, |order|);
    assert order[..|order|] == order;
    OptimumIsPartitionOnly(graph, modularity, tolerance, before, AfterPasses(graph, modularity, tolerance, k));
  }

  /** Renumbering communities keeps a local optimum one. */
  lemma OptimumIsPartitionOnly(graph: Graph, modularity: Assignment -> int, tolerance: int, a: Assignment,
      b: Assignment)
    requires PartitionOnly(modularity) && SamePartition(a, b) && LocalOptimum(graph, modularity, tolerance, a)
    ensures LocalOptimum(graph, modularity, tolerance, b)
  {
    hide NoBetterMove;
    forall node | node in b ensures NoBetterMove(graph, modularity, tolerance, b, node) {
      assert NoBetterMove(graph, modularity, tolerance, a, node);
      NoBetterMoveSame(graph, modularity, tolerance, a, b, node);
    }
  }

  lemma NoBetterMoveSame(graph: Graph, modularity: Assignment -> int, tolerance: int, a: Assignment, b: Assignment,
      node: Text)
    requires PartitionOnly(modularity) && SamePartition(a, b)
    requires node in a && NoBetterMove(graph, modularity, tolerance, a, node)
    ensures NoBetterMove(graph, modularity, tolerance, b, node)
  {
    hide SamePartition;
    SameKeys(a, b);
    forall w | Neighbouring(graph, b, node, w) ensures modularity(b[node := b[w]]) <= modularity(b) + tolerance {
      assert Neighbouring(graph, a, node, w);
      SameMove(a, b, node, w);
      assert modularity(a[node := a[w]]) == modularity(b[node := b[w]]);
      assert modularity(a) == modularity(b);
    }
  }

  lemma SameKeys(a: Assignment, b: Assignment)
    requires SamePartition(a, b)
    ensures a.Keys == b.Keys
  {
  }

  lemma SameMove(a: Assignment, b: Assignment, node: Text, w: Text)
    requires SamePartition(a, b) && node in a && w in a
    ensures SamePartition(a[node := a[w]], b[node := b[w]])
  {
    var a', b' := a[node := a[w]], b[node := b[w]];
    forall u, v | u in a' && v in a' ensures a'[u] == a'[v] <==> b'[u] == b'[v] {
      var u', v' := if u == node then w else u, if v == node then w else v;
      assert a'[u] == a[u'] && a'[v] == a[v'] && b'[u] == b[u'] && b'[v] == b[v'];
    }
  }

  // ---------- The loops ----------

  method NeighbourCommunities(graph: Graph, a: Assignment, node: Text) returns (communities: seq<int>)
    requires node in a
    ensures communities == Candidates(graph.edges, a, node)
  {
    hide InsertId;
    communities := [a[node]];
    for i := 0 to |graph.edges|
      invariant communities == Candidates(graph.edges[..i], a, node)
    {
      assert graph.edges[..i + 1][..i] == graph.edges[..i];
      var other := OtherEnd(graph.edges[i], node);
      if other.Some? && other.value != [] && other.value in a {
        communities := InsertId(a[other.value], communities);
      }
    }
    assert graph.edges[..|graph.edges|] == graph.edges;
  }

  method BestMove(modularity: Assignment -> int, tolerance: int, a: Assignment, node: Text, current: int,
      candidates: seq<int>)
    returns (best: int, score: int)
    requires node in a && current == modularity(a)
    ensures Choice(best, score) == Scan(modularity, tolerance, a, node, candidates)
    ensures score == modularity(a[node := best])
  {
    best, score := a[node], current;
    for i := 0 to |candidates|
      invariant Choice(best, score) == Scan(modularity, tolerance, a, node, candidates[..i])
    {
      assert candidates[..i + 1][..i] == candidates[..i];
      var candidate := candidates[i];
      var trial := modularity(a[node := candidate]);
      if trial > score + tolerance || (trial == score && candidate < best) {
        best, score := candidate, trial;
      }
    }
    assert candidates[..|candidates|] == candidates;
    ScanBounds(modularity, tolerance, a, node, candidates);
  }

  method MoveNode(graph: Graph, modularity: Assignment -> int, tolerance: int, a: Assignment, current: int, node: Text)
    returns (a': Assignment, current': int, moved: bool)
    requires node in a && current == modularity(a)
    ensures a' == Turn(graph, modularity, tolerance, a, node)
    ensures current' == modularity(a')
    ensures moved <==> a' != a
  {
    hide Candidates, Scan;
    var candidates := NeighbourCommunities(graph, a, node);
    var best, score := BestMove(modularity, tolerance, a, node, current, candidates);
    if best != a[node] {
      assert a[node := best][node] != a[node];
      return a[node := best], score, true;
    }
    assert a[node := best] == a;
    return a, current, false;
  }

  /** One pass: the score is the modularity of the assignment after every turn. */
  method LouvainPass(graph: Graph, modularity: Assignment -> int, tolerance: int, a: Assignment, current: int)
    returns (a': Assignment, current': int, changed: bool)
    requires a.Keys == Elements(graph.nodes) && current == modularity(a)
    ensures a' == Turns(graph, modularity, tolerance, a, Order(graph))
    ensures current' == modularity(a')
    ensures changed <==> !Quiet(graph, modularity, tolerance, a, Order(graph))
  {
    hide Turn, Turns, MovesAt, Sort;
    a', current', changed := a, current, false;
    var sorted := Sort(graph.nodes);
    assert sorted == Order(graph);
    TurnsNone(graph, modularity, tolerance, a, sorted);
    for i := 0 to |sorted|
      invariant a' == Turns(graph, modularity, tolerance, a, sorted[..i]) && current' == modularity(a')
      invariant changed <==> exists j: nat :: j < i && MovesAt(graph, modularity, tolerance, a, sorted, j)
    {
      var node, moved := sorted[i], false;
      TurnsStep(graph, modularity, tolerance, a, sorted, i);
      a', current', moved := MoveNode(graph, modularity, tolerance, a', current', node);
      changed := changed || moved;
    }
    assert sorted[..|sorted|] == sorted;
  }

  lemma TurnsNone(graph: Graph, modularity: Assignment -> int, tolerance: int, a: Assignment, nodes: seq<Text>)
    requires forall v | v in nodes :: v in a
    ensures Turns(graph, modularity, tolerance, a, nodes[..0]) == a
  {
  }

  lemma TurnsStep(graph: Graph, modularity: Assignment -> int, tolerance: int, a: Assignment, nodes: seq<Text>, i: nat)
    requires i < |nodes| && forall v | v in nodes :: v in a
    ensures var before := Turns(graph, modularity, tolerance, a, nodes[..i]);
      var after := Turn(graph, modularity, tolerance, before, nodes[i]);
      && Turns(graph, modularity, tolerance, a, nodes[..i + 1]) == after
      && (MovesAt(graph, modularity, tolerance, a, nodes, i) <==> after != before)
  {
    hide Turn;
    assert nodes[..i + 1][..i] == nodes[..i];
  }

  datatype CommunityResult = CommunityResult(assignment: Assignment, modularity: int, passes: nat)

  function ToleranceOf(profile: Profile): int {
    if profile.tolerance.Some? then profile.tolerance.value else 0
  }

  function MaxPasses(profile: Profile): int {
    if profile.maxPasses.Some? then profile.maxPasses.value else 20
  }

  /** The result is that of the run: the passes up to the first quiet one or the limit. */
  method LouvainModularity(graph: Graph, profile: Profile, modularity: Assignment -> int) returns (r: CommunityResult)
    ensures EndsAfter(graph, modularity, ToleranceOf(profile), MaxPasses(profile), r.passes)
    ensures r.assignment == AfterPasses(graph, modularity, ToleranceOf(profile), r.passes)
    ensures r.modularity == modularity(r.assignment)
    ensures r.passes > 0 ==> Canonical(r.assignment)
  {
    hide Turns, Quiet, QuietAfter, AfterPasses, Normalized, Canonical, Order, Initial, SamePartition;
    var tolerance := ToleranceOf(profile);
    var assignments := InitialAssignment(graph.nodes);
    StartsSorted(graph, modularity, tolerance);
    var current := modularity(assignments);
    var passes := 0;
    var changed := true;
    while passes < MaxPasses(profile) && changed
      invariant assignments == AfterPasses(graph, modularity, tolerance, passes) && current == modularity(assignments)
      invariant passes <= MaxPasses(profile) || passes == 0
      invariant forall j: nat | j + 1 < passes :: !QuietAfter(graph, modularity, tolerance, j)
      invariant passes == 0 ==> changed
      invariant passes > 0 ==> Canonical(assignments)
      invariant passes > 0 ==>
        (changed <==> !QuietAfter(graph, modularity, tolerance, passes - 1))
    {
      PassUnfolds(graph, modularity, tolerance, passes);
      var moved, score;
      moved, score, changed := LouvainPass(graph, modularity, tolerance, assignments, current);
      assignments := NormalizeCommunityIds(moved);
      current := modularity(assignments);
      passes := passes + 1;
    }
    r := CommunityResult(assignments, current, passes);
  }

  lemma PassUnfolds(graph: Graph, modularity: Assignment -> int, tolerance: int, k: nat)
    ensures var before, order := AfterPasses(graph, modularity, tolerance, k), Order(graph);
      && (QuietAfter(graph, modularity, tolerance, k) <==> Quiet(graph, modularity, tolerance, before, order))
      && AfterPasses(graph, modularity, tolerance, k + 1) ==
          Normalized(Turns(graph, modularity, tolerance, before, order))
  {
    hide Turns, Quiet, Normalized, Order;
  }

  lemma StartsSorted(graph: Graph, modularity: Assignment -> int, tolerance: int)
    ensures AfterPasses(graph, modularity, tolerance, 0) == Initial(Sort(graph.nodes))
  {
  }
}
