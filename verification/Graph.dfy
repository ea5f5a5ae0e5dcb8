/** Weighted trust graphs: arcs under a projection, and connected components by depth-first search. */
module Graph {
  import opened Wrappers
  import opened Text
  import opened Bps

  // ---------- Weights and arcs ----------

  datatype Treatment = Ignore | Cap | Signed

  datatype Profile = Profile(
    directed: bool, treatment: Option<Treatment>, maxSingleNegative: int,
    floor: Option<int>, refinementThreshold: Option<int>, maxPasses: Option<int>, tolerance: Option<int>)

  /** `multipliers` are source quality, decay, receipt status and appeal multiplier, in that order. */
  datatype Edge = Edge(src: Text, dst: Text, negative: bool, weightBps: int, multipliers: seq<Option<int>>)

  datatype Graph = Graph(nodes: seq<Text>, edges: seq<Edge>)

  datatype Arc = Arc(src: Text, dst: Text, weight: int)

  function Scaled(value: int, multipliers: seq<Option<int>>): (r: int)
    requires 0 <= value <= 10000
    ensures 0 <= r <= value
  {
    if multipliers == [] then value
    else if multipliers[0].None? then Scaled(value, multipliers[1..])
    else
      var m := ClampBps(multipliers[0].value);
      ScaledBound(value, m);
      Scaled(value * m / 10000, multipliers[1..])
  }

  lemma ScaledBound(value: int, m: int)
    requires 0 <= value <= 10000 && 0 <= m <= 10000
    ensures 0 <= value * m / 10000 <= value
  {
    assert 0 <= value * m <= value * 10000;
  }

  /** Each multiplier that is there takes its share, rounded down, in order. */
  lemma ScaledStep(value: int, m: int, rest: seq<Option<int>>, q: int)
    requires 0 <= value <= 10000 && 0 <= q <= 10000 && 0 <= value * ClampBps(m) - 10000 * q < 10000
    ensures Scaled(value, []) == value && Scaled(value, [None] + rest) == Scaled(value, rest)
    ensures Scaled(value, [Some(m)] + rest) == Scaled(q, rest)
  {
    hide ClampBps;
    RemainderIs(value * ClampBps(m), 10000, q, value * ClampBps(m) - 10000 * q);
    assert ([Some(m)] + rest)[1..] == rest && ([None] + rest)[1..] == rest;
  }

  function EffectiveWeight(edge: Edge, profile: Option<Profile>): (r: int)
    ensures 0 <= r <= 10000
  {
    var value := Scaled(ClampBps(edge.weightBps), edge.multipliers);
    if profile.Some? && edge.negative then
      var treatment := if profile.value.treatment.Some? then profile.value.treatment.value else Cap;
      if treatment == Ignore then 0
      else if treatment == Cap then
        var cap := ClampBps(profile.value.maxSingleNegative);
        if value <= cap then value else cap
      else value
    else value
  }

  /** Positive edges, and negative ones without a profile or signed, count in full; negative ones are otherwise
      capped, unless they are ignored. */
  lemma EffectiveWeightIs(edge: Edge, profile: Option<Profile>)
    ensures var full := Scaled(ClampBps(edge.weightBps), edge.multipliers);
      && (!edge.negative || profile.None? ==> EffectiveWeight(edge, profile) == full)
      && (edge.negative && profile.Some? && profile.value.treatment == Some(Signed) ==>
            EffectiveWeight(edge, profile) == full)
      && (edge.negative && profile.Some? && profile.value.treatment == Some(Ignore) ==>
            EffectiveWeight(edge, profile) == 0)
      && (edge.negative && profile.Some? && profile.value.treatment in {None, Some(Cap)} ==>
            var cap := ClampBps(profile.value.maxSingleNegative);
            && EffectiveWeight(edge, profile) <= cap && EffectiveWeight(edge, profile) <= full
            && (EffectiveWeight(edge, profile) == cap || EffectiveWeight(edge, profile) == full))
  {
    hide Scaled;
  }

  /** Under the treatment "ignore" every edge, positive ones too, has signed weight 0. */
  function SignedEffectiveWeight(edge: Edge, profile: Option<Profile>): int {
    if profile.Some? && profile.value.treatment == Some(Ignore) then 0
    else if edge.negative then -EffectiveWeight(edge, profile)
    else EffectiveWeight(edge, profile)
  }

  function PositiveWeight(edge: Edge, profile: Option<Profile>): int {
    if SignedEffectiveWeight(edge, profile) > 0 then SignedEffectiveWeight(edge, profile) else 0
  }

  function MetricWeight(edge: Edge, profile: Option<Profile>, signed: bool): int {
    if signed then SignedEffectiveWeight(edge, profile) else PositiveWeight(edge, profile)
  }

  predicate IsUndirected(profile: Option<Profile>) {
    profile.None? || !profile.value.directed
  }

  /** The arcs of one edge: none for weight 0, both ways unless directed or a loop. */
  function ArcsOf(edge: Edge, profile: Option<Profile>, signed: bool): seq<Arc> {
    var w := MetricWeight(edge, profile, signed);
    if w == 0 then []
    else [Arc(edge.src, edge.dst, w)] +
         if IsUndirected(profile) && edge.src != edge.dst then [Arc(edge.dst, edge.src, w)] else []
  }

  ghost predicate Ignores(profile: Option<Profile>) {
    profile.Some? && profile.value.treatment == Some(Ignore)
  }

  /** An edge leads from u to v: as it is, or back if edges have no direction. */
  ghost predicate LeadsFrom(e: Edge, profile: Option<Profile>, u: Text, v: Text) {
    (e.src == u && e.dst == v) || (IsUndirected(profile) && e.src == v && e.dst == u)
  }

  /** The arcs of an edge run its ways with its weight, negative edges negatively if signed and not at all otherwise. */
  lemma ArcsOfIs(e: Edge, profile: Option<Profile>, signed: bool, a: Arc)
    ensures a in ArcsOf(e, profile, signed) <==>
      && a.weight != 0 && !Ignores(profile) && LeadsFrom(e, profile, a.src, a.dst)
      && a.weight == (if !e.negative then EffectiveWeight(e, profile)
                      else if signed then -EffectiveWeight(e, profile) else 0)
  {
    hide EffectiveWeight;
  }

  ghost function Arcs(edges: seq<Edge>, profile: Option<Profile>, signed: bool): seq<Arc> {
    if edges == [] then []
    else Arcs(edges[..|edges| - 1], profile, signed) + ArcsOf(edges[|edges| - 1], profile, signed)
  }

  lemma ArcsEmpty(profile: Option<Profile>, signed: bool)
    ensures Arcs([], profile, signed) == []
  {
  }

  lemma ArcsStep(edges: seq<Edge>, i: nat, profile: Option<Profile>, signed: bool)
    requires i < |edges|
    ensures Arcs(edges[..i + 1], profile, signed) ==
        Arcs(edges[..i], profile, signed) + ArcsOf(edges[i], profile, signed)
  {
    hide ArcsOf;
    assert edges[..i + 1][..i] == edges[..i];
  }

  method ProjectedGraphArcs(graph: Graph, profile: Option<Profile>, signed: bool) returns (arcs: seq<Arc>)
    ensures arcs == Arcs(graph.edges, profile, signed)
  {
    hide MetricWeight, Arcs;
    arcs := [];
    ArcsEmpty(profile, signed);
    for i := 0 to |graph.edges|
      invariant arcs == Arcs(graph.edges[..i], profile, signed)
    {
      var edge := graph.edges[i];
      ArcsStep(graph.edges, i, profile, signed);
      var weight := MetricWeight(edge, profile, signed);
      if weight != 0 {
        arcs := arcs + [Arc(edge.src, edge.dst, weight)];
        if IsUndirected(profile) && edge.src != edge.dst {
          arcs := arcs + [Arc(edge.dst, edge.src, weight)];
        }
      }
    }
    assert graph.edges[..|graph.edges|] == graph.edges;
  }

  // ---------- Links and walks ----------

  const DEFAULT_FLOOR := 1000

  function FloorOf(profile: Option<Profile>): int {
    if profile.Some? && profile.value.floor.Some? then profile.value.floor.value else DEFAULT_FLOOR
  }

  type Links = set<(Text, Text)>

  predicate AtLeast(weight: int, floor: int) {
    (if weight < 0 then -weight else weight) >= floor
  }

  /** The pairs joined by an arc whose absolute weight reaches the floor. */
  ghost function LinksOf(arcs: seq<Arc>, floor: int): Links {
    set a | a in arcs && AtLeast(a.weight, floor) :: (a.src, a.dst)
  }

  /** There is a walk of n links from u to v. */
  ghost predicate Walk(links: Links, u: Text, v: Text, n: nat)
    decreases n
  {
    if n == 0 then u == v else exists m: Text :: Walk(links, u, m, n - 1) && (m, v) in links
  }

  ghost predicate Reaches(links: Links, u: Text, v: Text) {
    exists n: nat :: Walk(links, u, v, n)
  }

  lemma ReachesSelf(links: Links, u: Text)
    ensures Reaches(links, u, u)
  {
    assert Walk(links, u, u, 0);
  }

  lemma ReachesStep(links: Links, u: Text, v: Text, w: Text)
    requires Reaches(links, u, v) && (v, w) in links
    ensures Reaches(links, u, w)
  {
    var n: nat :| Walk(links, u, v, n);
    assert Walk(links, u, w, n + 1);
  }

  lemma {:induction false} WalkConcat(links: Links, u: Text, v: Text, w: Text, m: nat, n: nat)
    requires Walk(links, u, v, m) && Walk(links, v, w, n)
    ensures Walk(links, u, w, m + n)
    decreases n
  {
    if n > 0 {
      var x: Text :| Walk(links, v, x, n - 1) && (x, w) in links;
      WalkConcat(links, u, v, x, m, n - 1);
      assert Walk(links, u, x, m + n - 1);
    }
  }

  lemma ReachesTransitive(links: Links, u: Text, v: Text, w: Text)
    requires Reaches(links, u, v) && Reaches(links, v, w)
    ensures Reaches(links, u, w)
  {
    var m: nat :| Walk(links, u, v, m);
    var n: nat :| Walk(links, v, w, n);
    WalkConcat(links, u, v, w, m, n);
  }

  ghost predicate Closed(links: Links, s: set<Text>) {
    forall u, v | u in s && (u, v) in links :: v in s
  }

  lemma {:induction false} WalkStaysIn(links: Links, s: set<Text>, u: Text, v: Text, n: nat)
    requires Closed(links, s) && u in s && Walk(links, u, v, n)
    ensures v in s
    decreases n
  {
    if n > 0 {
      var m: Text :| Walk(links, u, m, n - 1) && (m, v) in links;
      WalkStaysIn(links, s, u, m, n - 1);
    }
  }

  lemma ReachesStaysIn(links: Links, s: set<Text>, u: Text, v: Text)
    requires Closed(links, s) && u in s && Reaches(links, u, v)
    ensures v in s
  {
    var n: nat :| Walk(links, u, v, n);
    WalkStaysIn(links, s, u, v, n);
  }

  ghost predicate Symmetric(links: Links) {
    forall u, v | (u, v) in links :: (v, u) in links
  }

  lemma {:induction false} WalkBack(links: Links, u: Text, v: Text, n: nat)
    requires Symmetric(links) && Walk(links, u, v, n)
    ensures Reaches(links, v, u)
    decreases n
  {
    ReachesSelf(links, u);
    if n > 0 {
      var m: Text :| Walk(links, u, m, n - 1) && (m, v) in links;
      WalkBack(links, u, m, n - 1);
      ReachesSelf(links, v);
      ReachesStep(links, v, v, m);
      ReachesTransitive(links, v, m, u);
    }
  }

  lemma ReachesSymmetric(links: Links, u: Text, v: Text)
    requires Symmetric(links) && Reaches(links, u, v)
    ensures Reaches(links, v, u)
  {
    var n: nat :| Walk(links, u, v, n);
    WalkBack(links, u, v, n);
  }

  // ---------- Components ----------

  type Adjacency = map<Text, set<Text>>

  ghost function AdjacencyLinks(adjacency: Adjacency): Links {
    set u, v | u in adjacency && v in adjacency[u] :: (u, v)
  }

  ghost function Universe(adjacency: Adjacency): set<Text> {
    adjacency.Keys + set u, v | u in adjacency && v in adjacency[u] :: v
  }

  /** Links leaving a listed node; an arc from an unlisted node is dropped. */
  ghost function NodeLinks(nodes: set<Text>, links: Links): Links {
    set l | l in links && l.0 in nodes
  }

  method BuildAdjacency(nodes: seq<Text>, arcs: seq<Arc>, floor: int) returns (adjacency: Adjacency)
    ensures adjacency.Keys == Elements(nodes)
    ensures AdjacencyLinks(adjacency) == NodeLinks(Elements(nodes), LinksOf(arcs, floor))
  {
    adjacency := map n | n in nodes :: {};
    for i := 0 to |arcs|
      invariant adjacency.Keys == Elements(nodes)
      invariant AdjacencyLinks(adjacency) == NodeLinks(Elements(nodes), LinksOf(arcs[..i], floor))
    {
      var arc := arcs[i];
      assert arcs[..i + 1] == arcs[..i] + [arc];
      if AtLeast(arc.weight, floor) && arc.src in adjacency {
        ghost var before := adjacency;
        adjacency := adjacency[arc.src := adjacency[arc.src] + {arc.dst}];
        assert AdjacencyLinks(adjacency) == AdjacencyLinks(before) + {(arc.src, arc.dst)};
      }
    }
    assert arcs[..|arcs|] == arcs;
  }

  /** What the search keeps: it has only numbered what the root reaches, and everything linked from a
      numbered node is numbered or waits on the stack. */
  ghost predicate Searching(links: Links, components: map<Text, int>, root: Text, id: int, r: map<Text, int>,
      stack: seq<Text>) {
    && components.Keys <= r.Keys
    && (forall v | v in stack :: Reaches(links, root, v))
    && (forall v | v in r :: r[v] == if v in components then components[v] else id)
    && (forall v | v in r && v !in components :: Reaches(links, root, v))
    && (forall u, v | u in r && (u, v) in links :: v in r || v in stack)
    && (root in r || root in stack)
  }

  lemma SearchStarts(links: Links, components: map<Text, int>, root: Text, id: int)
    requires Closed(links, components.Keys)
    ensures Searching(links, components, root, id, components, [root])
  {
    ReachesSelf(links, root);
  }

  lemma SearchEnds(links: Links, components: map<Text, int>, root: Text, id: int, r: map<Text, int>)
    requires Searching(links, components, root, id, r, [])
    ensures Closed(links, r.Keys)
    ensures forall v :: v in r <==> v in components || Reaches(links, root, v)
    ensures forall v | v in r :: r[v] == if v in components then components[v] else id
  {
    hide Reaches;
    forall v | Reaches(links, root, v) ensures v in r {
      ReachesStaysIn(links, r.Keys, root, v);
    }
  }

  lemma Skipped(links: Links, components: map<Text, int>, root: Text, id: int, r: map<Text, int>, stack: seq<Text>,
      current: Text)
    requires Searching(links, components, root, id, r, stack + [current]) && current in r
    ensures Searching(links, components, root, id, r, stack)
  {
    hide Reaches;
    assert forall v | v in stack :: v in stack + [current];
  }

  lemma Visited(links: Links, components: map<Text, int>, root: Text, id: int, r: map<Text, int>,
                stack: seq<Text>, current: Text, sorted: seq<Text>, pushed: seq<Text>)
    requires Searching(links, components, root, id, r, stack + [current]) && current !in r
    requires forall v :: v in sorted <==> (current, v) in links
    requires stack <= pushed
    requires forall v | v in pushed :: v in stack || v in sorted
    requires forall v | v in sorted :: v in r[current := id] || v in pushed
    ensures Searching(links, components, root, id, r[current := id], pushed)
  {
    hide Reaches;
    assert current in stack + [current];
    forall v | v in pushed ensures Reaches(links, root, v) {
      if v in sorted {
        ReachesStep(links, root, current, v);
      } else {
        assert v in stack + [current];
      }
    }
  }

  /** The neighbours of a node, in order. */
  method Neighbours(adjacency: Adjacency, current: Text) returns (sorted: seq<Text>)
    ensures forall v :: v in sorted <==> (current, v) in AdjacencyLinks(adjacency)
    ensures forall v | v in sorted :: v in Universe(adjacency)
  {
    var nexts := if current in adjacency then adjacency[current] else {};
    sorted := SortSet(nexts);
    assert forall v :: v in sorted <==> v in Elements(sorted);
  }

  /** Depth-first search from one root: everything it reaches that has no component yet gets `id`. */
  method Explore(adjacency: Adjacency, components: map<Text, int>, root: Text, id: int) returns (r: map<Text, int>)
    requires Closed(AdjacencyLinks(adjacency), components.Keys)
    ensures Closed(AdjacencyLinks(adjacency), r.Keys)
    ensures forall v :: v in r <==> v in components || Reaches(AdjacencyLinks(adjacency), root, v)
    ensures forall v | v in r :: r[v] == if v in components then components[v] else id
  {
    hide AdjacencyLinks, Universe, Reaches, Searching, InUniverse;
    ghost var links := AdjacencyLinks(adjacency);
    ghost var universe := Universe(adjacency) + {root} + components.Keys;
    r := components;
    var stack := [root];
    SearchStarts(links, components, root, id);
    StartInUniverse(universe, components, root);
    while stack != []
      invariant Searching(links, components, root, id, r, stack)
      invariant InUniverse(universe, r, stack)
      decreases |universe - r.Keys|, |stack|
    {
      r, stack := Visit(adjacency, components, root, id, r, stack, universe);
    }
    SearchEnds(links, components, root, id, r);
  }

  ghost predicate InUniverse(universe: set<Text>, r: map<Text, int>, stack: seq<Text>) {
    r.Keys <= universe && forall v | v in stack :: v in universe
  }

  lemma StartInUniverse(universe: set<Text>, components: map<Text, int>, root: Text)
    requires components.Keys <= universe && root in universe
    ensures InUniverse(universe, components, [root])
  {
  }

  /** One turn of the search: pops a node, and numbers and expands it unless it has a number. */
  method Visit(adjacency: Adjacency, ghost components: map<Text, int>, ghost root: Text, id: int,
               r: map<Text, int>, stack: seq<Text>, ghost universe: set<Text>)
    returns (r': map<Text, int>, stack': seq<Text>)
    requires Searching(AdjacencyLinks(adjacency), components, root, id, r, stack) && stack != []
    requires InUniverse(universe, r, stack) && Universe(adjacency) <= universe
    ensures Searching(AdjacencyLinks(adjacency), components, root, id, r', stack')
    ensures InUniverse(universe, r', stack')
    ensures |universe - r'.Keys| < |universe - r.Keys| || (r' == r && |stack'| < |stack|)
  {
    hide AdjacencyLinks, Universe, Reaches, Searching;
    var current := stack[|stack| - 1];
    var popped := stack[..|stack| - 1];
    assert stack == popped + [current];
    if current in r {
      Skipped(AdjacencyLinks(adjacency), components, root, id, r, popped, current);
      return r, popped;
    }
    var sorted := Neighbours(adjacency, current);
    r' := r[current := id];
    stack' := PushUnseen(popped, sorted, r');
    Visited(AdjacencyLinks(adjacency), components, root, id, r, popped, current, sorted, stack');
    assert universe - r'.Keys == (universe - r.Keys) - {current};
  }

  /** Pushes the neighbours without a component, last one first, so that the first is popped first. */
  method PushUnseen(stack: seq<Text>, sorted: seq<Text>, components: map<Text, int>) returns (r: seq<Text>)
    ensures stack <= r
    ensures forall v | v in r :: v in stack || v in sorted
    ensures forall v | v in sorted :: v in components || v in r
  {
    r := stack;
    var i := |sorted|;
    while i > 0
      invariant 0 <= i <= |sorted|
      invariant stack <= r
      invariant forall v | v in r :: v in stack || v in sorted
      invariant forall v | v in sorted[i..] :: v in components || v in r
    {
      i := i - 1;
      assert sorted[i..] == [sorted[i]] + sorted[i + 1..];
      if sorted[i] !in components {
        r := r + [sorted[i]];
      }
    }
  }

  /** The components found from the nodes of `order`: `roots` are the nodes that no smaller one reaches,
      and every node reached at all has the number of the least node that reaches it. */
  ghost predicate Numbered(links: Links, order: seq<Text>, components: map<Text, int>, roots: seq<Text>) {
    && StrictlySorted(roots)
    && (forall j | 0 <= j < |roots| :: roots[j] in order && roots[j] in components && components[roots[j]] == j)
    && (forall v :: v in components <==> exists u | u in order :: Reaches(links, u, v))
    && (forall v | v in components :: LeastReacher(links, order, components, roots, v))
  }

  ghost predicate LeastReacher(links: Links, order: seq<Text>, components: map<Text, int>, roots: seq<Text>, v: Text)
    requires v in components
  {
    && 0 <= components[v] < |roots|
    && Reaches(links, roots[components[v]], v)
    && forall u | u in order && Reaches(links, u, v) :: Leq(roots[components[v]], u)
  }

  /** The next node already has a component. */
  lemma NumberedSkip(links: Links, order: seq<Text>, components: map<Text, int>, roots: seq<Text>, node: Text)
    requires Numbered(links, order, components, roots) && node in components
    requires forall u | u in order :: Less(u, node)
    ensures Numbered(links, order + [node], components, roots)
  {
    hide Reaches, Leq;
    forall v | Reaches(links, node, v)
      ensures v in components && Leq(roots[components[v]], node)
    {
      var u :| u in order && Reaches(links, u, node);
      ReachesTransitive(links, u, node, v);
      assert LeastReacher(links, order, components, roots, v);
      LeqTransitive(roots[components[v]], u, node);
    }
    forall v | v in components ensures LeastReacher(links, order + [node], components, roots, v) {
      assert LeastReacher(links, order, components, roots, v);
    }
    assert forall v :: (exists u | u in order + [node] :: Reaches(links, u, v)) ==> v in components;
  }

  /** The next node starts a component of its own. */
  lemma NumberedExtend(links: Links, order: seq<Text>, components: map<Text, int>, roots: seq<Text>, node: Text,
      r: map<Text, int>)
    requires Numbered(links, order, components, roots) && node !in components
    requires forall u | u in order :: Less(u, node)
    requires forall v :: v in r <==> v in components || Reaches(links, node, v)
    requires forall v | v in r :: r[v] == if v in components then components[v] else |roots|
    ensures Numbered(links, order + [node], r, roots + [node])
  {
    hide Reaches, Leq;
    ReachesSelf(links, node);
    LeqReflexive(node);
    forall v | v in r ensures LeastReacher(links, order + [node], r, roots + [node], v) {
      if v in components {
        LeastExtend(links, order, components, roots, node, r, v);
      } else {
        assert forall u | u in order :: !Reaches(links, u, v);
      }
    }
    ReachedExtend(links, order, components, node, r);
  }

  lemma LeastExtend(links: Links, order: seq<Text>, components: map<Text, int>, roots: seq<Text>, node: Text,
      r: map<Text, int>, v: Text)
    requires v in components && v in r && r[v] == components[v] && LeastReacher(links, order, components, roots, v)
    requires roots[components[v]] in order && forall u | u in order :: Less(u, node)
    ensures LeastReacher(links, order + [node], r, roots + [node], v)
  {
    hide Reaches;
    assert Less(roots[components[v]], node);
  }

  lemma ReachedExtend(links: Links, order: seq<Text>, components: map<Text, int>, node: Text, r: map<Text, int>)
    requires forall v :: v in components <==> exists u | u in order :: Reaches(links, u, v)
    requires forall v :: v in r <==> v in components || Reaches(links, node, v)
    ensures forall v :: v in r <==> exists u | u in order + [node] :: Reaches(links, u, v)
  {
    hide Reaches;
    assert node in order + [node];
  }

  method ConnectedComponents(graph: Graph, floor: int, profile: Option<Profile>)
    returns (components: map<Text, int>, ghost roots: seq<Text>)
    ensures Numbered(GraphLinks(graph, floor, profile), SortUnique(graph.nodes), components, roots)
    ensures IsUndirected(profile) && EndpointsListed(graph) ==>
      && components.Keys == Elements(graph.nodes)
      && forall u, v | u in components && v in components ::
           components[u] == components[v] <==> Reaches(GraphLinks(graph, floor, profile), u, v)
  {
    hide Numbered, AdjacencyLinks, Reaches, LinksOf, Arcs, NodeLinks, Leq, SortUnique;
    var arcs := ProjectedGraphArcs(graph, profile, false);
    var adjacency := BuildAdjacency(graph.nodes, arcs, floor);
    ghost var links := AdjacencyLinks(adjacency);
    var order := SortUnique(graph.nodes);
    components, roots := map[], [];
    var componentId := 0;
    NumberedEmpty(links);
    for i := 0 to |order|
      invariant componentId == |roots|
      invariant Closed(links, components.Keys)
      invariant Numbered(links, order[..i], components, roots)
    {
      var node := order[i];
      assert order[..i + 1] == order[..i] + [node];
      assert forall u | u in order[..i] :: Less(u, node);
      if node in components {
        NumberedSkip(links, order[..i], components, roots, node);
      } else {
        var explored := Explore(adjacency, components, node, componentId);
        NumberedExtend(links, order[..i], components, roots, node, explored);
        components, roots := explored, roots + [node];
        componentId := componentId + 1;
      }
    }
    assert order[..|order|] == order;
    if IsUndirected(profile) && EndpointsListed(graph) {
      ComponentsAreExact(graph, floor, profile, components, roots);
    }
  }

  lemma NumberedEmpty(links: Links)
    ensures Numbered(links, [], map[], [])
  {
  }

  /** The least of the listed nodes that reach v. */
  ghost predicate IsRoot(links: Links, order: seq<Text>, root: Text, v: Text) {
    && root in order && Reaches(links, root, v)
    && forall u | u in order && Reaches(links, u, v) :: Leq(root, u)
  }

  /** One node is the least to reach u and the least to reach v. */
  ghost predicate ShareRoot(links: Links, order: seq<Text>, u: Text, v: Text) {
    exists root :: IsRoot(links, order, root, u) && IsRoot(links, order, root, v)
  }

  /** For every graph, directed or not: two nodes get the same number exactly when they share their root. */
  lemma SameNumberSharesRoot(links: Links, order: seq<Text>, components: map<Text, int>, roots: seq<Text>, u: Text,
      v: Text)
    requires Numbered(links, order, components, roots) && u in components && v in components
    ensures components[u] == components[v] <==> ShareRoot(links, order, u, v)
  {
    hide Reaches, Leq;
    assert LeastReacher(links, order, components, roots, u) && LeastReacher(links, order, components, roots, v);
    var a, b := roots[components[u]], roots[components[v]];
    assert IsRoot(links, order, a, u) && IsRoot(links, order, b, v);
    if root :| IsRoot(links, order, root, u) && IsRoot(links, order, root, v) {
      LeqAntisymmetric(root, a);
      LeqAntisymmetric(root, b);
    }
  }

  /** The links the component search follows: from listed nodes, along arcs that reach the floor. */
  ghost function GraphLinks(graph: Graph, floor: int, profile: Option<Profile>): Links {
    NodeLinks(Elements(graph.nodes), LinksOf(Arcs(graph.edges, profile, false), floor))
  }

  // ---------- Undirected graphs ----------

  ghost predicate EndpointsListed(graph: Graph) {
    forall e | e in graph.edges :: e.src in graph.nodes && e.dst in graph.nodes
  }

  /** An arc comes from an edge, with its weight, in one direction or the other. */
  lemma {:induction false} ArcFromEdge(edges: seq<Edge>, profile: Option<Profile>, signed: bool, a: Arc)
    ensures a in Arcs(edges, profile, signed) <==> exists e | e in edges :: a in ArcsOf(e, profile, signed)
  {
    hide ArcsOf;
    if edges != [] {
      var n := |edges| - 1;
      ArcFromEdge(edges[..n], profile, signed, a);
      assert forall e :: e in edges <==> e in edges[..n] || e == edges[n];
    }
  }

  lemma GraphLinksListed(graph: Graph, floor: int, profile: Option<Profile>)
    requires EndpointsListed(graph)
    ensures Closed(GraphLinks(graph, floor, profile), Elements(graph.nodes))
    ensures GraphLinks(graph, floor, profile) == LinksOf(Arcs(graph.edges, profile, false), floor)
  {
    hide Arcs;
    var arcs := Arcs(graph.edges, profile, false);
    forall a | a in arcs ensures a.src in graph.nodes && a.dst in graph.nodes {
      ArcFromEdge(graph.edges, profile, false, a);
    }
  }

  lemma UndirectedLinks(graph: Graph, floor: int, profile: Option<Profile>)
    requires IsUndirected(profile) && EndpointsListed(graph)
    ensures Symmetric(GraphLinks(graph, floor, profile))
  {
    hide Arcs;
    GraphLinksListed(graph, floor, profile);
    var arcs := Arcs(graph.edges, profile, false);
    forall a | a in arcs ensures Arc(a.dst, a.src, a.weight) in arcs {
      ArcFromEdge(graph.edges, profile, false, a);
      ArcFromEdge(graph.edges, profile, false, Arc(a.dst, a.src, a.weight));
    }
  }

  lemma ComponentsCoverNodes(graph: Graph, floor: int, profile: Option<Profile>, components: map<Text, int>,
      roots: seq<Text>)
    requires EndpointsListed(graph)
    requires Numbered(GraphLinks(graph, floor, profile), SortUnique(graph.nodes), components, roots)
    ensures components.Keys == Elements(graph.nodes)
  {
    hide Reaches, GraphLinks, SortUnique;
    var links, order := GraphLinks(graph, floor, profile), SortUnique(graph.nodes);
    GraphLinksListed(graph, floor, profile);
    assert forall v :: v in order <==> v in Elements(order);
    forall v ensures v in components <==> v in Elements(graph.nodes) {
      ReachesSelf(links, v);
      if v in components {
        var u :| u in order && Reaches(links, u, v);
        ReachesStaysIn(links, Elements(graph.nodes), u, v);
      }
    }
  }

  /** Components are exact: every node gets one number, two nodes get the same one exactly when a walk
      joins them, and the numbers count the components in the order of their least nodes. */
  lemma ComponentsAreExact(graph: Graph, floor: int, profile: Option<Profile>, components: map<Text, int>,
      roots: seq<Text>)
    requires IsUndirected(profile) && EndpointsListed(graph)
    requires Numbered(GraphLinks(graph, floor, profile), SortUnique(graph.nodes), components, roots)
    ensures components.Keys == Elements(graph.nodes)
    ensures forall u, v | u in components && v in components ::
      components[u] == components[v] <==> Reaches(GraphLinks(graph, floor, profile), u, v)
    ensures forall v | v in components :: 0 <= components[v] < |roots| && Leq(roots[components[v]], v)
    ensures StrictlySorted(roots) && forall j | 0 <= j < |roots| :: roots[j] in components && components[roots[j]] == j
  {
    hide Reaches, Leq, GraphLinks, SortUnique, Elements, Closed;
    var links, order := GraphLinks(graph, floor, profile), SortUnique(graph.nodes);
    ComponentsCoverNodes(graph, floor, profile, components, roots);
    UndirectedLinks(graph, floor, profile);
    forall v | v in components ensures 0 <= components[v] < |roots| && Leq(roots[components[v]], v) {
      LeastIsBelow(links, graph.nodes, components, roots, v);
    }
    forall u, v | u in components && v in components
      ensures components[u] == components[v] <==> Reaches(links, u, v)
    {
      SameNumber(links, order, components, roots, u, v);
    }
  }

  lemma LeastIsBelow(links: Links, nodes: seq<Text>, components: map<Text, int>, roots: seq<Text>, v: Text)
    requires Numbered(links, SortUnique(nodes), components, roots) && v in components && v in Elements(nodes)
    ensures 0 <= components[v] < |roots| && Leq(roots[components[v]], v)
  {
    hide Reaches, Leq, SortUnique;
    assert LeastReacher(links, SortUnique(nodes), components, roots, v);
    ReachesSelf(links, v);
    assert v in Elements(SortUnique(nodes));
  }

  lemma SameNumber(links: Links, order: seq<Text>, components: map<Text, int>, roots: seq<Text>, u: Text, v: Text)
    requires Symmetric(links) && Numbered(links, order, components, roots) && u in components && v in components
    ensures components[u] == components[v] <==> Reaches(links, u, v)
  {
    hide Reaches, Leq;
    assert LeastReacher(links, order, components, roots, u) && LeastReacher(links, order, components, roots, v);
    var a, b := roots[components[u]], roots[components[v]];
    if components[u] == components[v] {
      ReachesSymmetric(links, a, u);
      ReachesTransitive(links, u, a, v);
    } else if Reaches(links, u, v) {
      ReachesSymmetric(links, u, v);
      ReachesTransitive(links, a, u, v);
      ReachesTransitive(links, b, v, u);
      LeqAntisymmetric(a, b);
    }
  }

  /** The weight is there and reaches the floor. */
  ghost predicate Reaching(e: Edge, profile: Option<Profile>, floor: int) {
    EffectiveWeight(e, profile) > 0 && EffectiveWeight(e, profile) >= floor
  }

  /** The links that components are found along: edges that are not negative, of positive weight and at least the
      floor, from listed nodes. */
  lemma GraphLinksAre(graph: Graph, floor: int, profile: Option<Profile>, u: Text, v: Text)
    ensures (u, v) in GraphLinks(graph, floor, profile) <==>
      && u in graph.nodes && !Ignores(profile)
      && exists e | e in graph.edges :: LeadsFrom(e, profile, u, v) && !e.negative && Reaching(e, profile, floor)
  {
    hide Arcs, ArcsOf, EffectiveWeight, LeadsFrom, Ignores;
    var arcs := Arcs(graph.edges, profile, false);
    if (u, v) in GraphLinks(graph, floor, profile) {
      var a :| a in arcs && AtLeast(a.weight, floor) && (a.src, a.dst) == (u, v);
      ArcFromEdge(graph.edges, profile, false, a);
      var e :| e in graph.edges && a in ArcsOf(e, profile, false);
      ArcsOfIs(e, profile, false, a);
    }
    if u in graph.nodes && !Ignores(profile) {
      if e :| e in graph.edges && LeadsFrom(e, profile, u, v) && !e.negative && Reaching(e, profile, floor) {
        var a := Arc(u, v, EffectiveWeight(e, profile));
        ArcsOfIs(e, profile, false, a);
        ArcFromEdge(graph.edges, profile, false, a);
      }
    }
  }
}
