/** Refinement of a partition into the parts that strong edges hold together. */
module Leiden {
  import opened Wrappers
  import opened Text
  import opened Graph
  import opened Community
  import opened Louvain

  function ThresholdOf(profile: Profile): int {
    if profile.refinementThreshold.Some? then profile.refinementThreshold.value else FloorOf(Some(profile))
  }

  /** The nodes of one coarse community. */
  ghost function NodesIn(coarse: Assignment, c: int): set<Text> {
    set v | v in coarse && coarse[v] == c
  }

  /** The edges inside a set of nodes that reach the threshold. */
  function EdgesWithin(edges: seq<Edge>, nodes: seq<Text>, threshold: int, profile: Profile): (r: seq<Edge>)
    ensures forall e :: e in r <==>
      e in edges && e.src in nodes && e.dst in nodes && PositiveWeight(e, Some(profile)) >= threshold
  {
    if edges == [] then [] else
      assert edges == edges[..|edges| - 1] + [edges[|edges| - 1]];
      var e := edges[|edges| - 1];
      EdgesWithin(edges[..|edges| - 1], nodes, threshold, profile) +
      if e.src in nodes && e.dst in nodes && PositiveWeight(e, Some(profile)) >= threshold then [e] else []
  }

  /** The subgraph one coarse community is refined in. */
  ghost function Subgraph(graph: Graph, profile: Profile, coarse: Assignment, c: int): Graph {
    var nodes := SortedSet(NodesIn(coarse, c));
    Graph(nodes, EdgesWithin(graph.edges, nodes, ThresholdOf(profile), profile))
  }

  /** The links inside one coarse community. */
  ghost function InnerLinks(graph: Graph, profile: Profile, coarse: Assignment, c: int): Links {
    GraphLinks(Subgraph(graph, profile, coarse, c), ThresholdOf(profile), Some(profile))
  }

  /** The least member of community c that reaches u by its links is the least that reaches v. */
  ghost predicate SamePart(graph: Graph, profile: Profile, coarse: Assignment, c: int, u: Text, v: Text) {
    ShareRoot(InnerLinks(graph, profile, coarse, c), SortedSet(NodesIn(coarse, c)), u, v)
  }

  /** `sub` numbers the members of community c by the components of its subgraph. */
  ghost predicate SplitsCommunity(graph: Graph, profile: Profile, coarse: Assignment, c: int, sub: Assignment) {
    && sub.Keys == NodesIn(coarse, c)
    && (forall u, v | u in sub && v in sub :: sub[u] == sub[v] <==> SamePart(graph, profile, coarse, c, u, v))
    && (IsUndirected(Some(profile)) ==> forall u, v | u in sub && v in sub ::
          sub[u] == sub[v] <==> Reaches(InnerLinks(graph, profile, coarse, c), u, v))
  }

  method SplitCommunity(graph: Graph, profile: Profile, coarse: Assignment, c: int) returns (sub: Assignment)
    ensures SplitsCommunity(graph, profile, coarse, c, sub)
  {
    hide GraphLinks, Reaches, Numbered, ShareRoot;
    var members := set v | v in coarse && coarse[v] == c;
    assert members == NodesIn(coarse, c);
    var nodes := SortSet(members);
    var edges := EdgesWithin(graph.edges, nodes, ThresholdOf(profile), profile);
    var subgraph := Graph(nodes, edges);
    assert EndpointsListed(subgraph);
    ghost var roots;
    sub, roots := ConnectedComponents(subgraph, ThresholdOf(profile), Some(profile));
    ComponentsCoverNodes(subgraph, ThresholdOf(profile), Some(profile), sub, roots);
    SortedAlready(nodes);
    forall u, v | u in sub && v in sub ensures sub[u] == sub[v] <==> SamePart(graph, profile, coarse, c, u, v) {
      SameNumberSharesRoot(GraphLinks(subgraph, ThresholdOf(profile), Some(profile)), nodes, sub, roots, u, v);
    }
  }

  lemma SortedAlready(nodes: seq<Text>)
    requires StrictlySorted(nodes)
    ensures SortUnique(nodes) == nodes
  {
    SortedIsCanonical(SortUnique(nodes), nodes);
  }

  lemma AscendingEmpty()
    ensures Ascending([])
  {
  }

  /** The distinct numbers of an assignment, in ascending order. */
  method DistinctIds(a: Assignment) returns (ids: seq<int>)
    ensures Ascending(ids)
    ensures forall v | v in a :: a[v] in ids
    ensures forall c | c in ids :: exists v :: v in a && a[v] == c
  {
    hide InsertId, Ascending, SortedSet, Leq, StrictlySorted;
    ids := [];
    AscendingEmpty();
    var order := SortSet(a.Keys);
    for i := 0 to |order|
      invariant Ascending(ids)
      invariant forall j | 0 <= j < i :: order[j] in a && a[order[j]] in ids
      invariant forall c | c in ids :: exists v :: v in a && a[v] == c
    {
      assert order[i] in Elements(order);
      var id := a[order[i]];
      ids := InsertId(id, ids);
    }
    forall v | v in a ensures a[v] in ids {
      assert v in Elements(order);
      var j :| 0 <= j < |order| && order[j] == v;
    }
  }

  /** What refinement keeps once the coarse communities `done` are split: nodes share a refined number
      exactly when they share a coarse community and its split puts them together. */
  ghost predicate Refining(coarse: Assignment, done: seq<int>, subs: map<int, Assignment>, refined: Assignment,
      next: int) {
    && subs.Keys == (set c | c in done)
    && (forall c | c in subs :: subs[c].Keys == NodesIn(coarse, c))
    && (forall v :: v in refined <==> v in coarse && coarse[v] in subs)
    && (forall v | v in refined :: 0 <= refined[v] < next)
    && (forall u, v | u in refined && v in refined :: refined[u] == refined[v] <==> Together(coarse, subs, u, v))
  }

  ghost predicate Together(coarse: Assignment, subs: map<int, Assignment>, u: Text, v: Text) {
    && u in coarse && v in coarse && coarse[u] == coarse[v]
    && coarse[u] in subs && u in subs[coarse[u]] && v in subs[coarse[u]]
    && subs[coarse[u]][u] == subs[coarse[u]][v]
  }

  /** The place of a number in an ascending list. */
  ghost function Rank(ids: seq<int>, c: int): (k: nat)
    requires c in ids
    ensures k < |ids| && ids[k] == c
  {
    var k :| 0 <= k < |ids| && ids[k] == c; k
  }

  /** After the first i numbers, their nodes have `next` plus the number's place, and no others do. */
  ghost predicate PartsNumbered(sub: Assignment, refined: Assignment, next: int, ids: seq<int>, i: nat, r: Assignment) {
    && (forall v | v in sub :: sub[v] in ids)
    && (forall v | v in r :: v in refined || v in sub)
    && (forall v | v in refined :: v in r && r[v] == refined[v])
    && (forall v | v in sub && Rank(ids, sub[v]) < i :: v in r && r[v] == next + Rank(ids, sub[v]))
    && (forall v | v in sub && Rank(ids, sub[v]) >= i :: v !in r)
  }

  lemma PartNumbered(sub: Assignment, refined: Assignment, next: int, ids: seq<int>, i: nat, r: Assignment,
      r': Assignment, id: int)
    requires Ascending(ids) && i < |ids| && id == ids[i] && sub.Keys !! refined.Keys
    requires PartsNumbered(sub, refined, next, ids, i, r)
    requires forall v :: v in r' <==> v in r || (v in sub && sub[v] == id)
    requires forall v | v in r' :: r'[v] == if v in sub && sub[v] == id then next + i else r[v]
    ensures PartsNumbered(sub, refined, next, ids, i + 1, r')
  {
    forall v | v in sub ensures sub[v] == id <==> Rank(ids, sub[v]) == i {
      var c := sub[v];
      var k := Rank(ids, c);
    }
  }

  /** Gives each part of one community the next free number. */
  method NumberParts(sub: Assignment, refined: Assignment, next: int) returns (r: Assignment, next': int)
    requires sub.Keys !! refined.Keys && next >= 0
    ensures r.Keys == refined.Keys + sub.Keys
    ensures forall v | v in refined :: r[v] == refined[v]
    ensures next <= next' && forall v | v in sub :: next <= r[v] < next'
    ensures forall u, v | u in sub && v in sub :: r[u] == r[v] <==> sub[u] == sub[v]
  {
    hide PartsNumbered;
    r, next' := refined, next;
    var ids := DistinctIds(sub);
    PartsStart(sub, refined, next, ids);
    for i := 0 to |ids|
      invariant next' == next + i
      invariant PartsNumbered(sub, refined, next, ids, i, r)
    {
      var id := ids[i];
      ghost var before := r;
      r := r + map v | v in sub && sub[v] == id :: next';
      PartNumbered(sub, refined, next, ids, i, before, r, id);
      next' := next' + 1;
    }
    PartsEnd(sub, refined, next, ids, r);
  }

  lemma PartsStart(sub: Assignment, refined: Assignment, next: int, ids: seq<int>)
    requires sub.Keys !! refined.Keys && forall v | v in sub :: sub[v] in ids
    ensures PartsNumbered(sub, refined, next, ids, 0, refined)
  {
  }

  lemma PartsEnd(sub: Assignment, refined: Assignment, next: int, ids: seq<int>, r: Assignment)
    requires PartsNumbered(sub, refined, next, ids, |ids|, r)
    ensures r.Keys == refined.Keys + sub.Keys
    ensures forall v | v in refined :: r[v] == refined[v]
    ensures forall v | v in sub :: next <= r[v] < next + |ids|
    ensures forall u, v | u in sub && v in sub :: r[u] == r[v] <==> sub[u] == sub[v]
  {
    forall v | v in sub ensures v in r && r[v] == next + Rank(ids, sub[v]) {
      var k := Rank(ids, sub[v]);
    }
  }

  lemma RefiningStep(coarse: Assignment, done: seq<int>, subs: map<int, Assignment>, refined: Assignment, next: int,
                     c: int, sub: Assignment, refined': Assignment, next': int)
    requires Refining(coarse, done, subs, refined, next) && c !in subs && sub.Keys == NodesIn(coarse, c)
    requires refined'.Keys == refined.Keys + sub.Keys && next <= next'
    requires forall v | v in refined :: refined'[v] == refined[v]
    requires forall v | v in sub :: next <= refined'[v] < next'
    requires forall u, v | u in sub && v in sub :: refined'[u] == refined'[v] <==> sub[u] == sub[v]
    requires next >= 0
    ensures Refining(coarse, done + [c], subs[c := sub], refined', next')
  {
    var subs' := subs[c := sub];
    forall v ensures v in refined' <==> v in coarse && coarse[v] in subs' {
      if v in coarse { var d := coarse[v]; }
    }
    forall u, v | u in refined' && v in refined'
      ensures refined'[u] == refined'[v] <==> Together(coarse, subs', u, v)
    {
      TogetherStep(coarse, subs, c, sub, u, v);
    }
  }

  /** Splitting another community changes nothing for the nodes outside it. */
  lemma TogetherStep(coarse: Assignment, subs: map<int, Assignment>, c: int, sub: Assignment, u: Text, v: Text)
    requires c !in subs && sub.Keys == NodesIn(coarse, c)
    ensures u in sub && v in sub ==> (Together(coarse, subs[c := sub], u, v) <==> sub[u] == sub[v])
    ensures u in sub && v !in sub ==> !Together(coarse, subs[c := sub], u, v)
    ensures u !in sub && v in sub ==> !Together(coarse, subs[c := sub], u, v)
    ensures u !in sub && v !in sub ==> (Together(coarse, subs[c := sub], u, v) <==> Together(coarse, subs, u, v))
  {
    if u in coarse {
      var d := coarse[u];
      assert d == c <==> u in sub;
    }
    if v in coarse {
      var e := coarse[v];
      assert e == c <==> v in sub;
    }
  }

  /** The partition refines the coarse one: its communities are exactly the parts of coarse communities
      that share a root and, for undirected graphs, those that links at or above the threshold hold
      together. */
  ghost predicate RefinesByLinks(graph: Graph, profile: Profile, coarse: Assignment, a: Assignment) {
    && a.Keys == coarse.Keys
    && (forall u, v | u in a && v in a ::
          a[u] == a[v] <==> coarse[u] == coarse[v] && SamePart(graph, profile, coarse, coarse[u], u, v))
    && (IsUndirected(Some(profile)) ==> forall u, v | u in a && v in a ::
          a[u] == a[v] <==> coarse[u] == coarse[v] && Reaches(InnerLinks(graph, profile, coarse, coarse[u]), u, v))
  }

  ghost predicate SplitsAll(graph: Graph, profile: Profile, coarse: Assignment, subs: map<int, Assignment>) {
    forall c | c in subs :: SplitsCommunity(graph, profile, coarse, c, subs[c])
  }

  lemma RefiningEnds(graph: Graph, profile: Profile, coarse: Assignment, done: seq<int>, subs: map<int, Assignment>,
      refined: Assignment, next: int)
    requires Refining(coarse, done, subs, refined, next) && SplitsAll(graph, profile, coarse, subs)
    requires forall v | v in coarse :: coarse[v] in done
    ensures RefinesByLinks(graph, profile, coarse, refined)
  {
    hide Reaches, InnerLinks, SamePart;
    forall v | v in coarse ensures v in refined {
      var c := coarse[v];
      assert c in subs;
    }
    forall u, v | u in refined && v in refined
      ensures refined[u] == refined[v] <==> coarse[u] == coarse[v] && SamePart(graph, profile, coarse, coarse[u], u, v)
      ensures IsUndirected(Some(profile)) ==>
        (refined[u] == refined[v] <==>
           coarse[u] == coarse[v] && Reaches(InnerLinks(graph, profile, coarse, coarse[u]), u, v))
    {
      var c := coarse[u];
      assert c in subs && SplitsCommunity(graph, profile, coarse, c, subs[c]);
      assert u in NodesIn(coarse, c);
      assert coarse[v] == c ==> v in NodesIn(coarse, c);
    }
  }

  lemma RefinementIsPartitionOnly(graph: Graph, profile: Profile, coarse: Assignment, a: Assignment, b: Assignment)
    requires RefinesByLinks(graph, profile, coarse, a) && SamePartition(a, b)
    ensures RefinesByLinks(graph, profile, coarse, b)
  {
    hide Reaches, InnerLinks, SamePart;
  }

  /** A coarse partition has one refinement. */
  lemma RefinementIsUnique(graph: Graph, profile: Profile, coarse: Assignment, a: Assignment, b: Assignment)
    requires RefinesByLinks(graph, profile, coarse, a) && RefinesByLinks(graph, profile, coarse, b)
    ensures SamePartition(a, b)
    ensures Canonical(a) && Canonical(b) ==> a == b
  {
    hide Reaches, InnerLinks, SamePart, Canonical;
    if Canonical(a) && Canonical(b) { CanonicalIsUnique(a, b); }
  }

  /** Splits every community of a partition, whatever it is, and renumbers. */
  method Refine(graph: Graph, profile: Profile, coarse: Assignment) returns (r: Assignment)
    ensures RefinesByLinks(graph, profile, coarse, r)
    ensures Canonical(r)
  {
    hide Refining, RefinesByLinks, SplitsCommunity, Canonical;
    var refined: Assignment, next := map[], 0;
    var communities := DistinctIds(coarse);
    ghost var subs: map<int, Assignment> := map[];
    RefiningStarts(coarse);
    for i := 0 to |communities|
      invariant next >= 0
      invariant Refining(coarse, communities[..i], subs, refined, next)
      invariant SplitsAll(graph, profile, coarse, subs)
    {
      var c := communities[i];
      assert communities[..i + 1] == communities[..i] + [c];
      assert c !in communities[..i];
      var sub := SplitCommunity(graph, profile, coarse, c);
      FreshCommunity(graph, profile, coarse, communities[..i], subs, refined, next, c, sub);
      ghost var before, at := refined, next;
      refined, next := NumberParts(sub, refined, next);
      RefiningStep(coarse, communities[..i], subs, before, at, c, sub, refined, next);
      subs := subs[c := sub];
    }
    assert communities[..|communities|] == communities;
    RefiningEnds(graph, profile, coarse, communities, subs, refined, next);
    r := NormalizeCommunityIds(refined);
    RefinementIsPartitionOnly(graph, profile, coarse, refined, r);
  }

  /** The refinement of the partition that the greedy run ends with. */
  method LeidenRefinement(graph: Graph, profile: Profile, modularity: Assignment -> int) returns (r: CommunityResult)
    ensures r.passes > 0 && EndsAfter(graph, modularity, ToleranceOf(profile), MaxPasses(profile), r.passes - 1)
    ensures var coarse := AfterPasses(graph, modularity, ToleranceOf(profile), r.passes - 1);
      RefinesByLinks(graph, profile, coarse, r.assignment)
    ensures Canonical(r.assignment) && r.modularity == modularity(r.assignment)
    ensures r.assignment.Keys == Elements(graph.nodes)
  {
    hide RefinesByLinks, Canonical, EndsAfter, AfterPasses;
    var louvain := LouvainModularity(graph, profile, modularity);
    var refined := Refine(graph, profile, louvain.assignment);
    RefinedKeys(graph, profile, louvain.assignment, refined);
    r := CommunityResult(refined, modularity(refined), louvain.passes + 1);
  }

  lemma RefiningStarts(coarse: Assignment)
    ensures Refining(coarse, [], map[], map[], 0)
  {
  }

  lemma FreshCommunity(graph: Graph, profile: Profile, coarse: Assignment, done: seq<int>, subs: map<int, Assignment>,
                       refined: Assignment, next: int, c: int, sub: Assignment)
    requires Refining(coarse, done, subs, refined, next) && c !in done &&
        SplitsCommunity(graph, profile, coarse, c, sub)
    ensures c !in subs && sub.Keys == NodesIn(coarse, c) && sub.Keys !! refined.Keys
  {
    forall v | v in sub ensures v !in refined {
      assert v in NodesIn(coarse, c);
    }
  }

  lemma RefinedKeys(graph: Graph, profile: Profile, coarse: Assignment, a: Assignment)
    requires RefinesByLinks(graph, profile, coarse, a)
    ensures a.Keys == coarse.Keys
  {
  }

  // ---------- Connected inside ----------

  /** The links with both ends in a set of nodes. */
  ghost function Inside(links: Links, s: set<Text>): Links {
    set l | l in links && l.0 in s && l.1 in s
  }

  lemma {:induction false} WalkInside(links: Links, s: set<Text>, u: Text, v: Text, n: nat)
    requires Walk(links, u, v, n)
    requires forall w | Reaches(links, u, w) :: w in s
    ensures Reaches(Inside(links, s), u, v)
    decreases n
  {
    ReachesSelf(Inside(links, s), u);
    if n > 0 {
      var m: Text :| Walk(links, u, m, n - 1) && (m, v) in links;
      WalkInside(links, s, u, m, n - 1);
      assert Reaches(links, u, m) && Reaches(links, u, v);
      ReachesStep(Inside(links, s), u, m, v);
    }
  }

  /** Under the undirected projection every refined community is connected by links lying inside it. */
  lemma CommunitiesAreConnected(graph: Graph, profile: Profile, coarse: Assignment, a: Assignment, u: Text, v: Text)
    requires RefinesByLinks(graph, profile, coarse, a) && IsUndirected(Some(profile))
    requires u in a && v in a && a[u] == a[v]
    ensures Reaches(Inside(InnerLinks(graph, profile, coarse, coarse[u]), NodesIn(a, a[u])), u, v)
  {
    hide InnerLinks, Walk;
    var links := InnerLinks(graph, profile, coarse, coarse[u]);
    InnerLinksClosed(graph, profile, coarse, coarse[u]);
    forall w | Reaches(links, u, w) ensures w in NodesIn(a, a[u]) {
      assert u in NodesIn(coarse, coarse[u]);
      ReachesStaysIn(links, NodesIn(coarse, coarse[u]), u, w);
    }
    var n: nat :| Walk(links, u, v, n);
    WalkInside(links, NodesIn(a, a[u]), u, v, n);
  }

  lemma InnerLinksClosed(graph: Graph, profile: Profile, coarse: Assignment, c: int)
    ensures Closed(InnerLinks(graph, profile, coarse, c), NodesIn(coarse, c))
    ensures EndpointsListed(Subgraph(graph, profile, coarse, c))
  {
    hide GraphLinks;
    var sub := Subgraph(graph, profile, coarse, c);
    assert EndpointsListed(sub);
    GraphLinksListed(sub, ThresholdOf(profile), Some(profile));
  }

  ghost predicate Joins(e: Edge, u: Text, v: Text) {
    (e.src == u && e.dst == v) || (e.src == v && e.dst == u)
  }

  ghost predicate StrongEnough(e: Edge, profile: Profile) {
    PositiveWeight(e, Some(profile)) > 0 && PositiveWeight(e, Some(profile)) >= ThresholdOf(profile)
  }

  lemma LinkIsEdge(graph: Graph, profile: Profile, coarse: Assignment, c: int, u: Text, v: Text)
    requires (u, v) in InnerLinks(graph, profile, coarse, c)
    ensures u in NodesIn(coarse, c) && v in NodesIn(coarse, c)
    ensures exists e | e in graph.edges :: Joins(e, u, v) && StrongEnough(e, profile)
  {
    hide Arcs, SortedSet, MetricWeight, PositiveWeight, NodesIn;
    var sub, threshold, profile' := Subgraph(graph, profile, coarse, c), ThresholdOf(profile), Some(profile);
    InnerLinksClosed(graph, profile, coarse, c);
    GraphLinksListed(sub, threshold, profile');
    var a :| a in Arcs(sub.edges, profile', false) && AtLeast(a.weight, threshold) && (a.src, a.dst) == (u, v);
    ArcFromEdge(sub.edges, profile', false, a);
    var e :| e in sub.edges && a in ArcsOf(e, profile', false);
    MetricIsPositive(e, profile');
    assert u in Elements(sub.nodes) && v in Elements(sub.nodes);
  }

  lemma EdgeIsLink(graph: Graph, profile: Profile, coarse: Assignment, c: int, u: Text, v: Text, e: Edge)
    requires IsUndirected(Some(profile)) && u in NodesIn(coarse, c) && v in NodesIn(coarse, c)
    requires e in graph.edges && Joins(e, u, v) && StrongEnough(e, profile)
    ensures (u, v) in InnerLinks(graph, profile, coarse, c)
  {
    hide Arcs, SortedSet, MetricWeight, PositiveWeight, NodesIn;
    var sub, threshold, profile' := Subgraph(graph, profile, coarse, c), ThresholdOf(profile), Some(profile);
    InnerLinksClosed(graph, profile, coarse, c);
    GraphLinksListed(sub, threshold, profile');
    assert u in Elements(sub.nodes) && v in Elements(sub.nodes);
    MetricIsPositive(e, profile');
    var a := Arc(u, v, PositiveWeight(e, profile'));
    assert a in ArcsOf(e, profile', false);
    assert e in sub.edges;
    ArcFromEdge(sub.edges, profile', false, a);
  }

  /** The links inside a community are its edges of positive weight at or above the threshold. */
  lemma InnerLinksAreEdges(graph: Graph, profile: Profile, coarse: Assignment, c: int, u: Text, v: Text)
    requires IsUndirected(Some(profile))
    ensures (u, v) in InnerLinks(graph, profile, coarse, c) <==>
      && u in NodesIn(coarse, c) && v in NodesIn(coarse, c)
      && exists e | e in graph.edges :: Joins(e, u, v) && StrongEnough(e, profile)
  {
    hide InnerLinks, NodesIn, Joins, StrongEnough;
    if (u, v) in InnerLinks(graph, profile, coarse, c) { LinkIsEdge(graph, profile, coarse, c, u, v); }
    if u in NodesIn(coarse, c) && v in NodesIn(coarse, c) {
      if e :| e in graph.edges && Joins(e, u, v) && StrongEnough(e, profile) {
        EdgeIsLink(graph, profile, coarse, c, u, v, e);
      }
    }
  }

  lemma MetricIsPositive(e: Edge, profile: Option<Profile>)
    ensures MetricWeight(e, profile, false) == PositiveWeight(e, profile) >= 0
  {
  }

  /** What stands in for settings that are missing. */
  lemma DefaultsAre(profile: Profile)
    ensures profile.tolerance.None? ==> ToleranceOf(profile) == 0
    ensures profile.maxPasses.None? ==> MaxPasses(profile) == 20
    ensures profile.floor.None? ==> FloorOf(Some(profile)) == 1000
    ensures FloorOf(None) == 1000
    ensures profile.refinementThreshold.None? ==> ThresholdOf(profile) == FloorOf(Some(profile))
    ensures profile.refinementThreshold.Some? ==> ThresholdOf(profile) == profile.refinementThreshold.value
  {
  }
}
