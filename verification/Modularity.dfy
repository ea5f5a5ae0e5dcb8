/** The score that the community passes climb: modularity of an assignment, in basis points, over exact
    arithmetic. */
module Modularity {
  import opened Wrappers
  import opened Text
  import opened Bps
  import opened Graph
  import opened Community

  /** An unordered pair of nodes. */
  datatype Pair = Pair(left: Text, right: Text)

  datatype Mass = Mass(pair: Pair, weight: int)

  function PairOf(e: Edge): Pair {
    if Leq(e.src, e.dst) then Pair(e.src, e.dst) else Pair(e.dst, e.src)
  }

  function MassFloor(profile: Profile): int {
    if profile.floor.Some? then profile.floor.value else 0
  }

  /** What an edge adds to the mass between its ends: nothing for a loop or below the floor. */
  function EdgeMass(e: Edge, profile: Profile): int {
    var w := PositiveWeight(e, Some(profile));
    if w < MassFloor(profile) || e.src == e.dst then 0 else w
  }

  /** Two edges have the same pair exactly if they join the same two nodes, in whatever direction. */
  lemma PairIsUnordered(d: Edge, e: Edge)
    ensures PairOf(d) == PairOf(e) <==>
      (d.src == e.src && d.dst == e.dst) || (d.src == e.dst && d.dst == e.src)
  {
    hide Leq;
    LeqTotal(d.src, d.dst);
    if Leq(d.src, d.dst) && Leq(d.dst, d.src) { LeqAntisymmetric(d.src, d.dst); }
    LeqTotal(e.src, e.dst);
    if Leq(e.src, e.dst) && Leq(e.dst, e.src) { LeqAntisymmetric(e.src, e.dst); }
  }

  predicate HasMass(e: Edge, profile: Profile) {
    PositiveWeight(e, Some(profile)) >= MassFloor(profile) && e.src != e.dst
  }

  /** Mass comes from edges between different nodes that are not negative and whose weight reaches the floor, which is
      zero unless set. */
  lemma MassIs(e: Edge, profile: Profile)
    ensures EdgeMass(e, profile) > 0 ==>
      && e.src != e.dst && !e.negative && profile.treatment != Some(Ignore)
      && EdgeMass(e, profile) == EffectiveWeight(e, Some(profile)) && EdgeMass(e, profile) >= MassFloor(profile)
    ensures e.src != e.dst && !e.negative && profile.treatment != Some(Ignore) ==>
      (EdgeMass(e, profile) > 0 <==> Reaching(e, Some(profile), MassFloor(profile)))
    ensures HasMass(e, profile) <==>
      e.src != e.dst && (EdgeMass(e, profile) > 0 || (MassFloor(profile) <= 0 && PositiveWeight(e, Some(profile)) == 0))
    ensures MassFloor(profile) == if profile.floor.Some? then profile.floor.value else 0
  {
    hide EffectiveWeight;
  }

  // ---------- Sums over edges ----------

  /** The mass of the edges, each multiplied by a factor that depends on its pair. */
  ghost function EdgeSum(edges: seq<Edge>, profile: Profile, factor: Pair -> int): int {
    if edges == [] then 0 else
      var n := |edges| - 1;
      EdgeSum(edges[..n], profile, factor) + EdgeMass(edges[n], profile) * factor(PairOf(edges[n]))
  }

  function EveryPair(): Pair -> int {
    (p: Pair) => 1
  }

  function Incident(node: Text): Pair -> int {
    (p: Pair) => (if p.left == node then 1 else 0) + if p.right == node then 1 else 0
  }

  /** Nodes outside the assignment count as one community. */
  predicate SameCommunity(a: Assignment, p: Pair) {
    if p.left in a then p.right in a && a[p.left] == a[p.right] else p.right !in a
  }

  ghost function InsideOf(a: Assignment): Pair -> int {
    (p: Pair) => if SameCommunity(a, p) then 1 else 0
  }

  ghost function TotalMass(edges: seq<Edge>, profile: Profile): int {
    EdgeSum(edges, profile, EveryPair())
  }

  ghost function Degree(edges: seq<Edge>, profile: Profile, node: Text): int {
    EdgeSum(edges, profile, Incident(node))
  }

  /** The linked pairs, each once, in order of first appearance. */
  ghost function LinkedPairs(edges: seq<Edge>, profile: Profile): seq<Pair> {
    if edges == [] then [] else
      var n := |edges| - 1;
      var pairs := LinkedPairs(edges[..n], profile);
      if !HasMass(edges[n], profile) || PairOf(edges[n]) in pairs then pairs else pairs + [PairOf(edges[n])]
  }

  /** The product of the degrees, over the pairs inside a community. */
  ghost function DegreeProducts(pairs: seq<Pair>, degree: Text -> int, a: Assignment): int {
    if pairs == [] then 0 else
      var n := |pairs| - 1;
      DegreeProducts(pairs[..n], degree, a) +
      if SameCommunity(a, pairs[n]) then degree(pairs[n].left) * degree(pairs[n].right) else 0
  }

  ghost function DegreeIn(graph: Graph, profile: Profile): Text -> int {
    node => Degree(graph.edges, profile, node)
  }

  /** The share of the mass inside communities, less the share expected from the degrees. */
  ghost function Quality(total: int, inside: int, products: int, resolution: int): real
    requires total > 0
  {
    inside as real / total as real -
    (ClampBps(resolution) as real / 10000.0) * products as real / (2.0 * total as real * total as real)
  }

  ghost function ModularityBps(graph: Graph, profile: Profile, resolution: int, a: Assignment): int {
    var total := TotalMass(graph.edges, profile);
    if total <= 0 then 0 else
      var inside := EdgeSum(graph.edges, profile, InsideOf(a));
      var products := DegreeProducts(LinkedPairs(graph.edges, profile), DegreeIn(graph, profile), a);
      ClampBps((Quality(total, inside, products, resolution) * 10000.0).Floor)
  }

  /** At full resolution one pair of nodes, alone in a graph and together, scores one half; apart, nothing. */
  lemma QualityOfPair(total: int)
    requires total > 0
    ensures Quality(total, total, total * total, 10000) == 0.5 && Quality(total, 0, 0, 10000) == 0.0
  {
    var t := total as real;
    ProductAsReal(total, total);
    assert t / t == 1.0;
    assert t * t > 0.0;
    assert (1.0 * (t * t)) / (2.0 * t * t) == 0.5 by { HalfQuotient(t * t, 2.0 * t * t); }
  }

  lemma HalfQuotient(x: real, y: real)
    requires x > 0.0 && y == 2.0 * x
    ensures x / y == 0.5
  {
  }

  /** More mass inside raises the quality by its share of the total. */
  lemma QualityOfInside(total: int, inside: int, more: int, products: int, resolution: int)
    requires total > 0
    ensures Quality(total, inside + more, products, resolution) - Quality(total, inside, products, resolution)
         == more as real / total as real
  {
    hide ClampBps;
    SplitQuotient(inside as real, more as real, total as real);
  }

  // ---------- The table of masses ----------

  /** `Map.set` of a pair's mass, raised by w. */
  function Add(table: seq<Mass>, pair: Pair, w: int): seq<Mass> {
    if table == [] then [Mass(pair, w)]
    else if table[0].pair == pair then [Mass(pair, table[0].weight + w)] + table[1..]
    else [table[0]] + Add(table[1..], pair, w)
  }

  ghost function TableSum(table: seq<Mass>, factor: Pair -> int): int {
    if table == [] then 0 else table[0].weight * factor(table[0].pair) + TableSum(table[1..], factor)
  }

  ghost function PairsOf(table: seq<Mass>): (r: seq<Pair>)
    ensures |r| == |table|
  {
    seq(|table|, i requires 0 <= i < |table| => table[i].pair)
  }

  lemma {:induction false} AddSum(table: seq<Mass>, pair: Pair, w: int, factor: Pair -> int)
    ensures TableSum(Add(table, pair, w), factor) == TableSum(table, factor) + w * factor(pair)
  {
    if table != [] && table[0].pair != pair {
      AddSum(table[1..], pair, w, factor);
      assert Add(table, pair, w)[1..] == Add(table[1..], pair, w);
    } else if table != [] {
      assert Add(table, pair, w)[1..] == table[1..];
      Distribute(table[0].weight, w, factor(pair));
    }
  }

  lemma Distribute(x: int, y: int, k: int)
    ensures (x + y) * k == x * k + y * k
  {
  }

  lemma PairsCons(m: Mass, table: seq<Mass>)
    ensures PairsOf([m] + table) == [m.pair] + PairsOf(table)
  {
  }

  lemma {:induction false} AddPairs(table: seq<Mass>, pair: Pair, w: int)
    ensures PairsOf(Add(table, pair, w)) == if pair in PairsOf(table) then PairsOf(table) else PairsOf(table) + [pair]
  {
    hide PairsOf;
    if table == [] {
      PairsCons(Mass(pair, w), []);
      assert [Mass(pair, w)] + [] == Add(table, pair, w);
    } else {
      var first, rest := table[0], table[1..];
      assert table == [first] + rest;
      PairsCons(first, rest);
      if first.pair == pair {
        PairsCons(Mass(pair, first.weight + w), rest);
      } else {
        AddPairs(rest, pair, w);
        PairsCons(first, Add(rest, pair, w));
      }
    }
  }

  /** The table holds the same sums as the edges, whatever is summed, and each linked pair once. */
  ghost predicate IsTable(table: seq<Mass>, edges: seq<Edge>, profile: Profile) {
    && PairsOf(table) == LinkedPairs(edges, profile)
    && forall factor: Pair -> int :: TableSum(table, factor) == EdgeSum(edges, profile, factor)
  }

  lemma TableGrows(table: seq<Mass>, edges: seq<Edge>, profile: Profile)
    requires edges != [] && IsTable(table, edges[..|edges| - 1], profile)
    ensures var e := edges[|edges| - 1];
      var next := if HasMass(e, profile) then Add(table, PairOf(e), PositiveWeight(e, Some(profile))) else table;
      IsTable(next, edges, profile)
  {
    hide PositiveWeight, MassFloor, TableSum, Add, LinkedPairs;
    var e := edges[|edges| - 1];
    var w := PositiveWeight(e, Some(profile));
    var next := if HasMass(e, profile) then Add(table, PairOf(e), w) else table;
    forall factor: Pair -> int ensures TableSum(next, factor) == EdgeSum(edges, profile, factor) {
      AddSum(table, PairOf(e), w, factor);
    }
    AddPairs(table, PairOf(e), w);
    LinkedPairsStep(edges, profile);
  }

  lemma LinkedPairsStep(edges: seq<Edge>, profile: Profile)
    requires edges != []
    ensures var pairs, e := LinkedPairs(edges[..|edges| - 1], profile), edges[|edges| - 1];
      LinkedPairs(edges, profile) == if !HasMass(e, profile) || PairOf(e) in pairs then pairs else pairs + [PairOf(e)]
  {
  }

  method UndirectedPositiveMass(graph: Graph, profile: Profile) returns (table: seq<Mass>)
    ensures IsTable(table, graph.edges, profile)
  {
    hide IsTable, PositiveWeight, MassFloor;
    table := [];
    TableStarts(profile);
    for i := 0 to |graph.edges|
      invariant IsTable(table, graph.edges[..i], profile)
    {
      var e := graph.edges[i];
      assert graph.edges[..i + 1][..i] == graph.edges[..i];
      TableGrows(table, graph.edges[..i + 1], profile);
      if HasMass(e, profile) { table := Add(table, PairOf(e), PositiveWeight(e, Some(profile))); }
    }
    assert graph.edges[..|graph.edges|] == graph.edges;
  }

  lemma TableStarts(profile: Profile)
    ensures IsTable([], [], profile)
  {
  }

  // ---------- The computation ----------

  function DegreeOf(degree: map<Text, int>, node: Text): int {
    if node in degree then degree[node] else 0
  }

  ghost function FirstSum(table: seq<Mass>, i: nat, factor: Pair -> int): int
    requires i <= |table|
  {
    TableSum(table[..i], factor)
  }

  lemma {:induction false} TableSumAppend(table: seq<Mass>, m: Mass, factor: Pair -> int)
    ensures TableSum(table + [m], factor) == TableSum(table, factor) + m.weight * factor(m.pair)
  {
    if table != [] {
      TableSumAppend(table[1..], m, factor);
      assert (table + [m])[1..] == table[1..] + [m];
    }
  }

  lemma FirstSumStep(table: seq<Mass>, i: nat, factor: Pair -> int)
    requires i < |table|
    ensures FirstSum(table, i + 1, factor) == FirstSum(table, i, factor) + table[i].weight * factor(table[i].pair)
  {
    assert table[..i + 1] == table[..i] + [table[i]];
    TableSumAppend(table[..i], table[i], factor);
  }

  method Degrees(table: seq<Mass>) returns (degree: map<Text, int>, total: int)
    ensures total == TableSum(table, EveryPair())
    ensures forall node :: DegreeOf(degree, node) == TableSum(table, Incident(node))
  {
    hide TableSum, EveryPair, Incident;
    degree, total := map[], 0;
    SumsStart(table);
    for i := 0 to |table|
      invariant total == FirstSum(table, i, EveryPair())
      invariant forall node :: DegreeOf(degree, node) == FirstSum(table, i, Incident(node))
    {
      var p, w := table[i].pair, table[i].weight;
      ghost var before := degree;
      degree := degree[p.left := DegreeOf(degree, p.left) + w];
      degree := degree[p.right := DegreeOf(degree, p.right) + w];
      forall node ensures DegreeOf(degree, node) == FirstSum(table, i + 1, Incident(node)) {
        FirstSumStep(table, i, Incident(node));
        assert DegreeOf(before, node) == FirstSum(table, i, Incident(node));
        IncidentMass(w, p, node);
      }
      FirstSumStep(table, i, EveryPair());
      AlwaysOne(p);
      total := total + w;
    }
    assert table[..|table|] == table;
  }

  lemma SumsStart(table: seq<Mass>)
    ensures forall factor :: FirstSum(table, 0, factor) == 0
  {
  }

  lemma AlwaysOne(p: Pair)
    ensures EveryPair()(p) == 1
  {
  }

  lemma IncidentMass(w: int, p: Pair, node: Text)
    ensures w * Incident(node)(p) == (if p.left == node then w else 0) + if p.right == node then w else 0
  {
  }

  method ComputeModularityBps(graph: Graph, profile: Profile, resolution: int, a: Assignment) returns (r: int)
    ensures r == ModularityBps(graph, profile, resolution, a)
  {
    hide TableSum, EdgeSum, EveryPair, Incident, InsideOf, LinkedPairs, DegreeProducts, Quality, IsTable, DegreeOf,
        DegreeIn, SameCommunity;
    var table := UndirectedPositiveMass(graph, profile);
    var degree, total := Degrees(table);
    SameSums(table, graph, profile, degree);
    if total <= 0 { return 0; }
    ghost var pairs, degreeIn := LinkedPairs(graph.edges, profile), DegreeIn(graph, profile);
    var q := 0.0;
    QualityStarts(table, total, resolution, degreeIn, a);
    for i := 0 to |table|
      invariant var products := DegreeProducts(pairs[..i], degreeIn, a);
        q == Quality(total, FirstSum(table, i, InsideOf(a)), products, resolution)
    {
      var p, w := table[i].pair, table[i].weight;
      FirstSumStep(table, i, InsideOf(a));
      ProductsStep(pairs, i, degreeIn, a);
      InsideMass(w, p, a);
      assert pairs[i] == p;
      if SameCommunity(a, p) {
        var left, right := DegreeOf(degree, p.left), DegreeOf(degree, p.right);
        QualityStep(total, FirstSum(table, i, InsideOf(a)), w, DegreeProducts(pairs[..i], degreeIn, a),
                    left, right, resolution);
        q := q + (w as real / total as real -
                  (ClampBps(resolution) as real / 10000.0) * (left as real * right as real)
                  / (2.0 * total as real * total as real));
      }
    }
    assert table[..|table|] == table && pairs[..|table|] == pairs;
    r := ClampBps((q * 10000.0).Floor);
  }

  lemma SameSums(table: seq<Mass>, graph: Graph, profile: Profile, degree: map<Text, int>)
    requires IsTable(table, graph.edges, profile)
    requires forall node :: DegreeOf(degree, node) == TableSum(table, Incident(node))
    ensures TotalMass(graph.edges, profile) == TableSum(table, EveryPair())
    ensures forall a :: TableSum(table, InsideOf(a)) == EdgeSum(graph.edges, profile, InsideOf(a))
    ensures forall node :: DegreeOf(degree, node) == DegreeIn(graph, profile)(node)
    ensures |table| == |LinkedPairs(graph.edges, profile)|
    ensures forall i | 0 <= i < |table| :: LinkedPairs(graph.edges, profile)[i] == table[i].pair
  {
    hide TableSum, EdgeSum, EveryPair, Incident, InsideOf, LinkedPairs, DegreeOf;
    assert forall i | 0 <= i < |table| :: PairsOf(table)[i] == table[i].pair;
  }

  lemma QualityStarts(table: seq<Mass>, total: int, resolution: int, degree: Text -> int, a: Assignment)
    requires total > 0
    ensures Quality(total, FirstSum(table, 0, InsideOf(a)), DegreeProducts([], degree, a), resolution) == 0.0
  {
  }

  lemma ProductsStep(pairs: seq<Pair>, i: nat, degree: Text -> int, a: Assignment)
    requires i < |pairs|
    ensures DegreeProducts(pairs[..i + 1], degree, a) == DegreeProducts(pairs[..i], degree, a) +
      if SameCommunity(a, pairs[i]) then degree(pairs[i].left) * degree(pairs[i].right) else 0
  {
    assert pairs[..i + 1][..i] == pairs[..i];
  }

  lemma InsideMass(w: int, p: Pair, a: Assignment)
    ensures w * InsideOf(a)(p) == if SameCommunity(a, p) then w else 0
  {
  }

  lemma QualityStep(total: int, inside: int, w: int, products: int, l: int, r: int, resolution: int)
    requires total > 0
    ensures Quality(total, inside + w, products + l * r, resolution) == Quality(total, inside, products, resolution) +
      (w as real / total as real -
       (ClampBps(resolution) as real / 10000.0) * (l as real * r as real) / (2.0 * total as real * total as real))
  {
    hide ClampBps;
    var t, k := total as real, ClampBps(resolution) as real / 10000.0;
    var d := 2.0 * t * t;
    assert d > 0.0;
    assert (l * r) as real == l as real * r as real by { ProductAsReal(l, r); }
    assert (inside + w) as real == inside as real + w as real;
    SplitQuotient(inside as real, w as real, t);
    assert k * (products + l * r) as real == k * products as real + k * (l as real * r as real);
    SplitQuotient(k * products as real, k * (l as real * r as real), d);
  }

  lemma SplitQuotient(x: real, y: real, d: real)
    requires d > 0.0
    ensures (x + y) / d == x / d + y / d
  {
    assert (x / d + y / d) * d == x + y;
  }

  lemma {:induction false} ProductAsReal(l: int, r: int)
    ensures (l * r) as real == l as real * r as real
    decreases if l < 0 then -l else l
  {
    if l > 0 {
      ProductAsReal(l - 1, r);
      assert l * r == (l - 1) * r + r;
    } else if l < 0 {
      ProductAsReal(l + 1, r);
      assert l * r == (l + 1) * r - r;
    }
  }

  // ---------- A function of the partition ----------

  lemma TogetherSame(a: Assignment, b: Assignment, p: Pair)
    requires SamePartition(a, b)
    ensures SameCommunity(a, p) == SameCommunity(b, p)
  {
  }

  lemma {:induction false} ProductsSame(pairs: seq<Pair>, degree: Text -> int, a: Assignment, b: Assignment)
    requires SamePartition(a, b)
    ensures DegreeProducts(pairs, degree, a) == DegreeProducts(pairs, degree, b)
  {
    hide SamePartition, SameCommunity;
    if pairs != [] {
      ProductsSame(pairs[..|pairs| - 1], degree, a, b);
      TogetherSame(a, b, pairs[|pairs| - 1]);
    }
  }

  lemma {:induction false} InsideSame(edges: seq<Edge>, profile: Profile, a: Assignment, b: Assignment)
    requires SamePartition(a, b)
    ensures EdgeSum(edges, profile, InsideOf(a)) == EdgeSum(edges, profile, InsideOf(b))
  {
    hide SamePartition, SameCommunity, EdgeMass;
    if edges != [] {
      var n := |edges| - 1;
      InsideSame(edges[..n], profile, a, b);
      TogetherSame(a, b, PairOf(edges[n]));
      assert InsideOf(a)(PairOf(edges[n])) == InsideOf(b)(PairOf(edges[n]));
    }
  }

  /** Modularity meets what the community passes ask of a score. */
  lemma ModularityIsPartitionOnly(graph: Graph, profile: Profile, resolution: int)
    ensures PartitionOnly(a => ModularityBps(graph, profile, resolution, a))
  {
    hide SamePartition;
    forall a, b | SamePartition(a, b) ensures ModularityBps(graph, profile, resolution, a) ==
        ModularityBps(graph, profile, resolution, b) {
      InsideSame(graph.edges, profile, a, b);
      ProductsSame(LinkedPairs(graph.edges, profile), DegreeIn(graph, profile), a, b);
    }
  }
}
