/** Breadth-first search for the nearest seed, returning as soon as a seed is seen as a neighbour. */
module SeedDistance {
  import opened Wrappers
  import opened Text
  import opened Graph

  datatype Stop = At(node: Text, distance: nat)

  /** The least number of links from u to v is n. */
  ghost predicate Distance(links: Links, u: Text, v: Text, n: nat) {
    Walk(links, u, v, n) && forall m: nat | m < n :: !Walk(links, u, v, m)
  }

  /** Every node within n links of the subject has been seen. */
  ghost predicate SeenWithin(links: Links, subject: Text, seen: set<Text>, n: nat) {
    forall v, m: nat | m <= n && Walk(links, subject, v, m) :: v in seen
  }

  ghost predicate Waits(queue: seq<Stop>, v: Text) {
    exists i | 0 <= i < |queue| :: queue[i].node == v
  }

  /** The queue holds seen nodes with their distances, in order, spanning at most two levels. */
  ghost predicate Levelled(links: Links, subject: Text, seen: set<Text>, queue: seq<Stop>) {
    && (forall i | 0 <= i < |queue| ::
          queue[i].node in seen && Distance(links, subject, queue[i].node, queue[i].distance))
    && (forall i, j | 0 <= i < j < |queue| :: queue[i].distance <= queue[j].distance <= queue[0].distance + 1)
  }

  /** What the search keeps between two nodes taken from the queue. */
  ghost predicate Spreading(links: Links, subject: Text, seeds: set<Text>, seen: set<Text>, queue: seq<Stop>) {
    && subject in seen && seen !! seeds
    && Levelled(links, subject, seen, queue)
    && (queue != [] ==> SeenWithin(links, subject, seen, queue[0].distance))
    && (forall u, v | u in seen && !Waits(queue, u) && (u, v) in links :: v in seen)
  }

  /** What it keeps while it looks at the arcs of `current`, of which those in `done` have been seen to. */
  ghost predicate Expanding(links: Links, subject: Text, seeds: set<Text>, seen: set<Text>, queue: seq<Stop>,
      current: Stop, done: Links) {
    && subject in seen && seen !! seeds
    && Levelled(links, subject, seen, [current] + queue)
    && SeenWithin(links, subject, seen, current.distance)
    && (forall u, v | u in seen && !Waits(queue, u) && u != current.node && (u, v) in links :: v in seen)
    && (forall v | (current.node, v) in done :: v in seen)
  }

  lemma StartSpreading(links: Links, subject: Text, seeds: set<Text>)
    requires subject !in seeds
    ensures Spreading(links, subject, seeds, {subject}, [At(subject, 0)])
  {
    assert Walk(links, subject, subject, 0);
    assert [At(subject, 0)][0].node == subject;
    forall v, m: nat | m <= 0 && Walk(links, subject, v, m) ensures v in {subject} { }
  }

  lemma StartExpanding(links: Links, subject: Text, seeds: set<Text>, seen: set<Text>, queue: seq<Stop>)
    requires Spreading(links, subject, seeds, seen, queue) && queue != []
    ensures Expanding(links, subject, seeds, seen, queue[1..], queue[0], {})
  {
    hide Distance, SeenWithin;
    assert [queue[0]] + queue[1..] == queue;
    forall u | Waits(queue, u) ensures Waits(queue[1..], u) || u == queue[0].node {
      var i :| 0 <= i < |queue| && queue[i].node == u;
      if i > 0 { assert queue[1..][i - 1].node == u; }
    }
  }

  /** A node first seen from `current` lies exactly one link further out. */
  lemma Discovered(links: Links, subject: Text, seeds: set<Text>, seen: set<Text>, queue: seq<Stop>, current: Stop,
      done: Links, v: Text)
    requires Expanding(links, subject, seeds, seen, queue, current, done)
    requires (current.node, v) in links && v !in seen
    ensures Distance(links, subject, v, current.distance + 1)
  {
    assert ([current] + queue)[0] == current;
    assert Walk(links, subject, v, current.distance + 1);
  }

  lemma Enqueued(links: Links, subject: Text, seeds: set<Text>, seen: set<Text>, queue: seq<Stop>, current: Stop,
      done: Links, v: Text)
    requires Expanding(links, subject, seeds, seen, queue, current, done)
    requires (current.node, v) in links && v !in seen && v !in seeds
    ensures Expanding(links, subject, seeds, seen + {v}, queue + [At(v, current.distance + 1)], current,
        done + {(current.node, v)})
  {
    hide Walk;
    Discovered(links, subject, seeds, seen, queue, current, done, v);
    hide Distance;
    var after := queue + [At(v, current.distance + 1)];
    assert [current] + after == ([current] + queue) + [At(v, current.distance + 1)];
    assert ([current] + queue)[0] == current;
    assert after[|queue|].node == v;
    forall u | Waits(queue, u) ensures Waits(after, u) {
      var i :| 0 <= i < |queue| && queue[i].node == u;
      assert after[i].node == u;
    }
  }

  /** All arcs of `current` are done: the level of the next node is complete. */
  lemma DoneExpanding(links: Links, subject: Text, seeds: set<Text>, seen: set<Text>, queue: seq<Stop>, current: Stop)
    requires Expanding(links, subject, seeds, seen, queue, current, links)
    ensures Spreading(links, subject, seeds, seen, queue)
  {
    hide Levelled, SeenWithin, Waits;
    LevelledTail(links, subject, seen, queue, current);
    if queue != [] && queue[0].distance > current.distance {
      LevelComplete(links, subject, seeds, seen, queue, current);
    }
  }

  lemma LevelledTail(links: Links, subject: Text, seen: set<Text>, queue: seq<Stop>, current: Stop)
    requires Levelled(links, subject, seen, [current] + queue)
    ensures Levelled(links, subject, seen, queue)
    ensures queue != [] ==> current.distance <= queue[0].distance <= current.distance + 1
  {
    hide Distance;
    var all := [current] + queue;
    assert all[0] == current;
    assert queue != [] ==> all[1] == queue[0];
    forall i | 0 <= i < |queue| ensures queue[i].node in seen &&
        Distance(links, subject, queue[i].node, queue[i].distance) {
      assert queue[i] == all[i + 1];
    }
    forall i, j | 0 <= i < j < |queue| ensures queue[i].distance <= queue[j].distance <= queue[0].distance + 1 {
      assert queue[i] == all[i + 1] && queue[j] == all[j + 1];
      assert all[0].distance <= all[1].distance;
    }
  }

  lemma LevelComplete(links: Links, subject: Text, seeds: set<Text>, seen: set<Text>, queue: seq<Stop>, current: Stop)
    requires Expanding(links, subject, seeds, seen, queue, current, links)
    requires queue != [] && queue[0].distance > current.distance
    ensures SeenWithin(links, subject, seen, queue[0].distance)
  {
    var all := [current] + queue;
    assert all[0] == current && all[1] == queue[0];
    var n := current.distance;
    assert queue[0].distance == n + 1;
    forall v, m: nat | m <= n + 1 && Walk(links, subject, v, m) ensures v in seen {
      if m == n + 1 {
        var u: Text :| Walk(links, subject, u, n) && (u, v) in links;
        NotWaiting(links, subject, seen, queue, current, u);
      }
    }
  }

  /** A node n links out is not among the waiting ones, which are all further out. */
  lemma NotWaiting(links: Links, subject: Text, seen: set<Text>, queue: seq<Stop>, current: Stop, u: Text)
    requires Levelled(links, subject, seen, [current] + queue)
    requires queue != [] && queue[0].distance > current.distance
    requires Walk(links, subject, u, current.distance)
    ensures !Waits(queue, u)
  {
    var all := [current] + queue;
    assert all[1] == queue[0];
    forall i | 0 <= i < |queue| ensures queue[i].node != u {
      assert all[i + 1] == queue[i];
      assert queue[i].distance >= queue[0].distance;
    }
  }

  /** No seed is nearer than the first one found. */
  lemma FoundSeed(links: Links, subject: Text, seeds: set<Text>, seen: set<Text>, queue: seq<Stop>, current: Stop,
      done: Links, seed: Text)
    requires Expanding(links, subject, seeds, seen, queue, current, done)
    requires (current.node, seed) in links && seed in seeds
    ensures SeedDistance(links, subject, seeds, Some(current.distance + 1))
  {
    Discovered(links, subject, seeds, seen, queue, current, done, seed);
  }

  lemma NoSeed(links: Links, subject: Text, seeds: set<Text>, seen: set<Text>)
    requires Spreading(links, subject, seeds, seen, [])
    ensures SeedDistance(links, subject, seeds, None)
  {
    forall seed, n: nat | seed in seeds && Walk(links, subject, seed, n) ensures false {
      WalkStaysIn(links, seen, subject, seed, n);
    }
  }

  /** `d` is the least number of links from the subject to any seed, or nothing if no walk leads to one. */
  ghost predicate SeedDistance(links: Links, subject: Text, seeds: set<Text>, d: Option<nat>) {
    match d
    case Some(n) =>
      && (exists seed | seed in seeds :: Walk(links, subject, seed, n))
      && (forall seed, m: nat | seed in seeds && Walk(links, subject, seed, m) :: n <= m)
    case None => forall seed, m: nat | seed in seeds :: !Walk(links, subject, seed, m)
  }

  ghost function SeedLinks(graph: Graph, profile: Option<Profile>): Links {
    LinksOf(Arcs(graph.edges, profile, true), FloorOf(profile))
  }

  method ShortestSeedDistance(graph: Graph, subject: Text, seeds: set<Text>, profile: Option<Profile>)
      returns (d: Option<nat>)
    ensures SeedDistance(SeedLinks(graph, profile), subject, seeds, d)
  {
    hide Spreading, Expanding, LinksOf, SeedDistance, Arcs;
    ghost var links := SeedLinks(graph, profile);
    if subject in seeds {
      SubjectIsSeed(links, subject, seeds);
      return Some(0);
    }
    var queue := [At(subject, 0)];
    var seen := {subject};
    var floor := FloorOf(profile);
    var arcs := ProjectedGraphArcs(graph, profile, true);
    ghost var universe := {subject} + set a | a in arcs :: a.dst;
    StartSpreading(links, subject, seeds);
    while queue != []
      invariant Spreading(links, subject, seeds, seen, queue)
      invariant seen <= universe
      decreases |universe - seen|, |queue|
    {
      var current := queue[0];
      StartExpanding(links, subject, seeds, seen, queue);
      ghost var before, size := seen, |queue|;
      NoLinks(arcs, floor);
      queue := queue[1..];
      for i := 0 to |arcs|
        invariant Expanding(links, subject, seeds, seen, queue, current, LinksOf(arcs[..i], floor))
        invariant before <= seen <= universe
        invariant seen == before ==> |queue| == size - 1
      {
        var arc := arcs[i];
        LinksGrow(arcs, floor, i);
        if arc.src != current.node || !AtLeast(arc.weight, floor) || arc.dst in seen {
          Passed(links, subject, seeds, seen, queue, current, LinksOf(arcs[..i], floor), arc, floor);
        } else {
          if arc.dst in seeds {
            FoundSeed(links, subject, seeds, seen, queue, current, LinksOf(arcs[..i], floor), arc.dst);
            return Some(current.distance + 1);
          }
          Enqueued(links, subject, seeds, seen, queue, current, LinksOf(arcs[..i], floor), arc.dst);
          seen := seen + {arc.dst};
          queue := queue + [At(arc.dst, current.distance + 1)];
        }
      }
      assert arcs[..|arcs|] == arcs;
      DoneExpanding(links, subject, seeds, seen, queue, current);
      if seen != before { Fewer(universe, before, seen); }
    }
    NoSeed(links, subject, seeds, seen);
    return None;
  }

  lemma SubjectIsSeed(links: Links, subject: Text, seeds: set<Text>)
    requires subject in seeds
    ensures SeedDistance(links, subject, seeds, Some(0))
  {
    assert Walk(links, subject, subject, 0);
  }

  lemma NoLinks(arcs: seq<Arc>, floor: int)
    ensures LinksOf(arcs[..0], floor) == {}
  {
  }

  lemma LinksGrow(arcs: seq<Arc>, floor: int, i: nat)
    requires i < |arcs|
    ensures LinksOf(arcs[..i + 1], floor)
         == LinksOf(arcs[..i], floor) + if AtLeast(arcs[i].weight, floor) then {(arcs[i].src, arcs[i].dst)} else {}
    ensures AtLeast(arcs[i].weight, floor) ==> (arcs[i].src, arcs[i].dst) in LinksOf(arcs, floor)
  {
    assert arcs[..i + 1] == arcs[..i] + [arcs[i]];
  }

  lemma Passed(links: Links, subject: Text, seeds: set<Text>, seen: set<Text>, queue: seq<Stop>, current: Stop,
      done: Links, arc: Arc, floor: int)
    requires Expanding(links, subject, seeds, seen, queue, current, done)
    requires arc.src != current.node || !AtLeast(arc.weight, floor) || arc.dst in seen
    ensures Expanding(links, subject, seeds, seen, queue, current,
                      done + if AtLeast(arc.weight, floor) then {(arc.src, arc.dst)} else {})
  {
    hide Levelled, SeenWithin, Waits;
  }

  lemma Fewer(universe: set<Text>, before: set<Text>, after: set<Text>)
    requires before < after <= universe
    ensures |universe - after| < |universe - before|
  {
    var x :| x in after && x !in before;
    assert universe - after <= (universe - before) - {x};
    SmallerSet(universe - after, universe - before - {x});
  }

  lemma SmallerSet(a: set<Text>, b: set<Text>)
    requires a <= b
    ensures |a| <= |b|
  {
    assert b == a + (b - a);
  }

  /** The links that seeds are looked for along: edges, negative ones too, of a weight that is not zero and at least
      the floor. */
  lemma SeedLinksAre(graph: Graph, profile: Option<Profile>, u: Text, v: Text)
    ensures (u, v) in SeedLinks(graph, profile) <==>
      && !Ignores(profile)
      && exists e | e in graph.edges :: LeadsFrom(e, profile, u, v) && Reaching(e, profile, FloorOf(profile))
  {
    hide Arcs, ArcsOf, EffectiveWeight, LeadsFrom, Ignores, FloorOf;
    var arcs := Arcs(graph.edges, profile, true);
    if (u, v) in SeedLinks(graph, profile) {
      var a :| a in arcs && AtLeast(a.weight, FloorOf(profile)) && (a.src, a.dst) == (u, v);
      ArcFromEdge(graph.edges, profile, true, a);
      var e :| e in graph.edges && a in ArcsOf(e, profile, true);
      ArcsOfIs(e, profile, true, a);
    }
    if !Ignores(profile) {
      if e :| e in graph.edges && LeadsFrom(e, profile, u, v) && Reaching(e, profile, FloorOf(profile)) {
        var a := Arc(u, v, if e.negative then -EffectiveWeight(e, profile) else EffectiveWeight(e, profile));
        ArcsOfIs(e, profile, true, a);
        ArcFromEdge(graph.edges, profile, true, a);
      }
    }
  }
}
