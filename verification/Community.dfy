/** Assignments of nodes to numbered communities, and their canonical numbering. */
module Community {
  import opened Text

  type Assignment = map<Text, int>

  /** Two assignments group the same nodes in the same way. */
  ghost predicate SamePartition(a: Assignment, b: Assignment) {
    a.Keys == b.Keys && forall u, v | u in a && v in a :: a[u] == a[v] <==> b[u] == b[v]
  }

  // ---------- Canonical numbering ----------

  /** The number the next new community would get after the communities in `ids`. */
  ghost function NextId(ids: seq<int>): (n: nat) {
    if ids == [] then 0 else
      var before := NextId(ids[..|ids| - 1]);
      if ids[|ids| - 1] == before then before + 1 else before
  }

  /** Each community is one met before or gets the next number. */
  ghost predicate InOrder(ids: seq<int>) {
    ids == [] || (InOrder(ids[..|ids| - 1]) && 0 <= ids[|ids| - 1] <= NextId(ids[..|ids| - 1]))
  }

  ghost function IdsOf(a: Assignment, order: seq<Text>): seq<int>
    requires forall v | v in order :: v in a
  {
    seq(|order|, i requires 0 <= i < |order| => a[order[i]])
  }

  /** Communities are numbered 0, 1, 2, … as they first occur in node order. */
  ghost predicate Canonical(a: Assignment) {
    var order := SortedSet(a.Keys);
    (forall v | v in order :: v in a) && InOrder(IdsOf(a, order))
  }

  /** All numbers used are below `NextId` … */
  lemma {:induction false} UsedIdsBelow(ids: seq<int>)
    requires InOrder(ids)
    ensures forall id | id in ids :: id < NextId(ids)
  {
    if ids != [] {
      UsedIdsBelow(ids[..|ids| - 1]);
      assert ids == ids[..|ids| - 1] + [ids[|ids| - 1]];
    }
  }

  /** … and all numbers below it are used. */
  lemma {:induction false} IdWasUsed(ids: seq<int>, id: int)
    requires InOrder(ids) && 0 <= id < NextId(ids)
    ensures id in ids
  {
    var before := ids[..|ids| - 1];
    if id != ids[|ids| - 1] {
      IdWasUsed(before, id);
    }
  }

  /** Two lists have equal members in the same places. */
  ghost predicate SamePattern(ids: seq<int>, jds: seq<int>) {
    |ids| == |jds| && forall x, y | 0 <= x < |ids| && 0 <= y < |ids| :: ids[x] == ids[y] <==> jds[x] == jds[y]
  }

  lemma {:induction false} InOrderAgree(ids: seq<int>, jds: seq<int>)
    requires SamePattern(ids, jds) && InOrder(ids) && InOrder(jds)
    ensures ids == jds
  {
    if ids != [] {
      var n := |ids| - 1;
      InOrderAgree(ids[..n], jds[..n]);
      KnownNumber(ids, jds);
      KnownNumber(jds, ids);
      assert ids == ids[..n] + [ids[n]] && jds == jds[..n] + [jds[n]];
    }
  }

  /** Two numberings that agree up to the last place agree there if its community was met before. */
  lemma KnownNumber(ids: seq<int>, jds: seq<int>)
    requires ids != [] && SamePattern(ids, jds) && InOrder(ids) && ids[..|ids| - 1] == jds[..|ids| - 1]
    ensures ids[|ids| - 1] < NextId(ids[..|ids| - 1]) ==> jds[|ids| - 1] == ids[|ids| - 1]
  {
    hide NextId;
    var n := |ids| - 1;
    if ids[n] < NextId(ids[..n]) {
      IdWasUsed(ids[..n], ids[n]);
      var j :| 0 <= j < n && ids[..n][j] == ids[n];
      assert ids[j] == ids[n] && jds[j] == jds[..n][j];
    }
  }

  /** The same partition has one canonical numbering. */
  lemma CanonicalIsUnique(a: Assignment, b: Assignment)
    requires SamePartition(a, b) && Canonical(a) && Canonical(b)
    ensures a == b
  {
    hide InOrder;
    var order := SortedSet(a.Keys);
    InOrderAgree(IdsOf(a, order), IdsOf(b, order));
    forall v | v in a ensures a[v] == b[v] {
      assert v in Elements(order);
      var j :| 0 <= j < |order| && order[j] == v;
      assert IdsOf(a, order)[j] == a[v] && IdsOf(b, order)[j] == b[v];
    }
  }

  ghost predicate Uses(a: Assignment, id: int) {
    exists v :: v in a && a[v] == id
  }

  lemma UsedIsListed(a: Assignment, order: seq<Text>, id: int)
    requires Elements(order) == a.Keys && forall v | v in order :: v in a
    ensures Uses(a, id) <==> id in IdsOf(a, order)
  {
    var ids := IdsOf(a, order);
    if Uses(a, id) {
      var v :| v in a && a[v] == id;
      assert v in Elements(order);
      var j :| 0 <= j < |order| && order[j] == v;
      assert ids[j] == id;
    }
    if id in ids {
      var j :| 0 <= j < |ids| && ids[j] == id;
      var v := order[j];
      assert v in a && a[v] == id;
    }
  }

  /** A canonical numbering uses exactly the numbers from 0 up to how many communities there are. */
  lemma CanonicalUsesAll(a: Assignment) returns (k: nat)
    requires Canonical(a)
    ensures forall id :: Uses(a, id) <==> 0 <= id < k
  {
    hide InOrder, NextId, IdsOf, Uses, StrictlySorted;
    var order := SortedSet(a.Keys);
    var ids := IdsOf(a, order);
    k := NextId(ids);
    UsedIdsBelow(ids);
    NotNegative(ids);
    forall id ensures Uses(a, id) <==> 0 <= id < k {
      UsedIsListed(a, order, id);
      if 0 <= id < k { IdWasUsed(ids, id); }
    }
  }

  lemma {:induction false} NotNegative(ids: seq<int>)
    requires InOrder(ids)
    ensures forall id | id in ids :: id >= 0
  {
    if ids != [] {
      NotNegative(ids[..|ids| - 1]);
      assert ids == ids[..|ids| - 1] + [ids[|ids| - 1]];
    }
  }

  /** What renumbering keeps after the nodes `done`: `remap` sends the communities met so far one to
      one onto 0, 1, 2, … */
  ghost predicate Renumbering(a: Assignment, done: seq<Text>, remap: map<int, int>, output: Assignment) {
    && StrictlySorted(done) && output.Keys == Elements(done)
    && (forall v | v in done :: v in output)
    && (forall v | v in output :: v in a && a[v] in remap && output[v] == remap[a[v]])
    && OneToOne(remap)
    && InOrder(IdsOf(output, done)) && NextId(IdsOf(output, done)) == |remap|
  }

  ghost predicate OneToOne(remap: map<int, int>) {
    && (forall c, d | c in remap && d in remap && remap[c] == remap[d] :: c == d)
    && (forall c | c in remap :: 0 <= remap[c] < |remap|)
  }

  lemma OneToOneGrows(remap: map<int, int>, c: int, remap': map<int, int>)
    requires OneToOne(remap) && if c in remap then remap' == remap else remap' == remap[c := |remap|]
    ensures OneToOne(remap') && 0 <= remap'[c] <= |remap|
    ensures |remap'| == if remap'[c] == |remap| then |remap| + 1 else |remap|
    ensures forall d | d in remap :: d in remap' && remap'[d] == remap[d]
  {
  }

  lemma InOrderGrows(ids: seq<int>, id: int)
    requires InOrder(ids) && 0 <= id <= NextId(ids)
    ensures InOrder(ids + [id]) && NextId(ids + [id]) == if id == NextId(ids) then id + 1 else NextId(ids)
  {
    assert (ids + [id])[..|ids|] == ids;
  }

  lemma Renumbered(a: Assignment, done: seq<Text>, remap: map<int, int>, output: Assignment, node: Text, c: int,
      remap': map<int, int>)
    requires Renumbering(a, done, remap, output) && node in a && a[node] == c && StrictlySorted(done + [node])
    requires if c in remap then remap' == remap else remap' == remap[c := |remap|]
    ensures Renumbering(a, done + [node], remap', output[node := remap'[c]])
  {
    hide InOrder, NextId, OneToOne, StrictlySorted, Elements, IdsOf;
    OneToOneGrows(remap, c, remap');
    IdsGrow(output, done, node, remap'[c]);
    InOrderGrows(IdsOf(output, done), remap'[c]);
    forall v | v in output && v != node ensures a[v] in remap' && output[v] == remap'[a[v]] {
      var d := a[v];
      assert d in remap;
    }
  }

  lemma IdsGrow(output: Assignment, done: seq<Text>, node: Text, id: int)
    requires StrictlySorted(done + [node]) && output.Keys == Elements(done) && forall v | v in done :: v in output
    ensures var output' := output[node := id];
      && StrictlySorted(done) && output'.Keys == Elements(done + [node]) &&
          (forall v | v in done + [node] :: v in output')
      && IdsOf(output', done + [node]) == IdsOf(output, done) + [id]
  {
    hide Leq;
    var all := done + [node];
    assert forall j | 0 <= j < |done| :: all[j] == done[j] && Less(all[j], all[|done|]);
    assert Elements(all) == Elements(done) + {node};
  }

  /** The canonical numbering of a partition. */
  ghost function Normalized(a: Assignment): (b: Assignment)
    ensures SamePartition(a, b)
  {
    if b :| SamePartition(a, b) && Canonical(b) then b else a
  }

  lemma NormalizedIs(a: Assignment, b: Assignment)
    requires SamePartition(a, b) && Canonical(b)
    ensures b == Normalized(a)
  {
    hide Canonical;
    CanonicalIsUnique(b, Normalized(a));
  }

  method NormalizeCommunityIds(a: Assignment) returns (output: Assignment)
    ensures SamePartition(a, output)
    ensures Canonical(output)
    ensures output == Normalized(a)
  {
    hide Renumbering, Leq, SortedSet, Canonical, SamePartition;
    var remap: map<int, int> := map[];
    output := map[];
    var order := SortSet(a.Keys);
    RenumberingStarts(a);
    for i := 0 to |order|
      invariant Renumbering(a, order[..i], remap, output)
    {
      var node := order[i];
      assert node in Elements(order);
      var current := a[node];
      ghost var before := remap;
      if current !in remap {
        remap := remap[current := |remap|];
      }
      assert order[..i + 1] == order[..i] + [node];
      Renumbered(a, order[..i], before, output, node, current, remap);
      output := output[node := remap[current]];
    }
    assert order[..|order|] == order;
    RenumberingEnds(a, order, remap, output);
    NormalizedIs(a, output);
  }

  lemma RenumberingStarts(a: Assignment)
    ensures Renumbering(a, [], map[], map[])
  {
  }

  lemma RenumberingEnds(a: Assignment, order: seq<Text>, remap: map<int, int>, output: Assignment)
    requires order == SortedSet(a.Keys) && Renumbering(a, order, remap, output)
    ensures SamePartition(a, output) && Canonical(output)
  {
    hide NextId, InOrder;
  }

  /** Modularity depends on the grouping alone, not on the numbers given to the communities. */
  ghost predicate PartitionOnly(modularity: Assignment -> int) {
    forall a, b | SamePartition(a, b) :: modularity(a) == modularity(b)
  }

  // ---------- Lists of numbers ----------

  ghost predicate Ascending(s: seq<int>) {
    forall i, j | 0 <= i < j < |s| :: s[i] < s[j]
  }

  function InsertId(x: int, s: seq<int>): (r: seq<int>)
    requires Ascending(s)
    ensures Ascending(r) && forall y :: y in r <==> y == x || y in s
  {
    if s == [] then [x]
    else if x == s[0] then s
    else if x < s[0] then [x] + s
    else
      var rest := InsertId(x, s[1..]);
      assert s == [s[0]] + s[1..];
      assert forall y | y in s[1..] :: s[0] < y;
      assert forall j | 0 <= j < |rest| :: s[0] < rest[j] by {
        assert forall j | 0 <= j < |rest| :: rest[j] in rest;
      }
      [s[0]] + rest
  }
}
