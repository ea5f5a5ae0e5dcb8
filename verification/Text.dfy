/** Strings as JavaScript sees them: sequences of UTF-16 code units, compared unit by unit.
    `Array.prototype.sort` without a comparator orders strings this way. */
module Text {
  import opened Wrappers

  type CodeUnit = u: int | 0 <= u < 0x10000

  type Text = seq<CodeUnit>

  /** Code-unit lexicographic order. */
  predicate Leq(a: Text, b: Text) {
    a == [] || (b != [] && (a[0] < b[0] || (a[0] == b[0] && Leq(a[1..], b[1..]))))
  }

  predicate Less(a: Text, b: Text) {
    a != b && Leq(a, b)
  }

  lemma {:induction false} LeqReflexive(a: Text)
    ensures Leq(a, a)
  {
    if a != [] { LeqReflexive(a[1..]); }
  }

  lemma {:induction false} LeqTotal(a: Text, b: Text)
    ensures Leq(a, b) || Leq(b, a)
  {
    if a != [] && b != [] { LeqTotal(a[1..], b[1..]); }
  }

  lemma {:induction false} LeqAntisymmetric(a: Text, b: Text)
    requires Leq(a, b) && Leq(b, a)
    ensures a == b
  {
    if a != [] {
      LeqAntisymmetric(a[1..], b[1..]);
      assert a == [a[0]] + a[1..] && b == [b[0]] + b[1..];
    }
  }

  lemma {:induction false} LeqTransitive(a: Text, b: Text, c: Text)
    requires Leq(a, b) && Leq(b, c)
    ensures Leq(a, c)
  {
    if a != [] && a[0] == b[0] == c[0] { LeqTransitive(a[1..], b[1..], c[1..]); }
  }

  lemma LessTransitive(a: Text, b: Text, c: Text)
    requires Leq(a, b) && Leq(b, c) && (a != b || b != c)
    ensures Less(a, c)
  {
    LeqTransitive(a, b, c);
    if a == c { LeqAntisymmetric(a, b); }
  }

  /** The texts agree before place i, and a has the smaller unit there. */
  ghost predicate SmallerAt(a: Text, b: Text, i: nat) {
    i < |a| && i < |b| && a[..i] == b[..i] && a[i] < b[i]
  }

  lemma SmallerBehind(a: Text, b: Text, i: nat)
    requires SmallerAt(a, b, i) && a[0] == b[0]
    ensures i > 0 && SmallerAt(a[1..], b[1..], i - 1)
  {
    assert a[1..][..i - 1] == a[..i][1..] && b[1..][..i - 1] == b[..i][1..];
  }

  lemma SmallerAhead(a: Text, b: Text, i: nat)
    requires a != [] && b != [] && a[0] == b[0] && SmallerAt(a[1..], b[1..], i)
    ensures SmallerAt(a, b, i + 1)
  {
    assert a[..i + 1] == [a[0]] + a[1..][..i] && b[..i + 1] == [b[0]] + b[1..][..i];
  }

  /** The order is that of section 3.2.3 of RFC 8785: a proper prefix comes first, and otherwise the text with the
      smaller code unit at the first difference. */
  lemma {:induction false} LessIsFirstDifference(a: Text, b: Text)
    ensures Less(a, b) <==> a < b || exists i: nat :: SmallerAt(a, b, i)
  {
    if a != [] && b != [] && a[0] == b[0] {
      LessIsFirstDifference(a[1..], b[1..]);
      assert a == [a[0]] + a[1..] && b == [b[0]] + b[1..];
      if i: nat :| SmallerAt(a, b, i) { SmallerBehind(a, b, i); }
      if i: nat :| SmallerAt(a[1..], b[1..], i) { SmallerAhead(a, b, i); }
    } else if a != [] && b != [] {
      if a[0] < b[0] { assert SmallerAt(a, b, 0); }
      if i: nat :| SmallerAt(a, b, i) { assert i > 0 ==> a[..i][0] == b[..i][0]; }
    }
  }

  ghost predicate StrictlySorted(s: seq<Text>) {
    forall i, j :: 0 <= i < j < |s| ==> Less(s[i], s[j])
  }

  ghost function Elements(s: seq<Text>): set<Text> {
    set x | x in s
  }

  lemma ElementsCons(x: Text, s: seq<Text>)
    ensures Elements([x] + s) == {x} + Elements(s)
  {
  }

  lemma InsertFirst(x: Text, s: seq<Text>)
    requires StrictlySorted(s) && s != [] && Less(x, s[0])
    ensures StrictlySorted([x] + s) && Elements([x] + s) == Elements(s) + {x}
  {
    hide Leq;
    forall j | 0 < j < |s| ensures Less(x, s[j]) { LessTransitive(x, s[0], s[j]); }
    ElementsCons(x, s);
  }

  lemma InsertLater(x: Text, s: seq<Text>, rest: seq<Text>)
    requires StrictlySorted(s) && s != [] && Less(s[0], x)
    requires StrictlySorted(rest) && Elements(rest) == Elements(s[1..]) + {x}
    ensures StrictlySorted([s[0]] + rest) && Elements([s[0]] + rest) == Elements(s) + {x}
  {
    hide Leq;
    ElementsCons(s[0], s[1..]);
    ElementsCons(s[0], rest);
    assert s == [s[0]] + s[1..];
    forall j | 0 <= j < |rest| ensures Less(s[0], rest[j]) {
      assert rest[j] in Elements(rest);
      if rest[j] != x {
        var k :| 0 <= k < |s[1..]| && s[1..][k] == rest[j];
        assert s[k + 1] == rest[j];
      }
    }
  }

  /** Inserting into a strictly sorted list keeps it so, and adds nothing twice. */
  function Insert(x: Text, s: seq<Text>): (r: seq<Text>)
    requires StrictlySorted(s)
    ensures StrictlySorted(r)
    ensures Elements(r) == Elements(s) + {x}
  {
    if s == [] then [x]
    else if x == s[0] then s
    else if Leq(x, s[0]) then
      InsertFirst(x, s);
      [x] + s
    else
      var rest := Insert(x, s[1..]);
      LeqTotal(x, s[0]);
      InsertLater(x, s, rest);
      [s[0]] + rest
  }

  /** The distinct members of a list, in order: `[...new Set(s)].sort()`. */
  function SortUnique(s: seq<Text>): (r: seq<Text>)
    ensures StrictlySorted(r)
    ensures Elements(r) == Elements(s)
  {
    if s == [] then [] else Insert(s[0], SortUnique(s[1..]))
  }

  /** A strictly sorted list is determined by its members. */
  lemma {:induction false} SortedIsCanonical(a: seq<Text>, b: seq<Text>)
    requires StrictlySorted(a) && StrictlySorted(b)
    requires Elements(a) == Elements(b)
    ensures a == b
  {
    HasElements(a);
    HasElements(b);
    if a != [] {
      assert a[0] in Elements(a) && b[0] in Elements(b);
      SameHead(a, b);
      TailElements(a);
      TailElements(b);
      SortedIsCanonical(a[1..], b[1..]);
      assert a == [a[0]] + a[1..] && b == [b[0]] + b[1..];
    }
  }

  lemma HasElements(s: seq<Text>)
    ensures s != [] <==> Elements(s) != {}
  {
    if s != [] { assert s[0] in Elements(s); }
  }

  lemma SameHead(a: seq<Text>, b: seq<Text>)
    requires StrictlySorted(a) && StrictlySorted(b) && a != [] && b != []
    requires a[0] in b && b[0] in a
    ensures a[0] == b[0]
  {
    if a[0] != b[0] {
      LeqAntisymmetric(a[0], b[0]);
    }
  }

  lemma TailElements(s: seq<Text>)
    requires StrictlySorted(s) && s != []
    ensures Elements(s[1..]) == Elements(s) - {s[0]}
  {
    assert s == [s[0]] + s[1..];
  }

  /** The members of a set in order, as a comparator-free `sort` lists them. */
  ghost function SortedSet(s: set<Text>): (r: seq<Text>)
    ensures StrictlySorted(r) && Elements(r) == s
  {
    if s == {} then [] else var x :| x in s; Insert(x, SortedSet(s - {x}))
  }

  /** Listing a set in order by picking members one at a time. */
  method SortSet(s: set<Text>) returns (r: seq<Text>)
    ensures r == SortedSet(s)
  {
    r := [];
    var rest := s;
    while rest != {}
      invariant StrictlySorted(r) && Elements(r) + rest == s
      decreases |rest|
    {
      var x :| x in rest;
      r := Insert(x, r);
      rest := rest - {x};
    }
    SortedIsCanonical(r, SortedSet(s));
  }

  /** `[...s].sort()`: in order, repetitions kept. */
  function Sort(s: seq<Text>): (r: seq<Text>)
    ensures Elements(r) == Elements(s)
    ensures Ordered(r) && multiset(r) == multiset(s)
  {
    if s == [] then [] else
      ElementsCons(s[0], s[1..]);
      assert s == [s[0]] + s[1..];
      InsertAgain(s[0], Sort(s[1..]))
  }

  /** Each text is at most the next. */
  ghost predicate Ordered(s: seq<Text>) {
    |s| > 1 ==> Leq(s[0], s[1]) && Ordered(s[1..])
  }

  lemma AgainFirst(x: Text, s: seq<Text>)
    requires Ordered(s) && (s == [] || Leq(x, s[0]))
    ensures Ordered([x] + s) && Elements([x] + s) == Elements(s) + {x} && multiset([x] + s) == multiset(s) + multiset{x}
  {
    hide Leq;
    ElementsCons(x, s);
    assert ([x] + s)[1..] == s;
  }

  lemma AgainLater(x: Text, s: seq<Text>, rest: seq<Text>)
    requires s != [] && Ordered(s) && Leq(s[0], x) && Ordered(rest) && |rest| == |s|
    requires rest[0] == x || (|s| > 1 && rest[0] == s[1])
    requires Elements(rest) == Elements(s[1..]) + {x} && multiset(rest) == multiset(s[1..]) + multiset{x}
    ensures Ordered([s[0]] + rest) && Elements([s[0]] + rest) == Elements(s) + {x}
    ensures multiset([s[0]] + rest) == multiset(s) + multiset{x}
  {
    hide Leq;
    ElementsCons(s[0], s[1..]);
    ElementsCons(s[0], rest);
    assert s == [s[0]] + s[1..];
    assert ([s[0]] + rest)[1..] == rest;
  }

  function InsertAgain(x: Text, s: seq<Text>): (r: seq<Text>)
    requires Ordered(s)
    ensures Elements(r) == Elements(s) + {x} && multiset(r) == multiset(s) + multiset{x}
    ensures Ordered(r) && |r| == |s| + 1 && (r[0] == x || (s != [] && r[0] == s[0]))
  {
    if s == [] || Leq(x, s[0]) then
      AgainFirst(x, s);
      [x] + s
    else
      var rest := InsertAgain(x, s[1..]);
      LeqTotal(x, s[0]);
      AgainLater(x, s, rest);
      [s[0]] + rest
  }

  /** Text that is there and not empty. */
  predicate Truthy(t: Option<Text>) {
    t.Some? && t.value != []
  }
}
