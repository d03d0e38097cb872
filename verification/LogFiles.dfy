/**
  Reading a log file: the virtual IDs of all lines are found round by round, and two files are
  paired by virtual ID.
*/
module LogFiles {
  import opened Wrappers
  import opened VirtualIds

  datatype LogError = NonZeroFrame | DuplicateId | InfiniteLoop | DuplicateKey

  /** A line with a header; the props are without parent links. The kind may contain IDs as well. */
  datatype Line = Line(kind: seq<Token>, frame: string, id: Id, props: seq<Token>)

  // ----- conditions on a file -----

  ghost function Ids(lines: seq<Line>): set<Id> {
    set l | l in lines :: l.id
  }

  /** A reference to a line of the file. */
  ghost predicate RefersTo(lines: seq<Line>, s: seq<Token>, t: Token) {
    t in s && t.Ref? && t.id in Ids(lines)
  }

  /** No two lines have the same ID. */
  ghost predicate DistinctIds(lines: seq<Line>) {
    forall a, b :: a in lines && b in lines && a.id == b.id ==> a == b && multiset(lines)[a] == 1
  }

  ghost predicate FramesZero(lines: seq<Line>) {
    forall l :: l in lines ==> l.frame == "0"
  }

  /**
    From the IDs in the properties no cycle of IDs in kinds can be reached: ids is a set of IDs
    that contains the former and is closed under the latter, which go down in rank.
  */
  ghost predicate KindsRanked(lines: seq<Line>, ids: set<Id>, rank: Id -> nat) {
    && (forall l, t :: l in lines && RefersTo(lines, l.props, t) ==> t.id in ids)
    && forall l, t :: l in lines && l.id in ids && RefersTo(lines, l.kind, t) ==> t.id in ids && rank(t.id) < rank(l.id)
  }

  ghost predicate KindsTame(lines: seq<Line>) {
    exists ids: set<Id>, rank: Id -> nat :: KindsRanked(lines, ids, rank)
  }

  /** In particular, if no kind contains an ID of the file. */
  lemma {:induction false} PlainKinds(lines: seq<Line>)
    requires forall l, t :: l in lines ==> !RefersTo(lines, l.kind, t)
    ensures KindsTame(lines)
  {
    var rank: Id -> nat := id => 0;
    assert KindsRanked(lines, Ids(lines), rank);
  }

  /**
    The lines can be ranked so that what a line needs ranks lower: needs(id) contains the IDs in
    the properties of the line and, with an ID, those in the kind of its line.
  */
  ghost predicate Ordered(lines: seq<Line>, rank: Id -> nat, needs: Id -> set<Id>) {
    && (forall l, t :: l in lines && RefersTo(lines, l.props, t) ==> t.id in needs(l.id))
    && (forall l, b :: l in lines && b in needs(l.id) ==> rank(b) < rank(l.id))
    && forall l, k, t :: l in lines && k in lines && k.id in needs(l.id) && RefersTo(lines, k.kind, t) ==> t.id in needs(l.id)
  }

  /** The references between lines have no cycle. */
  ghost predicate Acyclic(lines: seq<Line>) {
    exists rank: Id -> nat, needs: Id -> set<Id> :: Ordered(lines, rank, needs)
  }

  /** Frame zero throughout, distinct IDs, and no cycle of references. */
  ghost predicate Resolvable(lines: seq<Line>) {
    FramesZero(lines) && DistinctIds(lines) && Acyclic(lines)
  }

  ghost predicate AllResolved(items: Items) {
    forall id :: id in items ==> items[id].Some?
  }

  // ----- the equations of the virtual IDs -----

  /** The virtual ID of a line: its kind, and its properties with all IDs fully expanded. */
  ghost predicate Solved(items: Items, l: Line) {
    l.id in items && items[l.id].Some? && exists x :: Expands(items, l.props, x) && items[l.id].value == Wrap(l.kind, x)
  }

  ghost predicate IsResolution(lines: seq<Line>, items: Items) {
    items.Keys == Ids(lines) && forall l :: l in lines ==> Solved(items, l)
  }

  lemma {:induction false} WrapTokens(kind: seq<Token>, x: seq<Token>, t: Token)
    ensures t.Ref? ==> (t in Wrap(kind, x) <==> t in kind || t in x)
  {
    var (a, b, c) := (Characters("{"), Characters("=>"), Characters("}"));
    assert Wrap(kind, x) == a + kind + b + x + c;
    assert t in kind || t in x ==> t in a + kind + b + x;
  }

  /** The IDs of the file in a virtual ID are those in the kind. */
  lemma {:induction false} SolvedRefs(items: Items, l: Line, t: Token)
    requires Solved(items, l) && IsKnown(items, t)
    ensures t in items[l.id].value <==> t in l.kind
  {
    var x :| Expands(items, l.props, x) && items[l.id].value == Wrap(l.kind, x);
    WrapTokens(l.kind, x, t);
  }

  /** Every resolved ID has a line that it is the solution of. */
  ghost predicate Shaped(lines: seq<Line>, items: Items) {
    && items.Keys == Ids(lines)
    && forall id :: id in items && items[id].Some? ==> exists l :: l in lines && l.id == id && KindRefs(items, l)
  }

  ghost predicate KindRefs(items: Items, l: Line)
    requires l.id in items && items[l.id].Some?
  {
    forall t :: t in items[l.id].value && IsKnown(items, t) ==> t in l.kind
  }

  lemma {:induction false} TameItems(lines: seq<Line>, items: Items, l: Line)
    requires KindsTame(lines) && Shaped(lines, items) && l in lines
    ensures Tame(items, l.props)
  {
    var ids: set<Id>, rank: Id -> nat :| KindsRanked(lines, ids, rank);
    assert Bounded(items, ids, rank) by { KindsBounded(lines, items, ids, rank); }
    assert RefsIn(items, l.props, ids) by {
      forall t | t in l.props && IsKnown(items, t) ensures t.id in ids { assert RefersTo(lines, l.props, t); }
    }
  }

  lemma {:induction false} KindsBounded(lines: seq<Line>, items: Items, ids: set<Id>, rank: Id -> nat)
    requires KindsRanked(lines, ids, rank) && Shaped(lines, items)
    ensures Bounded(items, ids, rank)
  {
    forall a, t | a in ids && a in items && items[a].Some? && t in items[a].value && IsKnown(items, t)
      ensures t.id in ids && rank(t.id) < rank(a)
    {
      var l :| l in lines && l.id == a && KindRefs(items, l);
      assert RefersTo(lines, l.kind, t);
    }
  }

  // ----- a solution exists only without cycles -----

  lemma {:induction false} ResolutionShaped(lines: seq<Line>, items: Items)
    requires IsResolution(lines, items)
    ensures Shaped(lines, items) && AllResolved(items)
  {
    forall id | id in items
      ensures items[id].Some? && exists l :: l in lines && l.id == id && KindRefs(items, l)
    {
      var l :| l in lines && l.id == id;
      assert Solved(items, l);
      forall t | t in items[l.id].value && IsKnown(items, t) ensures t in l.kind { SolvedRefs(items, l, t); }
      assert KindRefs(items, l);
    }
  }

  lemma {:induction false} ResolutionKinds(lines: seq<Line>, items: Items)
    requires IsResolution(lines, items)
    ensures KindsTame(lines)
  {
    var ids := Expandable(items);
    var rank: Id -> nat := id => Depth(items, id);
    ExpandableBounded(items);
    forall l, t | l in lines && RefersTo(lines, l.props, t) ensures t.id in ids {
      PropsExpandable(items, l, t);
    }
    forall l, t | l in lines && l.id in ids && RefersTo(lines, l.kind, t) ensures t.id in ids && rank(t.id) < rank(l.id) {
      SolvedRefs(items, l, t);
    }
    assert KindsRanked(lines, ids, rank);
  }

  lemma {:induction false} PropsExpandable(items: Items, l: Line, t: Token)
    requires Solved(items, l) && t in l.props && IsKnown(items, t)
    ensures t.id in Expandable(items)
  {
    var x :| Expands(items, l.props, x) && items[l.id].value == Wrap(l.kind, x);
    var n: nat :| Expanded(items, l.props, n) == x;
    ExpandableRefs(items, l.props, n, t);
  }

  /** The length of the full expansion of an ID. */
  ghost function FullLength(items: Items, id: Id): nat {
    |ExpandedToken(items, Ref(id), Depth(items, id))|
  }

  ghost predicate NoneEmpty(items: Items) {
    forall id :: id in items && items[id].Some? ==> items[id].value != []
  }

  lemma {:induction false} Longer(items: Items, s: seq<Token>, n: nat)
    requires NoneEmpty(items)
    ensures |Expanded(items, s, n)| >= |s|
    decreases n, |s|
  {
    if s != [] {
      Longer(items, s[1..], n);
      if n > 0 && IsKnown(items, s[0]) && items[s[0].id].Some? {
        Longer(items, items[s[0].id].value, n - 1);
      }
    }
  }

  /** The full expansion of an ID in a text is no longer than that of the text. */
  lemma {:induction false} PartLength(items: Items, s: seq<Token>, n: nat, t: Token)
    requires Final(items.Keys, Expanded(items, s, n)) && t in s && IsKnown(items, t)
    ensures FullLength(items, t.id) <= |Expanded(items, s, n)|
  {
    var k :| 0 <= k < |s| && s[k] == t;
    TokenFinal(items, s, k, n);
    ExpandedPart(items, s, k, n);
    assert t == Ref(t.id);
    DepthIs(items, t.id, n);
    ExpandedOne(items, t, n);
    ExpandedOne(items, t, Depth(items, t.id));
    Stable(items, [t], Depth(items, t.id), n);
  }

  /** An ID in a virtual ID has no longer expansion, and no expansion is shorter than the virtual ID. */
  lemma {:induction false} FullLengths(items: Items, id: Id)
    requires id in Expandable(items) && NoneEmpty(items)
    ensures items[id].Some? && |items[id].value| <= FullLength(items, id)
    ensures forall t :: t in items[id].value && IsKnown(items, t) ==> FullLength(items, t.id) <= FullLength(items, id)
  {
    var m: nat :| FinalAt(items, id, m);
    DepthIs(items, id, m);
    KnownFinal(items, Ref(id), Depth(items, id));
    var (v, n) := (items[id].value, Depth(items, id) - 1);
    Longer(items, v, n);
    forall t | t in v && IsKnown(items, t) ensures FullLength(items, t.id) <= FullLength(items, id) {
      PartLength(items, v, n, t);
    }
  }

  /** What a line needs: the IDs whose expansions are shorter than its virtual ID. */
  ghost function Shorter(items: Items, id: Id): set<Id> {
    if id in items && items[id].Some? then
      set b | b in Expandable(items) && FullLength(items, b) < |items[id].value|
    else {}
  }

  ghost function Length(items: Items, id: Id): nat {
    if id in items && items[id].Some? then |items[id].value| else 0
  }

  /** The equations have a solution only if the references have no cycle. */
  lemma {:induction false} ResolutionAcyclic(lines: seq<Line>, items: Items)
    requires IsResolution(lines, items)
    ensures Acyclic(lines)
  {
    var rank: Id -> nat := id => Length(items, id);
    var needs: Id -> set<Id> := id => Shorter(items, id);
    ResolutionShaped(lines, items);
    assert NoneEmpty(items) by { forall l | l in lines ensures Solved(items, l) && items[l.id].value != [] {} }
    forall l, t | l in lines && RefersTo(lines, l.props, t) ensures t.id in needs(l.id) {
      PropsShorter(items, l, t);
    }
    forall l, b | l in lines && b in needs(l.id) ensures rank(b) < rank(l.id) {
      FullLengths(items, b);
    }
    forall l, k, t | l in lines && k in lines && k.id in needs(l.id) && RefersTo(lines, k.kind, t)
      ensures t.id in needs(l.id)
    {
      assert Solved(items, k);
      KindShorter(items, l.id, k, t);
    }
    assert Ordered(lines, rank, needs);
  }

  lemma {:induction false} KindShorter(items: Items, id: Id, k: Line, t: Token)
    requires Solved(items, k) && k.id in Shorter(items, id) && t in k.kind && IsKnown(items, t)
    requires NoneEmpty(items)
    ensures t.id in Shorter(items, id)
  {
    SolvedRefs(items, k, t);
    FullLengths(items, k.id);
    ExpandableBounded(items);
  }

  lemma {:induction false} PropsShorter(items: Items, l: Line, t: Token)
    requires Solved(items, l) && t in l.props && IsKnown(items, t)
    ensures t.id in Shorter(items, l.id)
  {
    PropsExpandable(items, l, t);
    var x :| Expands(items, l.props, x) && items[l.id].value == Wrap(l.kind, x);
    var n: nat :| Expanded(items, l.props, n) == x;
    PartLength(items, l.props, n, t);
  }

  /** So a file that fails the condition on kinds has no solution, whatever else it meets. */
  lemma {:induction false} NoSolution(lines: seq<Line>)
    requires !KindsTame(lines)
    ensures forall items :: !IsResolution(lines, items)
  {
    forall items ensures !IsResolution(lines, items) {
      if IsResolution(lines, items) { ResolutionKinds(lines, items); }
    }
  }

  /** Two lines: the kind of the first contains its own ID, and the second refers to it. */
  function OwnKindFile(): seq<Line> {
    [Line([Ref("0x1")], "0", "0x1", [Text('b')]), Line([Text('t')], "0", "0x2", [Ref("0x1")])]
  }

  /**
    This file meets all other conditions, but it has no solution. With the first line resolved,
    the scan of the second never ends (VirtualIds.OwnKind).
  */
  lemma {:induction false} OwnKindUnsolvable()
    ensures Resolvable(OwnKindFile()) && !KindsTame(OwnKindFile())
    ensures forall items :: !IsResolution(OwnKindFile(), items)
  {
    OwnKindResolvable();
    OwnKindNotTame();
    NoSolution(OwnKindFile());
  }

  lemma {:induction false} OwnKindIds()
    ensures Ids(OwnKindFile()) == {"0x1", "0x2"}
  {
    var lines := OwnKindFile();
    assert lines[0] in lines && lines[1] in lines;
  }

  lemma {:induction false} TwoDistinct(a: Line, b: Line)
    requires a.id != b.id
    ensures DistinctIds([a, b])
  {
    assert multiset([a, b]) == multiset{a, b};
    assert forall l :: l in [a, b] <==> l == a || l == b;
  }

  /** A line without IDs in its properties, and one that refers to it. */
  lemma {:induction false} TwoOrdered(a: Line, b: Line)
    requires a.id != b.id && b.props == [Ref(a.id)] && forall t :: t in a.props ==> t.Text?
    requires forall t :: t in a.kind && t.Ref? ==> t.id == a.id
    ensures Acyclic([a, b])
  {
    var rank: Id -> nat := id => if id == b.id then 1 else 0;
    var needs: Id -> set<Id> := id => if id == b.id then {a.id} else {};
    var lines := [a, b];
    assert forall l :: l in lines <==> l == a || l == b;
    forall l, t | l in lines && RefersTo(lines, l.props, t) ensures t.id in needs(l.id) {
      assert l == b && t == Ref(a.id);
    }
    assert Ordered(lines, rank, needs);
  }

  lemma {:induction false} OwnKindResolvable()
    ensures Resolvable(OwnKindFile())
  {
    var lines := OwnKindFile();
    TwoDistinct(lines[0], lines[1]);
    TwoOrdered(lines[0], lines[1]);
    assert lines == [lines[0], lines[1]];
  }

  lemma {:induction false} OwnKindNotTame()
    ensures !KindsTame(OwnKindFile())
  {
    var lines := OwnKindFile();
    OwnKindIds();
    assert lines[0] in lines && lines[1] in lines;
    assert RefersTo(lines, lines[1].props, Ref("0x1")) && RefersTo(lines, lines[0].kind, Ref("0x1"));
    forall ids: set<Id>, depth: Id -> nat ensures !KindsRanked(lines, ids, depth) {}
  }

  // ----- the solution is unique -----

  /** Every ID reachable from the text is in the set, and both tables agree on it. */
  ghost predicate AgreeOn(a: Items, b: Items, ids: set<Id>) {
    && a.Keys == b.Keys && (forall id :: id in ids && id in a ==> a[id] == b[id])
    && forall id :: id in ids && id in a && a[id].Some? ==> RefsIn(a, a[id].value, ids)
  }

  lemma {:induction false} SameExpansion(a: Items, b: Items, s: seq<Token>, ids: set<Id>, n: nat)
    requires AgreeOn(a, b, ids) && RefsIn(a, s, ids)
    ensures Expanded(a, s, n) == Expanded(b, s, n)
    decreases n, |s| + 1
  {
    if s != [] {
      assert s[0] in s && forall t :: t in s[1..] ==> t in s;
      SameExpansion(a, b, s[1..], ids, n);
      SameExpandedToken(a, b, s[0], ids, n);
    }
  }

  lemma {:induction false} SameExpandedToken(a: Items, b: Items, t: Token, ids: set<Id>, n: nat)
    requires AgreeOn(a, b, ids) && (IsKnown(a, t) ==> t.id in ids)
    ensures ExpandedToken(a, t, n) == ExpandedToken(b, t, n)
    decreases n, 0
  {
    assert IsKnown(a, t) <==> IsKnown(b, t);
    if n > 0 && IsKnown(a, t) && a[t.id].Some? {
      SameExpansion(a, b, a[t.id].value, ids, n - 1);
    }
  }

  lemma {:induction false} NeedsClosed(lines: seq<Line>, a: Items, l: Line, rank: Id -> nat, needs: Id -> set<Id>)
    requires Ordered(lines, rank, needs) && Shaped(lines, a) && l in lines
    ensures RefsIn(a, l.props, needs(l.id))
    ensures forall id :: id in needs(l.id) && id in a && a[id].Some? ==> RefsIn(a, a[id].value, needs(l.id))
  {
    forall t | t in l.props && IsKnown(a, t) ensures t.id in needs(l.id) {
      assert RefersTo(lines, l.props, t);
    }
    forall id, t | id in needs(l.id) && id in a && a[id].Some? && t in a[id].value && IsKnown(a, t)
      ensures t.id in needs(l.id)
    {
      var k :| k in lines && k.id == id && KindRefs(a, k);
      assert RefersTo(lines, k.kind, t);
    }
  }

  lemma {:induction false} SameVirtId(lines: seq<Line>, a: Items, b: Items, rank: Id -> nat, needs: Id -> set<Id>, l: Line)
    requires Ordered(lines, rank, needs) && IsResolution(lines, a) && IsResolution(lines, b) && l in lines
    ensures a[l.id] == b[l.id]
    decreases rank(l.id)
  {
    var ids := needs(l.id);
    ResolutionShaped(lines, a);
    NeedsClosed(lines, a, l, rank, needs);
    forall id | id in ids && id in a ensures a[id] == b[id] {
      var k :| k in lines && k.id == id;
      SameVirtId(lines, a, b, rank, needs, k);
    }
    assert Solved(a, l) && Solved(b, l);
    SameSolution(a, b, l, ids);
  }

  lemma {:induction false} SameSolution(a: Items, b: Items, l: Line, ids: set<Id>)
    requires AgreeOn(a, b, ids) && RefsIn(a, l.props, ids) && Solved(a, l) && Solved(b, l)
    ensures a[l.id] == b[l.id]
  {
    var x :| Expands(a, l.props, x) && a[l.id].value == Wrap(l.kind, x);
    var y :| Expands(b, l.props, y) && b[l.id].value == Wrap(l.kind, y);
    var n: nat :| Expanded(b, l.props, n) == y;
    SameExpansion(a, b, l.props, ids, n);
    assert Expands(a, l.props, y);
    ExpandsUnique(a, l.props, x, y);
  }

  /** The equations have at most one solution: each virtual ID is the full expansion of its line. */
  lemma {:induction false} OneResolution(lines: seq<Line>, a: Items, b: Items)
    requires IsResolution(lines, a) && IsResolution(lines, b)
    ensures a == b
  {
    ResolutionAcyclic(lines, a);
    var rank: Id -> nat, needs: Id -> set<Id> :| Ordered(lines, rank, needs);
    forall id | id in a ensures a[id] == b[id] {
      var l :| l in lines && l.id == id;
      SameVirtId(lines, a, b, rank, needs, l);
    }
  }

  // ----- the order of the lines does not matter -----

  lemma {:induction false} SameMembers(s: seq<Line>, t: seq<Line>)
    requires multiset(s) == multiset(t)
    ensures (forall l :: l in s <==> l in t) && Ids(s) == Ids(t)
  {
    forall l ensures l in s <==> l in t {
      assert l in s <==> l in multiset(s);
      assert l in t <==> l in multiset(t);
    }
  }

  lemma {:induction false} OrderIndependent(lines: seq<Line>, lines': seq<Line>, a: Items, b: Items)
    requires multiset(lines) == multiset(lines') && IsResolution(lines, a) && IsResolution(lines', b)
    ensures a == b
  {
    SameMembers(lines, lines');
    OneResolution(lines, a, b);
  }

  lemma {:induction false} SameConditions(lines: seq<Line>, lines': seq<Line>)
    requires multiset(lines) == multiset(lines')
    ensures Resolvable(lines) ==> Resolvable(lines')
    ensures KindsTame(lines) ==> KindsTame(lines')
  {
    SameMembers(lines, lines');
    if ids: set<Id>, rank: Id -> nat :| KindsRanked(lines, ids, rank) {
      SameRanked(lines, lines', ids, rank);
    }
    if rank: Id -> nat, needs: Id -> set<Id> :| Ordered(lines, rank, needs) {
      SameOrdered(lines, lines', rank, needs);
    }
  }

  lemma {:induction false} SameRanked(lines: seq<Line>, lines': seq<Line>, ids: set<Id>, rank: Id -> nat)
    requires (forall l :: l in lines <==> l in lines') && Ids(lines) == Ids(lines') && KindsRanked(lines, ids, rank)
    ensures KindsRanked(lines', ids, rank)
  {
    forall l, t | l in lines' && RefersTo(lines', l.props, t) ensures t.id in ids {
      assert RefersTo(lines, l.props, t);
    }
    forall l, t | l in lines' && l.id in ids && RefersTo(lines', l.kind, t) ensures t.id in ids && rank(t.id) < rank(l.id) {
      assert RefersTo(lines, l.kind, t);
    }
  }

  lemma {:induction false} SameOrdered(lines: seq<Line>, lines': seq<Line>, rank: Id -> nat, needs: Id -> set<Id>)
    requires (forall l :: l in lines <==> l in lines') && Ids(lines) == Ids(lines') && Ordered(lines, rank, needs)
    ensures Ordered(lines', rank, needs)
  {
    forall l, t | l in lines' && RefersTo(lines', l.props, t) ensures t.id in needs(l.id) {
      assert RefersTo(lines, l.props, t);
    }
    forall l, k, t | l in lines' && k in lines' && k.id in needs(l.id) && RefersTo(lines', k.kind, t)
      ensures t.id in needs(l.id)
    {
      assert RefersTo(lines, k.kind, t);
    }
  }

  /** Nor does it for whether the reading succeeds. */
  lemma {:induction false} OrderIndependentSuccess(lines: seq<Line>, lines': seq<Line>)
    requires multiset(lines) == multiset(lines')
    ensures Resolvable(lines) <==> Resolvable(lines')
    ensures KindsTame(lines) <==> KindsTame(lines')
  {
    SameConditions(lines, lines');
    SameConditions(lines', lines);
  }

  // ----- consistent renaming -----

  function RenamedToken(f: Id -> Id, t: Token): Token {
    if t.Ref? then Ref(f(t.id)) else t
  }

  function RenamedText(f: Id -> Id, s: seq<Token>): (r: seq<Token>)
    ensures |r| == |s|
  {
    seq(|s|, i requires 0 <= i < |s| => RenamedToken(f, s[i]))
  }

  function RenamedLine(f: Id -> Id, l: Line): Line {
    Line(RenamedText(f, l.kind), l.frame, f(l.id), RenamedText(f, l.props))
  }

  function Renamed(f: Id -> Id, lines: seq<Line>): (r: seq<Line>)
    ensures |r| == |lines|
  {
    seq(|lines|, i requires 0 <= i < |lines| => RenamedLine(f, lines[i]))
  }

  ghost predicate Injective(f: Id -> Id) {
    forall x, y :: f(x) == f(y) ==> x == y
  }

  function RenamedValue(f: Id -> Id, v: Option<VirtId>): Option<VirtId> {
    if v.None? then None else Some(RenamedText(f, v.value))
  }

  /** The table with its keys and its virtual IDs renamed. */
  ghost function RenamedItems(f: Id -> Id, items: Items): Items
    requires Injective(f)
  {
    map id | id in items :: f(id) := RenamedValue(f, items[id])
  }

  lemma {:induction false} RenamedKeys(f: Id -> Id, items: Items)
    requires Injective(f)
    ensures forall id :: id in items <==> f(id) in RenamedItems(f, items)
    ensures forall id :: id in items ==> RenamedItems(f, items)[f(id)] == RenamedValue(f, items[id])
  {}

  lemma {:induction false} RenamedAppend(f: Id -> Id, s: seq<Token>, t: seq<Token>)
    ensures RenamedText(f, s + t) == RenamedText(f, s) + RenamedText(f, t)
  {}

  lemma {:induction false} RenamedFinal(f: Id -> Id, items: Items, s: seq<Token>)
    requires Injective(f) && Final(items.Keys, s)
    ensures Final(RenamedItems(f, items).Keys, RenamedText(f, s))
  {
    RenamedKeys(f, items);
    var r := RenamedText(f, s);
    forall t | t in r && t.Ref? ensures t.id !in RenamedItems(f, items).Keys {
      var i :| 0 <= i < |r| && r[i] == t;
      assert s[i] in s;
    }
  }

  lemma {:induction false} RenamedExpanded(f: Id -> Id, items: Items, s: seq<Token>, n: nat)
    requires Injective(f)
    ensures Expanded(RenamedItems(f, items), RenamedText(f, s), n) == RenamedText(f, Expanded(items, s, n))
    decreases n, |s| + 1
  {
    if s != [] {
      var r := RenamedText(f, s);
      assert r[1..] == RenamedText(f, s[1..]) && r[0] == RenamedToken(f, s[0]);
      RenamedExpanded(f, items, s[1..], n);
      RenamedExpansion(f, items, s[0], n);
      RenamedAppend(f, ExpandedToken(items, s[0], n), Expanded(items, s[1..], n));
    }
  }

  lemma {:induction false} RenamedExpansion(f: Id -> Id, items: Items, t: Token, n: nat)
    requires Injective(f)
    ensures ExpandedToken(RenamedItems(f, items), RenamedToken(f, t), n) == RenamedText(f, ExpandedToken(items, t, n))
    decreases n, 0
  {
    RenamedKnown(f, items, t);
    if n > 0 && IsKnown(items, t) && items[t.id].Some? {
      RenamedExpanded(f, items, items[t.id].value, n - 1);
    } else {
      assert [RenamedToken(f, t)] == RenamedText(f, [t]);
    }
  }

  lemma {:induction false} RenamedKnown(f: Id -> Id, items: Items, t: Token)
    requires Injective(f)
    ensures IsKnown(items, t) <==> IsKnown(RenamedItems(f, items), RenamedToken(f, t))
    ensures IsKnown(items, t) ==> RenamedItems(f, items)[f(t.id)] == RenamedValue(f, items[t.id])
  {
    RenamedKeys(f, items);
  }

  lemma {:induction false} RenamedSolved(f: Id -> Id, items: Items, l: Line)
    requires Injective(f) && Solved(items, l)
    ensures Solved(RenamedItems(f, items), RenamedLine(f, l))
  {
    var x :| Expands(items, l.props, x) && items[l.id].value == Wrap(l.kind, x);
    var n: nat :| Expanded(items, l.props, n) == x;
    RenamedExpanded(f, items, l.props, n);
    RenamedFinal(f, items, x);
    RenamedKeys(f, items);
    RenamedWrap(f, l.kind, x);
    assert Expands(RenamedItems(f, items), RenamedText(f, l.props), RenamedText(f, x));
  }

  lemma {:induction false} RenamedWrap(f: Id -> Id, kind: seq<Token>, x: seq<Token>)
    ensures RenamedText(f, Wrap(kind, x)) == Wrap(RenamedText(f, kind), RenamedText(f, x))
  {}

  lemma {:induction false} RenamedIds(f: Id -> Id, lines: seq<Line>)
    ensures Ids(Renamed(f, lines)) == set id | id in Ids(lines) :: f(id)
  {
    var lines' := Renamed(f, lines);
    forall id | id in Ids(lines) ensures f(id) in Ids(lines') {
      var l :| l in lines && l.id == id;
      var i :| 0 <= i < |lines| && lines[i] == l;
      assert lines'[i].id == f(id);
    }
    forall l | l in lines' ensures exists id :: id in Ids(lines) && f(id) == l.id {
      var i :| 0 <= i < |lines'| && lines'[i] == l;
      assert lines[i].id in Ids(lines);
    }
  }

  /** A file with consistently renamed IDs has the renamed virtual IDs, and no others. */
  lemma {:induction false} RenamingEquivariant(f: Id -> Id, lines: seq<Line>, items: Items)
    requires Injective(f) && IsResolution(lines, items)
    ensures IsResolution(Renamed(f, lines), RenamedItems(f, items))
    ensures Acyclic(Renamed(f, lines)) && KindsTame(Renamed(f, lines))
    ensures forall b :: IsResolution(Renamed(f, lines), b) ==> b == RenamedItems(f, items)
  {
    var (lines', items') := (Renamed(f, lines), RenamedItems(f, items));
    RenamedIds(f, lines);
    assert items'.Keys == Ids(lines');
    forall l | l in lines' ensures Solved(items', l) {
      var i :| 0 <= i < |lines'| && lines'[i] == l;
      RenamedSolved(f, items, lines[i]);
    }
    ResolutionAcyclic(lines', items');
    ResolutionKinds(lines', items');
    forall b | IsResolution(lines', b) ensures b == items' { OneResolution(lines', b, items'); }
  }

  /** No text refers to an ID that is not in the file. */
  ghost predicate AllKnown(items: Items, s: seq<Token>) {
    forall t :: t in s && t.Ref? ==> t.id in items
  }

  ghost predicate NoRefs(s: seq<Token>) {
    forall t :: t in s ==> t.Text?
  }

  /**
    When all IDs in properties are IDs of the file, and kinds contain none at all, renaming changes
    nothing: the virtual IDs are free of IDs.
  */
  lemma {:induction false} RenamingInvariant(f: Id -> Id, lines: seq<Line>, items: Items, b: Items)
    requires Injective(f) && IsResolution(lines, items) && IsResolution(Renamed(f, lines), b)
    requires forall l :: l in lines ==> NoRefs(l.kind) && AllKnown(items, l.props)
    ensures forall l :: l in lines ==> f(l.id) in b && b[f(l.id)] == items[l.id]
  {
    RenamingEquivariant(f, lines, items);
    ResolutionAcyclic(lines, items);
    var rank: Id -> nat, needs: Id -> set<Id> :| Ordered(lines, rank, needs);
    forall l | l in lines ensures f(l.id) in b && b[f(l.id)] == items[l.id] {
      ValueNoRefs(lines, items, rank, needs, l);
      SameValue(f, items, l.id);
    }
  }

  lemma {:induction false} SameValue(f: Id -> Id, items: Items, id: Id)
    requires Injective(f) && id in items && items[id].Some? && NoRefs(items[id].value)
    ensures f(id) in RenamedItems(f, items) && RenamedItems(f, items)[f(id)] == items[id]
  {
    RenamedKeys(f, items);
    var v := items[id].value;
    assert RenamedText(f, v) == v by {
      forall i | 0 <= i < |v| ensures RenamedText(f, v)[i] == v[i] { assert v[i] in v; }
    }
  }

  lemma {:induction false} PlainExpanded(items: Items, s: seq<Token>, n: nat)
    requires NoRefs(s)
    ensures Expanded(items, s, n) == s
  {
    if s != [] {
      assert s[0] in s && forall t :: t in s[1..] ==> t in s;
      PlainExpanded(items, s[1..], n);
      assert s == [s[0]] + s[1..];
    }
  }

  lemma {:induction false} ExpandedKnown(items: Items, s: seq<Token>, ids: set<Id>, n: nat)
    requires AllKnown(items, s) && RefsIn(items, s, ids)
    requires forall id :: id in ids && id in items && items[id].Some? ==> NoRefs(items[id].value)
    ensures AllKnown(items, Expanded(items, s, n))
  {
    if s != [] {
      assert s[0] in s && forall t :: t in s[1..] ==> t in s;
      ExpandedKnown(items, s[1..], ids, n);
      if n > 0 && IsKnown(items, s[0]) && items[s[0].id].Some? {
        PlainExpanded(items, items[s[0].id].value, n - 1);
      }
    }
  }

  lemma {:induction false} ValueNoRefs(lines: seq<Line>, items: Items, rank: Id -> nat, needs: Id -> set<Id>, l: Line)
    requires Ordered(lines, rank, needs) && IsResolution(lines, items) && l in lines
    requires forall l :: l in lines ==> NoRefs(l.kind) && AllKnown(items, l.props)
    ensures Solved(items, l) && NoRefs(items[l.id].value)
    decreases rank(l.id)
  {
    var ids := needs(l.id);
    ResolutionShaped(lines, items);
    NeedsClosed(lines, items, l, rank, needs);
    forall id | id in ids && id in items ensures items[id].Some? && NoRefs(items[id].value) {
      var k :| k in lines && k.id == id;
      ValueNoRefs(lines, items, rank, needs, k);
    }
    assert Solved(items, l);
    var x :| Expands(items, l.props, x) && items[l.id].value == Wrap(l.kind, x);
    var n: nat :| Expanded(items, l.props, n) == x;
    ExpandedKnown(items, l.props, ids, n);
    forall t | t in items[l.id].value ensures t.Text? { WrapTokens(l.kind, x, t); }
  }

  // ----- the resolution rounds -----

  /**
    All lines are settled (and found in the map done under their ID) or still to do; settled lines
    have their virtual IDs, found at the given times, and what they need was found earlier.
  */
  ghost predicate State(lines: seq<Line>, done: map<Id, Line>, todo: multiset<Line>, items: Items, time: map<Id, nat>,
                        needs: map<Id, set<Id>>, now: nat) {
    && multiset(lines) == multiset(done.Values) + todo && items.Keys == Ids(lines)
    && time.Keys == done.Keys == needs.Keys
    && (forall id :: id in items ==> (items[id].Some? <==> id in time))
    && AllSettled(done, items, time, needs, now)
  }

  ghost predicate AllSettled(done: map<Id, Line>, items: Items, time: map<Id, nat>, needs: map<Id, set<Id>>, now: nat)
    requires time.Keys == done.Keys == needs.Keys
  {
    forall id :: id in done ==> Settled(items, time, needs[id], done[id]) && done[id].id == id && time[id] < now
  }

  /** A line with a virtual ID, found after those of all lines that it needs. */
  ghost predicate Settled(items: Items, time: map<Id, nat>, need: set<Id>, l: Line) {
    && l.frame == "0" && Solved(items, l) && l.id in time && RefsIn(items, l.props, need)
    && (forall b :: b in need ==> b in time && time[b] < time[l.id])
    && forall b :: b in need && b in items && items[b].Some? ==> RefsIn(items, items[b].value, need)
  }

  lemma {:induction false} MemberOf(lines: seq<Line>, l: Line)
    ensures l in lines <==> l in multiset(lines)
  {}

  /** A new virtual ID changes no full expansion. */
  lemma {:induction false} SameWithNew(items: Items, id: Id, v: VirtId, s: seq<Token>, n: nat)
    requires id in items && items[id].None? && Final(items.Keys, Expanded(items, s, n))
    ensures items[id := Some(v)].Keys == items.Keys && Expanded(items[id := Some(v)], s, n) == Expanded(items, s, n)
    decreases n, |s|
  {
    var items' := items[id := Some(v)];
    assert items'.Keys == items.Keys;
    if s != [] {
      FinalParts(items.Keys, ExpandedToken(items, s[0], n), Expanded(items, s[1..], n));
      SameWithNew(items, id, v, s[1..], n);
      if IsKnown(items, s[0]) {
        KnownFinal(items, s[0], n);
        SameWithNew(items, id, v, items[s[0].id].value, n - 1);
      }
    }
  }

  lemma {:induction false} StaysSolved(items: Items, id: Id, v: VirtId, l: Line)
    requires Solved(items, l) && id in items && items[id].None?
    ensures Solved(items[id := Some(v)], l) && items[id := Some(v)].Keys == items.Keys
  {
    var x :| Expands(items, l.props, x) && items[l.id].value == Wrap(l.kind, x);
    var n: nat :| Expanded(items, l.props, n) == x;
    SameWithNew(items, id, v, l.props, n);
    assert Expands(items[id := Some(v)], l.props, x);
  }

  lemma {:induction false} NowSolved(items: Items, l: Line, x: seq<Token>)
    requires l.id in items && items[l.id].None? && Expands(items, l.props, x)
    ensures Solved(items[l.id := Some(Wrap(l.kind, x))], l)
  {
    var n: nat :| Expanded(items, l.props, n) == x;
    SameWithNew(items, l.id, Wrap(l.kind, x), l.props, n);
    assert Expands(items[l.id := Some(Wrap(l.kind, x))], l.props, x);
  }

  lemma {:induction false} StaysSettled(items: Items, time: map<Id, nat>, now: nat, need: set<Id>, k: Line, id: Id, v: VirtId)
    requires Settled(items, time, need, k) && id in items && id !in time
    requires forall x :: x in items ==> (items[x].Some? <==> x in time)
    ensures Settled(items[id := Some(v)], time[id := now], need, k)
  {
    StaysSolved(items, id, v, k);
  }

  /** The needs of a line that can be resolved. */
  lemma {:induction false} FindNeeds(items: Items, s: seq<Token>) returns (need: set<Id>)
    requires CanExpand(items, s)
    ensures RefsIn(items, s, need) && AllSome(items, need)
    ensures forall b :: b in need ==> RefsIn(items, items[b].value, need)
  {
    CanExpandIff(items, s);
    var ids: set<Id>, rank: Id -> nat :| Grounded(items, s, ids, rank);
    need := ids;
  }

  lemma {:induction false} AddValue(done: map<Id, Line>, todo: multiset<Line>, l: Line)
    requires l.id !in done && l in todo && forall id :: id in done ==> done[id].id == id
    ensures multiset(done[l.id := l].Values) + (todo - multiset{l}) == multiset(done.Values) + todo
  {
    var done' := done[l.id := l];
    assert done'[l.id] == l;
    assert done'.Values == done.Values + {l} by {
      forall k | k in done.Values ensures k in done'.Values { assert done'[k.id] == k; }
    }
    assert l !in done.Values;
    assert multiset(done'.Values) == multiset(done.Values) + multiset{l};
  }

  lemma {:induction false} Settle(lines: seq<Line>, done: map<Id, Line>, todo: multiset<Line>, items: Items,
                                  time: map<Id, nat>, needs: map<Id, set<Id>>, now: nat, l: Line, x: seq<Token>)
    returns (need: set<Id>)
    requires State(lines, done, todo, items, time, needs, now) && l in todo && l.frame == "0"
    requires l.id in items && items[l.id].None? && Expands(items, l.props, x)
    ensures State(lines, done[l.id := l], todo - multiset{l}, items[l.id := Some(Wrap(l.kind, x))], time[l.id := now],
                  needs[l.id := need], now + 1)
  {
    need := FindNeeds(items, l.props);
    AddValue(done, todo, l);
    NowSettled(items, time, now, need, l, x);
    OthersSettled(lines, done, todo, items, time, needs, now, l.id, Wrap(l.kind, x));
    MoreSettled(done, items[l.id := Some(Wrap(l.kind, x))], time, needs, now, l, need);
    assert items[l.id := Some(Wrap(l.kind, x))].Keys == items.Keys;
  }

  lemma {:induction false} MoreSettled(done: map<Id, Line>, items: Items, time: map<Id, nat>, needs: map<Id, set<Id>>,
                                       now: nat, l: Line, need: set<Id>)
    requires time.Keys == done.Keys == needs.Keys && l.id !in done && Settled(items, time[l.id := now], need, l)
    requires forall a :: a in done ==> Settled(items, time[l.id := now], needs[a], done[a])
    requires forall a :: a in done ==> done[a].id == a && time[a] < now
    ensures time[l.id := now].Keys == done[l.id := l].Keys == needs[l.id := need].Keys
    ensures AllSettled(done[l.id := l], items, time[l.id := now], needs[l.id := need], now + 1)
  {}

  lemma {:induction false} NowSettled(items: Items, time: map<Id, nat>, now: nat, need: set<Id>, l: Line, x: seq<Token>)
    requires l.frame == "0" && l.id in items && items[l.id].None? && Expands(items, l.props, x)
    requires forall id :: id in items ==> (items[id].Some? <==> id in time)
    requires forall id :: id in time ==> time[id] < now
    requires RefsIn(items, l.props, need) && AllSome(items, need)
    requires forall b :: b in need ==> RefsIn(items, items[b].value, need)
    ensures Settled(items[l.id := Some(Wrap(l.kind, x))], time[l.id := now], need, l)
  {
    NowSolved(items, l, x);
    assert items[l.id := Some(Wrap(l.kind, x))].Keys == items.Keys;
  }

  lemma {:induction false} OthersSettled(lines: seq<Line>, done: map<Id, Line>, todo: multiset<Line>, items: Items,
                                         time: map<Id, nat>, needs: map<Id, set<Id>>, now: nat, id: Id, v: VirtId)
    requires State(lines, done, todo, items, time, needs, now) && id in items && items[id].None?
    ensures forall a :: a in done ==> Settled(items[id := Some(v)], time[id := now], needs[a], done[a])
  {
    forall a | a in done ensures Settled(items[id := Some(v)], time[id := now], needs[a], done[a]) {
      StaysSettled(items, time, now, needs[a], done[a], id, v);
    }
  }

  lemma {:induction false} DoneMember(lines: seq<Line>, done: map<Id, Line>, todo: multiset<Line>, items: Items,
                                      time: map<Id, nat>, needs: map<Id, set<Id>>, now: nat, id: Id)
    requires State(lines, done, todo, items, time, needs, now) && id in done
    ensures done[id] in lines
  {
    assert done[id] in done.Values;
    MemberOf(lines, done[id]);
  }

  lemma {:induction false} StateShaped(lines: seq<Line>, done: map<Id, Line>, todo: multiset<Line>, items: Items,
                                       time: map<Id, nat>, needs: map<Id, set<Id>>, now: nat)
    requires State(lines, done, todo, items, time, needs, now)
    ensures Shaped(lines, items)
  {
    forall id | id in items && items[id].Some? ensures exists l :: l in lines && l.id == id && KindRefs(items, l) {
      DoneMember(lines, done, todo, items, time, needs, now, id);
      assert Solved(items, done[id]);
      forall t | t in items[id].value && IsKnown(items, t) ensures t in done[id].kind {
        SolvedRefs(items, done[id], t);
      }
      assert KindRefs(items, done[id]);
    }
  }

  /** The error for a repeated ID is raised only for one. */
  lemma {:induction false} Duplicate(lines: seq<Line>, done: map<Id, Line>, todo: multiset<Line>, items: Items,
                                     time: map<Id, nat>, needs: map<Id, set<Id>>, now: nat, l: Line)
    requires State(lines, done, todo, items, time, needs, now) && l in todo && l.id in items && items[l.id].Some?
    ensures !DistinctIds(lines)
  {
    var d := done[l.id];
    assert d in done.Values;
    MemberOf(lines, l);
    MemberOf(lines, d);
    assert multiset(lines)[l] == multiset(done.Values)[l] + todo[l];
  }

  lemma {:induction false} IsDone(lines: seq<Line>, done: map<Id, Line>, items: Items, time: map<Id, nat>,
                                  needs: map<Id, set<Id>>, now: nat, l: Line)
    requires State(lines, done, multiset{}, items, time, needs, now) && l in lines
    ensures l.id in done && done[l.id] == l && Settled(items, time, needs[l.id], l) && multiset(lines)[l] == 1
  {
    MemberOf(lines, l);
    assert l in done.Values;
  }

  /** When all lines are settled, the equations hold and there was no cycle. */
  lemma {:induction false} AllDone(lines: seq<Line>, done: map<Id, Line>, items: Items, time: map<Id, nat>,
                                   needs: map<Id, set<Id>>, now: nat)
    requires State(lines, done, multiset{}, items, time, needs, now)
    ensures Resolvable(lines) && IsResolution(lines, items) && AllResolved(items)
  {
    forall l | l in lines
      ensures l.id in done && done[l.id] == l && Settled(items, time, needs[l.id], l) && multiset(lines)[l] == 1
    {
      IsDone(lines, done, items, time, needs, now, l);
    }
    ResolutionShaped(lines, items);
    ResolutionAcyclic(lines, items);
  }

  /** A line of the lowest rank: nothing that it needs is still to do. */
  lemma {:induction false} LowestRank(todo: seq<Line>, rank: Id -> nat) returns (l: Line)
    requires todo != []
    ensures l in todo && forall k :: k in todo ==> rank(l.id) <= rank(k.id)
  {
    if |todo| == 1 {
      l := todo[0];
    } else {
      l := LowestRank(todo[1..], rank);
      assert forall k :: k in todo ==> k == todo[0] || k in todo[1..];
      if rank(todo[0].id) < rank(l.id) { l := todo[0]; }
    }
  }

  lemma {:induction false} StillToDo(lines: seq<Line>, done: map<Id, Line>, todo: multiset<Line>, items: Items,
                                     time: map<Id, nat>, needs: map<Id, set<Id>>, now: nat, id: Id) returns (k: Line)
    requires State(lines, done, todo, items, time, needs, now) && id in items && items[id].None?
    ensures k in todo && k in lines && k.id == id
  {
    k :| k in lines && k.id == id;
    MemberOf(lines, k);
    assert id !in time;
    forall a | a in done ensures done[a] != k { assert done[a].id == a; }
    assert k !in done.Values;
  }

  /** A round without progress means that the references have a cycle. */
  lemma {:induction false} NoProgress(lines: seq<Line>, done: map<Id, Line>, todo: seq<Line>, items: Items,
                                      time: map<Id, nat>, needs: map<Id, set<Id>>, now: nat)
    requires State(lines, done, multiset(todo), items, time, needs, now) && todo != [] && KindsTame(lines)
    requires forall l :: l in todo ==> !CanExpand(items, l.props)
    ensures !Acyclic(lines)
  {
    StateShaped(lines, done, multiset(todo), items, time, needs, now);
    forall rank: Id -> nat, need: Id -> set<Id> ensures !Ordered(lines, rank, need) {
      if Ordered(lines, rank, need) {
        var l := LowestRank(todo, rank);
        MemberOf(todo, l);
        MemberOf(lines, l);
        forall b | b in need(l.id) && b in items ensures items[b].Some? {
          if items[b].None? {
            var k := StillToDo(lines, done, multiset(todo), items, time, needs, now, b);
            MemberOf(todo, k);
          }
        }
        NeededResolved(lines, items, l, rank, need);
      }
    }
  }

  /** When all that a line needs is resolved, its properties can be expanded. */
  lemma {:induction false} NeededResolved(lines: seq<Line>, items: Items, l: Line, rank: Id -> nat, need: Id -> set<Id>)
    requires Ordered(lines, rank, need) && Shaped(lines, items) && l in lines && KindsTame(lines)
    requires forall b :: b in need(l.id) && b in items ==> items[b].Some?
    ensures CanExpand(items, l.props)
  {
    var ids: set<Id>, depth: Id -> nat :| KindsRanked(lines, ids, depth);
    KindsBounded(lines, items, ids, depth);
    NeedsClosed(lines, items, l, rank, need);
    var both := set b | b in ids && b in need(l.id) && b in items;
    forall t | t in l.props && IsKnown(items, t) ensures t.id in both {
      assert RefersTo(lines, l.props, t);
    }
    assert Bounded(items, both, depth);
    assert Grounded(items, l.props, both, depth);
    CanExpandIff(items, l.props);
  }

  /** The attempt to get the virtual ID of one line. */
  method Attempt(lines: seq<Line>, l: Line, items0: Items, ghost todo: multiset<Line>, ghost done0: map<Id, Line>,
                 ghost time0: map<Id, nat>, ghost needs0: map<Id, set<Id>>, ghost now0: nat)
    returns (error: Option<LogError>, found: bool, items: Items,
             ghost done: map<Id, Line>, ghost time: map<Id, nat>, ghost needs: map<Id, set<Id>>, ghost now: nat)
    requires State(lines, done0, todo, items0, time0, needs0, now0) && l in todo && KindsTame(lines)
    ensures error.None? && found ==> State(lines, done, todo - multiset{l}, items, time, needs, now)
    ensures error.None? && !found ==> State(lines, done, todo, items, time, needs, now) && items == items0
    ensures error.None? && !found ==> !CanExpand(items, l.props)
    ensures error.Some? ==> error.value.NonZeroFrame? || error.value.DuplicateId?
    ensures error == Some(NonZeroFrame) ==> !FramesZero(lines)
    ensures error == Some(DuplicateId) ==> !DistinctIds(lines)
  {
    error, found, items, done, time, needs, now := None, false, items0, done0, time0, needs0, now0;
    MemberOf(lines, l);
    if l.frame != "0" {
      error := Some(NonZeroFrame);
    } else if items[l.id].Some? {
      Duplicate(lines, done, todo, items, time, needs, now, l);
      error := Some(DuplicateId);
    } else {
      StateShaped(lines, done, todo, items, time, needs, now);
      TameItems(lines, items, l);
      var virtObjId := GetVirtId(items, l.kind, l.props);
      if virtObjId.Some? {
        ghost var x :| Expands(items, l.props, x) && virtObjId.value == Wrap(l.kind, x);
        ghost var need := Settle(lines, done, todo, items, time, needs, now, l, x);
        found, items := true, items[l.id := virtObjId];
        done, time, needs, now := done[l.id := l], time[l.id := now], needs[l.id := need], now + 1;
      }
    }
  }

  /** One round over the unprocessed lines. */
  method Round(lines: seq<Line>, unprocessed: seq<Line>, items0: Items, ghost done0: map<Id, Line>,
               ghost time0: map<Id, nat>, ghost needs0: map<Id, set<Id>>, ghost now0: nat)
    returns (error: Option<LogError>, remaining: seq<Line>, items: Items,
             ghost done: map<Id, Line>, ghost time: map<Id, nat>, ghost needs: map<Id, set<Id>>, ghost now: nat)
    requires State(lines, done0, multiset(unprocessed), items0, time0, needs0, now0) && KindsTame(lines)
    ensures error.None? ==> State(lines, done, multiset(remaining), items, time, needs, now)
    ensures error.None? && |remaining| >= |unprocessed| ==> forall l :: l in remaining ==> !CanExpand(items, l.props)
    ensures error.Some? ==> error.value.NonZeroFrame? || error.value.DuplicateId?
    ensures error == Some(NonZeroFrame) ==> !FramesZero(lines)
    ensures error == Some(DuplicateId) ==> !DistinctIds(lines)
  {
    remaining, items, done, time, needs, now := [], items0, done0, time0, needs0, now0;
    ghost var todo := multiset(unprocessed);
    for i := 0 to |unprocessed|
      invariant State(lines, done, todo, items, time, needs, now)
      invariant todo == multiset(remaining) + multiset(unprocessed[i..])
      invariant |remaining| <= i && (|remaining| == i ==> items == items0)
      invariant |remaining| == i ==> forall l :: l in remaining ==> !CanExpand(items0, l.props)
    {
      var l := unprocessed[i];
      TakeLine(remaining, unprocessed, i);
      var found;
      error, found, items, done, time, needs, now := Attempt(lines, l, items, todo, done, time, needs, now);
      if error.Some? {
        return;
      }
      if found {
        todo := todo - multiset{l};
      } else {
        remaining := remaining + [l];
      }
    }
    assert todo == multiset(remaining);
    error := None;
  }

  lemma {:induction false} TakeLine(remaining: seq<Line>, unprocessed: seq<Line>, i: nat)
    requires i < |unprocessed|
    ensures var (l, todo) := (unprocessed[i], multiset(remaining) + multiset(unprocessed[i..]));
            && l in todo && todo == multiset(remaining + [l]) + multiset(unprocessed[i + 1..])
            && todo - multiset{l} == multiset(remaining) + multiset(unprocessed[i + 1..])
  {
    assert unprocessed[i..] == [unprocessed[i]] + unprocessed[i + 1..];
  }

  /**
    The virtual IDs of a file, if no cycle of IDs in kinds can be reached (otherwise a scan may not
    end). It succeeds exactly for lines of frame zero with distinct IDs whose references have no
    cycle, and the error says which of these fails.
  */
  method Resolve(lines: seq<Line>) returns (result: Result<Items, LogError>)
    requires KindsTame(lines)
    ensures result.Ok? <==> Resolvable(lines)
    ensures result.Ok? ==> IsResolution(lines, result.value) && AllResolved(result.value)
    ensures result.Ok? ==> forall l :: l in lines ==> l.id in result.value && exists x ::
      && Expands(result.value, l.props, x)
      && result.value[l.id] == Some(Characters("{") + l.kind + Characters("=>") + x + Characters("}"))
    ensures result == Err(NonZeroFrame) ==> !FramesZero(lines)
    ensures result == Err(DuplicateId) ==> !DistinctIds(lines)
    ensures result == Err(InfiniteLoop) ==> !Acyclic(lines)
    ensures result != Err(DuplicateKey)
  {
    var items: Items := map l | l in lines :: l.id := None;
    var unprocessed := lines;
    ghost var done: map<Id, Line>, time: map<Id, nat>, needs: map<Id, set<Id>>, now: nat := map[], map[], map[], 0;
    while unprocessed != []
      invariant State(lines, done, multiset(unprocessed), items, time, needs, now)
      decreases |unprocessed|
    {
      var error, remaining;
      error, remaining, items, done, time, needs, now := Round(lines, unprocessed, items, done, time, needs, now);
      if error.Some? {
        return Err(error.value);
      }
      if |remaining| >= |unprocessed| {
        NoProgress(lines, done, remaining, items, time, needs, now);
        return Err(InfiniteLoop);
      }
      unprocessed := remaining;
    }
    AllDone(lines, done, items, time, needs, now);
    forall l | l in lines
      ensures l.id in items && exists x ::
        && Expands(items, l.props, x)
        && items[l.id] == Some(Characters("{") + l.kind + Characters("=>") + x + Characters("}"))
    {
      assert Solved(items, l);
    }
    result := Ok(items);
  }

  /** A solution for two lines of different IDs. */
  lemma {:induction false} TwoResolvable(a: Line, b: Line, items: Items)
    requires a.id != b.id && a.frame == b.frame == "0" && items.Keys == {a.id, b.id}
    requires Solved(items, a) && Solved(items, b)
    ensures IsResolution([a, b], items) && Resolvable([a, b]) && KindsTame([a, b])
  {
    var lines := [a, b];
    assert lines[0] in lines && lines[1] in lines;
    assert Ids(lines) == {a.id, b.id};
    ResolutionAcyclic(lines, items);
    ResolutionKinds(lines, items);
    TwoDistinct(a, b);
  }

  /** A line whose properties are text. */
  lemma {:induction false} TextSolved(items: Items, l: Line, kind: string, props: string)
    requires l.kind == Characters(kind) && l.props == Characters(props)
    requires l.id in items && items[l.id] == Some(Characters("{" + kind + "=>" + props + "}"))
    ensures Solved(items, l)
  {
    ExpandedZero(items, l.props);
    assert Expands(items, l.props, l.props);
    WrapCharacters(kind, props);
  }

  /** A line whose properties are the ID of a line with text as its virtual ID. */
  lemma {:induction false} RefSolved(items: Items, l: Line, kind: string, id: Id, text: string)
    requires l.kind == Characters(kind) && l.props == [Ref(id)] && id in items && items[id] == Some(Characters(text))
    requires l.id in items && items[l.id] == Some(Characters("{" + kind + "=>" + text + "}"))
    ensures Solved(items, l)
  {
    ExpandedOne(items, Ref(id), 1);
    ExpandedZero(items, items[id].value);
    assert Expands(items, l.props, items[id].value);
    WrapCharacters(kind, text);
  }

  /** A line and one that refers to it, with their virtual IDs character by character. */
  method ResolveTwo() returns (items: Items)
    ensures items.Keys == {"0x1", "0x2"}
    ensures items["0x1"] == Some(Characters("{t=>a}")) && items["0x2"] == Some(Characters("{u=>{t=>a}}"))
  {
    var a := Line(Characters("t"), "0", "0x1", Characters("a"));
    var b := Line(Characters("u"), "0", "0x2", [Ref("0x1")]);
    ghost var (v, w) := (Characters("{t=>a}"), Characters("{u=>{t=>a}}"));
    ghost var expected: Items := map[a.id := Some(v), b.id := Some(w)];
    assert "{" + "t" + "=>" + "a" + "}" == "{t=>a}" && "{" + "u" + "=>" + "{t=>a}" + "}" == "{u=>{t=>a}}";
    TextSolved(expected, a, "t", "a");
    RefSolved(expected, b, "u", "0x1", "{t=>a}");
    TwoResolvable(a, b, expected);
    var result := Resolve([a, b]);
    items := result.value;
    OneResolution([a, b], items, expected);
  }

  /** Of two lines of one kind, the virtual IDs are equal if and only if the full expansions are. */
  lemma {:induction false} SameKind(items: Items, a: Line, b: Line, x: seq<Token>, y: seq<Token>)
    requires Solved(items, a) && Solved(items, b) && a.kind == b.kind
    requires Expands(items, a.props, x) && Expands(items, b.props, y)
    ensures items[a.id] == items[b.id] <==> x == y
  {
    var x' :| Expands(items, a.props, x') && items[a.id].value == Wrap(a.kind, x');
    var y' :| Expands(items, b.props, y') && items[b.id].value == Wrap(b.kind, y');
    ExpandsUnique(items, a.props, x, x');
    ExpandsUnique(items, b.props, y, y');
    WrapInjective(a.kind, x, y);
  }

  // ----- comparing two files -----

  /** The lines of the two files with one virtual ID; None stands for nil. */
  datatype ItemPair = ItemPair(origItem: Option<Id>, newItem: Option<Id>) {
    function Half(origFile: bool): (half: Option<Id>)
      ensures origFile ==> half == origItem
      ensures !origFile ==> half == newItem
    {
      if origFile then origItem else newItem
    }

    function Set(origFile: bool, id: Id): (pair: ItemPair)
      ensures origFile ==> pair.origItem == Some(id) && pair.newItem == newItem
      ensures !origFile ==> pair.newItem == Some(id) && pair.origItem == origItem
    {
      if origFile then ItemPair(Some(id), newItem) else ItemPair(origItem, Some(id))
    }
  }

  ghost predicate DistinctOn(items: Items, ids: set<Id>) {
    forall a, b :: a in ids && b in ids && a in items && b in items && items[a] == items[b] ==> a == b
  }

  ghost predicate DistinctVirtIds(items: Items) {
    DistinctOn(items, items.Keys)
  }

  /** What a pair holds after the given IDs of one file have been entered. */
  ghost predicate Entered(was: map<VirtId, ItemPair>, now: map<VirtId, ItemPair>, items: Items, ids: set<Id>, origFile: bool)
    requires ids <= items.Keys
  {
    && (forall id :: id in ids && items[id].Some? ==>
          items[id].value in now && now[items[id].value].Half(origFile) == Some(id))
    && (forall v :: v in now ==> (v in was || exists id :: id in ids && items[id] == Some(v)))
    && (forall v :: v in was ==> v in now)
    && (forall v :: v in now && now[v].Half(origFile).Some? ==>
          now[v].Half(origFile).value in ids && items[now[v].Half(origFile).value] == Some(v))
    && (forall v :: v in now ==>
          now[v].Half(!origFile) == if v in was then was[v].Half(!origFile) else None)
  }

  ghost predicate IsVirtId(items: Items, v: VirtId) {
    exists id :: id in items && items[id] == Some(v)
  }

  /** All lines of the original file have been entered as such, and nothing else has changed. */
  ghost predicate OrigEntered(was: map<VirtId, ItemPair>, now: map<VirtId, ItemPair>, items: Items) {
    && (forall v :: v in now <==> v in was || IsVirtId(items, v))
    && (forall v, id :: v in now ==> (now[v].origItem == Some(id) <==> id in items && items[id] == Some(v)))
    && (forall v :: v in now ==> now[v].newItem == if v in was then was[v].newItem else None)
  }

  /** The same for the new file. */
  ghost predicate NewEntered(was: map<VirtId, ItemPair>, now: map<VirtId, ItemPair>, items: Items) {
    && (forall v :: v in now <==> v in was || IsVirtId(items, v))
    && (forall v, id :: v in now ==> (now[v].newItem == Some(id) <==> id in items && items[id] == Some(v)))
    && (forall v :: v in now ==> now[v].origItem == if v in was then was[v].origItem else None)
  }

  lemma {:induction false} EnteredMeans(was: map<VirtId, ItemPair>, now: map<VirtId, ItemPair>, items: Items, origFile: bool)
    requires AllResolved(items) && Entered(was, now, items, items.Keys, origFile)
    ensures if origFile then OrigEntered(was, now, items) else NewEntered(was, now, items)
  {
    forall v
      ensures v in now <==> v in was || IsVirtId(items, v)
      ensures v in now ==> forall id :: now[v].Half(origFile) == Some(id) <==> id in items && items[id] == Some(v)
      ensures v in now ==> now[v].Half(!origFile) == if v in was then was[v].Half(!origFile) else None
    {}
  }

  class LogRes {
    var origItems: Items
    var newItems: Items
    var compareItems: map<VirtId, ItemPair>

    constructor ()
      ensures origItems == map[] && newItems == map[] && compareItems == map[]
    {
      origItems, newItems, compareItems := map[], map[], map[];
    }

    /** Enters one line; it is a duplicate if its half of the pair is taken. */
    method Enter(items: Items, id: Id, origFile: bool, ghost was: map<VirtId, ItemPair>, ghost done: set<Id>)
      returns (duplicate: bool)
      requires id in items && items[id].Some? && done <= items.Keys && id !in done
      requires Entered(was, compareItems, items, done, origFile) && DistinctOn(items, done)
      requires forall v :: v in was ==> was[v].Half(origFile).None?
      modifies this`compareItems
      ensures duplicate ==> !DistinctVirtIds(items)
      ensures !duplicate ==> Entered(was, compareItems, items, done + {id}, origFile) && DistinctOn(items, done + {id})
    {
      var virtId := items[id].value;
      var pair := if virtId in compareItems then compareItems[virtId] else ItemPair(None, None);
      duplicate := pair.Half(origFile).Some?;
      if duplicate {
        assert items[pair.Half(origFile).value] == items[id];
      } else {
        EnterOne(was, compareItems, items, done, id, origFile);
        StillDistinct(was, compareItems, items, done, id, origFile);
        compareItems := compareItems[virtId := pair.Set(origFile, id)];
      }
    }

    /** Enters one file; an error exactly if two of its lines have the same virtual ID. */
    method BuildHalf(items: Items, origFile: bool) returns (error: Option<LogError>)
      requires AllResolved(items)
      requires forall v :: v in compareItems ==> compareItems[v].Half(origFile).None?
      modifies this`compareItems
      ensures error == if DistinctVirtIds(items) then None else Some(DuplicateKey)
      ensures error.None? && origFile ==> OrigEntered(old(compareItems), compareItems, items)
      ensures error.None? && !origFile ==> NewEntered(old(compareItems), compareItems, items)
    {
      error := EnterAll(items, origFile);
      if error.None? {
        EnteredMeans(old(compareItems), compareItems, items, origFile);
      }
    }

    method EnterAll(items: Items, origFile: bool) returns (error: Option<LogError>)
      requires AllResolved(items)
      requires forall v :: v in compareItems ==> compareItems[v].Half(origFile).None?
      modifies this`compareItems
      ensures error == if DistinctVirtIds(items) then None else Some(DuplicateKey)
      ensures error.None? ==> Entered(old(compareItems), compareItems, items, items.Keys, origFile)
    {
      var todo := items.Keys;
      ghost var was, done: set<Id> := compareItems, {};
      while todo != {}
        invariant todo <= items.Keys && done == items.Keys - todo
        invariant Entered(was, compareItems, items, done, origFile) && DistinctOn(items, done)
        decreases |todo|
      {
        var id :| id in todo;
        var duplicate := Enter(items, id, origFile, was, done);
        if duplicate {
          return Some(DuplicateKey);
        }
        todo, done := todo - {id}, done + {id};
      }
      assert done == items.Keys;
      error := None;
    }

    /** What read_file holds for the file. */
    function ItemsOf(origFile: bool): (items: Items)
      reads this
      ensures origFile ==> items == origItems
      ensures !origFile ==> items == newItems
    {
      if origFile then origItems else newItems
    }

    /** On an error in the resolution rounds the items are left as they were. */
    method ReadFile(lines: seq<Line>, origFile: bool) returns (error: Option<LogError>)
      requires KindsTame(lines)
      requires forall v :: v in compareItems ==> compareItems[v].Half(origFile).None?
      modifies this
      ensures ItemsOf(!origFile) == old(ItemsOf(!origFile))
      ensures error.None? <==> Comparable(lines)
      ensures error == Some(DuplicateKey) <==> Resolvable(lines) && !Comparable(lines)
      ensures Resolvable(lines) ==> IsResolution(lines, ItemsOf(origFile)) && AllResolved(ItemsOf(origFile))
      ensures error == Some(NonZeroFrame) ==> !FramesZero(lines)
      ensures error == Some(DuplicateId) ==> !DistinctIds(lines)
      ensures error == Some(InfiniteLoop) ==> !Acyclic(lines)
      ensures error.None? && origFile ==> OrigEntered(old(compareItems), compareItems, origItems)
      ensures error.None? && !origFile ==> NewEntered(old(compareItems), compareItems, newItems)
    {
      var resolved := Resolve(lines);
      if resolved.Err? {
        return Some(resolved.error);
      }
      if origFile {
        origItems := resolved.value;
      } else {
        newItems := resolved.value;
      }
      ComparableIs(lines, resolved.value);
      error := BuildHalf(resolved.value, origFile);
    }
  }

  /** The file can be resolved, and no two of its lines have the same virtual ID. */
  ghost predicate Comparable(lines: seq<Line>) {
    Resolvable(lines) && exists items :: IsResolution(lines, items) && DistinctVirtIds(items)
  }

  lemma {:induction false} ComparableIs(lines: seq<Line>, items: Items)
    requires Resolvable(lines) && IsResolution(lines, items)
    ensures Comparable(lines) <==> DistinctVirtIds(items)
  {
    if Comparable(lines) {
      var a :| IsResolution(lines, a) && DistinctVirtIds(a);
      OneResolution(lines, a, items);
    }
  }

  /** A pair for every virtual ID of either file; it has the lines of the two files with this virtual ID. */
  ghost predicate Paired(compare: map<VirtId, ItemPair>, orig: Items, new': Items) {
    && (forall v :: v in compare <==> IsVirtId(orig, v) || IsVirtId(new', v))
    && (forall v, id :: v in compare ==> (compare[v].origItem == Some(id) <==> id in orig && orig[id] == Some(v)))
    && (forall v, id :: v in compare ==> (compare[v].newItem == Some(id) <==> id in new' && new'[id] == Some(v)))
  }

  lemma {:induction false} BothEntered(first: map<VirtId, ItemPair>, compare: map<VirtId, ItemPair>, orig: Items, new': Items)
    requires OrigEntered(map[], first, orig) && NewEntered(first, compare, new')
    ensures Paired(compare, orig, new')
  {}

  /**
    The comparison succeeds exactly if both files can be compared; then a pair has a line of a file
    exactly if its virtual ID occurs in that file.
  */
  method CompareFiles(origLines: seq<Line>, newLines: seq<Line>) returns (res: LogRes, error: Option<LogError>)
    requires KindsTame(origLines) && KindsTame(newLines)
    ensures error.None? <==> Comparable(origLines) && Comparable(newLines)
    ensures error.None? ==> IsResolution(origLines, res.origItems) && IsResolution(newLines, res.newItems)
    ensures error.None? ==> Paired(res.compareItems, res.origItems, res.newItems)
  {
    res := new LogRes();
    error := res.ReadFile(origLines, true);
    if error.None? {
      ghost var (first, orig) := (res.compareItems, res.ItemsOf(true));
      error := res.ReadFile(newLines, false);
      if error.None? {
        BothEntered(first, res.compareItems, orig, res.ItemsOf(false));
      }
    }
  }

  // ----- the report -----

  datatype LogItem = LogItem(physId: Id, virtId: VirtId)

  /** The line stands alone in its pair. */
  ghost predicate Unpaired(compare: map<VirtId, ItemPair>, i: LogItem) {
    && i.virtId in compare
    && (compare[i.virtId] == ItemPair(Some(i.physId), None) || compare[i.virtId] == ItemPair(None, Some(i.physId)))
  }

  /**
    The lists of missing and of extra lines. Both kinds of unpaired lines are added to the first
    one, each line once; the second one stays empty.
  */
  method Differences(compare: map<VirtId, ItemPair>) returns (doubleNull: bool, origHas: seq<LogItem>, newHas: seq<LogItem>)
    ensures doubleNull <==> exists v :: v in compare && compare[v] == ItemPair(None, None)
    ensures newHas == []
    ensures !doubleNull ==> forall i :: multiset(origHas)[i] == if Unpaired(compare, i) then 1 else 0
  {
    doubleNull, origHas, newHas := false, [], [];
    var todo := compare.Keys;
    while todo != {}
      invariant todo <= compare.Keys && forall v :: v in compare && v !in todo ==> compare[v] != ItemPair(None, None)
      invariant forall i :: multiset(origHas)[i] == if Unpaired(compare, i) && i.virtId !in todo then 1 else 0
      decreases |todo|
    {
      var v :| v in todo;
      todo := todo - {v};
      var pair := compare[v];
      if pair.origItem.Some? && pair.newItem.Some? {
        continue;
      }
      if pair.origItem.None? && pair.newItem.None? {
        return true, origHas, newHas;
      }
      if pair.origItem.Some? {
        origHas := origHas + [LogItem(pair.origItem.value, v)];
      }
      if pair.newItem.Some? {
        origHas := origHas + [LogItem(pair.newItem.value, v)];
      }
    }
  }

  /** A line of one file whose virtual ID does not occur in the other file. */
  ghost predicate OnlyIn(items: Items, others: Items, i: LogItem) {
    i.physId in items && items[i.physId] == Some(i.virtId) && !IsVirtId(others, i.virtId)
  }

  lemma {:induction false} HalvesMean(compare: map<VirtId, ItemPair>, orig: Items, new': Items, v: VirtId)
    requires Paired(compare, orig, new') && v in compare
    ensures compare[v].origItem.None? <==> !IsVirtId(orig, v)
    ensures compare[v].newItem.None? <==> !IsVirtId(new', v)
  {
    var pair := compare[v];
    if pair.origItem.Some? { assert orig[pair.origItem.value] == Some(v); }
    if pair.newItem.Some? { assert new'[pair.newItem.value] == Some(v); }
    if IsVirtId(orig, v) {
      var id :| id in orig && orig[id] == Some(v);
      assert pair.origItem == Some(id);
    }
    if IsVirtId(new', v) {
      var id :| id in new' && new'[id] == Some(v);
      assert pair.newItem == Some(id);
    }
  }

  lemma {:induction false} UnpairedMeans(compare: map<VirtId, ItemPair>, orig: Items, new': Items, i: LogItem)
    requires Paired(compare, orig, new')
    ensures Unpaired(compare, i) <==> OnlyIn(orig, new', i) || OnlyIn(new', orig, i)
    ensures i.virtId in compare ==> compare[i.virtId] != ItemPair(None, None)
  {
    var v := i.virtId;
    if v in compare {
      HalvesMean(compare, orig, new', v);
      var pair := compare[v];
      assert pair == ItemPair(pair.origItem, pair.newItem);
    }
  }

  /** Exactly the lines that only one of the files has, each of them once. */
  ghost predicate IsDifference(list: seq<LogItem>, orig: Items, new': Items) {
    forall i :: multiset(list)[i] == if OnlyIn(orig, new', i) || OnlyIn(new', orig, i) then 1 else 0
  }

  /**
    The whole script. When both files can be compared, no pair is empty, and the first list has
    all lines that only one of the files has, whichever it is.
  */
  method RunMain(origLines: seq<Line>, newLines: seq<Line>)
    returns (res: LogRes, error: Option<LogError>, missing: seq<LogItem>, extra: seq<LogItem>)
    requires KindsTame(origLines) && KindsTame(newLines)
    ensures error.None? <==> Comparable(origLines) && Comparable(newLines)
    ensures error.None? ==> IsResolution(origLines, res.origItems) && IsResolution(newLines, res.newItems)
    ensures error.None? ==> extra == [] && IsDifference(missing, res.origItems, res.newItems)
  {
    missing, extra := [], [];
    res, error := CompareFiles(origLines, newLines);
    if error.None? {
      ghost var (compare, orig, new') := (res.compareItems, res.origItems, res.newItems);
      forall i: LogItem
        ensures Unpaired(compare, i) <==> OnlyIn(orig, new', i) || OnlyIn(new', orig, i)
        ensures i.virtId in compare ==> compare[i.virtId] != ItemPair(None, None)
      {
        UnpairedMeans(compare, orig, new', i);
      }
      var doubleNull;
      doubleNull, missing, extra := Differences(res.compareItems);
      if doubleNull {
        assert false;
      }
    }
  }

  /**
    The first list is the one of the missing lines if and only if the new file has no line that
    the original one lacks; and exactly then the empty list is the one of the extra lines.
  */
  lemma {:induction false} ReportRight(orig: Items, new': Items, missing: seq<LogItem>)
    requires IsDifference(missing, orig, new')
    ensures (forall i :: i in missing <==> OnlyIn(orig, new', i)) <==> (forall v :: IsVirtId(new', v) ==> IsVirtId(orig, v))
    ensures (forall i :: !OnlyIn(new', orig, i)) <==> (forall v :: IsVirtId(new', v) ==> IsVirtId(orig, v))
  {
    forall i ensures i in missing <==> OnlyIn(orig, new', i) || OnlyIn(new', orig, i) {
      assert i in missing <==> multiset(missing)[i] > 0;
    }
    forall v | IsVirtId(new', v) && !IsVirtId(orig, v) ensures exists i :: OnlyIn(new', orig, i) {
      var id :| id in new' && new'[id] == Some(v);
      assert OnlyIn(new', orig, LogItem(id, v));
    }
  }

  lemma {:induction false} EnterOne(was: map<VirtId, ItemPair>, now: map<VirtId, ItemPair>, items: Items, ids: set<Id>,
                                    id: Id, origFile: bool)
    requires ids <= items.Keys && id in items && id !in ids && items[id].Some? && DistinctOn(items, ids)
    requires Entered(was, now, items, ids, origFile)
    requires items[id].value in now ==> now[items[id].value].Half(origFile).None?
    ensures var v := items[id].value;
            var pair := if v in now then now[v] else ItemPair(None, None);
            Entered(was, now[v := pair.Set(origFile, id)], items, ids + {id}, origFile)
  {}

  lemma {:induction false} StillDistinct(was: map<VirtId, ItemPair>, now: map<VirtId, ItemPair>, items: Items, ids: set<Id>,
                                         id: Id, origFile: bool)
    requires ids <= items.Keys && id in items && id !in ids && items[id].Some? && DistinctOn(items, ids)
    requires Entered(was, now, items, ids, origFile)
    requires items[id].value in now ==> now[items[id].value].Half(origFile).None?
    ensures DistinctOn(items, ids + {id})
  {
    assert forall a :: a in ids ==> items[a] != items[id];
  }
}
