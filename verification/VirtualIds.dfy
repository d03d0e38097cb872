/**
  Virtual IDs: every line of a log is identified by its type and properties, with the physical
  IDs of other lines replaced by their virtual IDs. This module is about getVirtId: the scan that
  replaces one ID after the other, when it ends, and what it returns.
*/
module VirtualIds {
  import opened Wrappers

  type Id = string

  /** Text: single characters, and the maximal matches of the pattern for IDs. */
  datatype Token = Text(c: char) | Ref(id: Id)

  type VirtId = seq<Token>

  /** The IDs of a file; None as long as the virtual ID is not known. */
  type Items = map<Id, Option<VirtId>>

  ghost predicate IsKnown(items: Items, t: Token) {
    t.Ref? && t.id in items
  }

  /** No ID of the file is left. */
  ghost predicate Final(ids: set<Id>, s: seq<Token>) {
    forall t :: t in s && t.Ref? ==> t.id !in ids
  }

  lemma {:induction false} FinalParts(ids: set<Id>, s: seq<Token>, t: seq<Token>)
    ensures Final(ids, s + t) <==> Final(ids, s) && Final(ids, t)
  {
    if Final(ids, s + t) {
      assert forall u :: u in s ==> u in s + t;
      assert forall u :: u in t ==> u in s + t;
    }
  }

  // ----- expansion -----

  /** The text with all IDs expanded, and the IDs in what they stand for, down to depth n. */
  ghost function Expanded(items: Items, s: seq<Token>, n: nat): seq<Token>
    decreases n, |s| + 1
  {
    if s == [] then [] else ExpandedToken(items, s[0], n) + Expanded(items, s[1..], n)
  }

  ghost function ExpandedToken(items: Items, t: Token, n: nat): seq<Token>
    decreases n, 0
  {
    if n > 0 && IsKnown(items, t) && items[t.id].Some? then Expanded(items, items[t.id].value, n - 1) else [t]
  }

  /** x is the full expansion of s: no ID of the file is left in it. */
  ghost predicate Expands(items: Items, s: seq<Token>, x: seq<Token>) {
    Final(items.Keys, x) && exists n: nat :: Expanded(items, s, n) == x
  }

  ghost predicate CanExpand(items: Items, s: seq<Token>) {
    exists x :: Expands(items, s, x)
  }

  lemma {:induction false} Associate(a: seq<Token>, b: seq<Token>, c: seq<Token>)
    ensures (a + b) + c == a + (b + c)
  {}

  lemma {:induction false} ExpandedAppend(items: Items, s: seq<Token>, t: seq<Token>, n: nat)
    ensures Expanded(items, s + t, n) == Expanded(items, s, n) + Expanded(items, t, n)
  {
    if s == [] {
      assert s + t == t;
    } else {
      ExpandedAppend(items, s[1..], t, n);
      assert (s + t)[1..] == s[1..] + t;
      Associate(ExpandedToken(items, s[0], n), Expanded(items, s[1..], n), Expanded(items, t, n));
    }
  }

  lemma {:induction false} ExpandedOne(items: Items, t: Token, n: nat)
    ensures Expanded(items, [t], n) == ExpandedToken(items, t, n)
  {
    assert [t][1..] == [];
    assert ExpandedToken(items, t, n) + [] == ExpandedToken(items, t, n);
  }

  /** The expansion of a token is a part of the expansion of the text. */
  lemma {:induction false} ExpandedPart(items: Items, s: seq<Token>, k: nat, n: nat)
    requires k < |s|
    ensures Expanded(items, s, n) ==
      Expanded(items, s[..k], n) + (ExpandedToken(items, s[k], n) + Expanded(items, s[k + 1..], n))
  {
    assert s == s[..k] + s[k..];
    ExpandedAppend(items, s[..k], s[k..], n);
    assert s[k..][1..] == s[k + 1..];
  }

  lemma {:induction false} ExpandedZero(items: Items, s: seq<Token>)
    ensures Expanded(items, s, 0) == s
  {
    if s != [] {
      ExpandedZero(items, s[1..]);
      assert s == [s[0]] + s[1..];
    }
  }

  lemma {:induction false} TokenFinal(items: Items, s: seq<Token>, k: nat, n: nat)
    requires k < |s| && Final(items.Keys, Expanded(items, s, n))
    ensures Final(items.Keys, ExpandedToken(items, s[k], n))
  {
    ExpandedPart(items, s, k, n);
    var (e, rest) := (ExpandedToken(items, s[k], n), Expanded(items, s[k + 1..], n));
    FinalParts(items.Keys, Expanded(items, s[..k], n), e + rest);
    FinalParts(items.Keys, e, rest);
  }

  /** An ID of the file whose expansion is final has a virtual ID with a final expansion. */
  lemma {:induction false} KnownFinal(items: Items, t: Token, n: nat)
    requires IsKnown(items, t) && Final(items.Keys, ExpandedToken(items, t, n))
    ensures n > 0 && items[t.id].Some? && Final(items.Keys, Expanded(items, items[t.id].value, n - 1))
  {
    assert n == 0 || items[t.id].None? ==> t in ExpandedToken(items, t, n);
  }

  /** More depth does not change a final expansion. */
  lemma {:induction false} Stable(items: Items, s: seq<Token>, n: nat, m: nat)
    requires n <= m && Final(items.Keys, Expanded(items, s, n))
    ensures Expanded(items, s, m) == Expanded(items, s, n)
    decreases n, |s|
  {
    if s != [] {
      FinalParts(items.Keys, ExpandedToken(items, s[0], n), Expanded(items, s[1..], n));
      Stable(items, s[1..], n, m);
      if IsKnown(items, s[0]) {
        KnownFinal(items, s[0], n);
        Stable(items, items[s[0].id].value, n - 1, m - 1);
      }
    }
  }

  lemma {:induction false} ExpandsUnique(items: Items, s: seq<Token>, x: seq<Token>, y: seq<Token>)
    requires Expands(items, s, x) && Expands(items, s, y)
    ensures x == y
  {
    var n: nat :| Expanded(items, s, n) == x;
    var m: nat :| Expanded(items, s, m) == y;
    if n <= m { Stable(items, s, n, m); } else { Stable(items, s, m, n); }
  }

  // ----- one replacement -----

  lemma {:induction false} ExpandedThree(items: Items, pre: seq<Token>, mid: seq<Token>, post: seq<Token>, n: nat)
    ensures Expanded(items, pre + mid + post, n) ==
      Expanded(items, pre, n) + Expanded(items, mid, n) + Expanded(items, post, n)
  {
    ExpandedAppend(items, pre + mid, post, n);
    ExpandedAppend(items, pre, mid, n);
  }

  lemma {:induction false} FinalThree(ids: set<Id>, a: seq<Token>, b: seq<Token>, c: seq<Token>)
    ensures Final(ids, a + b + c) <==> Final(ids, a) && Final(ids, b) && Final(ids, c)
  {
    FinalParts(ids, a + b, c);
    FinalParts(ids, a, b);
  }

  lemma {:induction false} ReplaceDown(items: Items, pre: seq<Token>, t: Token, post: seq<Token>, n: nat)
    requires IsKnown(items, t) && items[t.id].Some?
    requires Final(items.Keys, Expanded(items, pre + [t] + post, n))
    ensures Expanded(items, pre + items[t.id].value + post, n) == Expanded(items, pre + [t] + post, n)
  {
    var v := items[t.id].value;
    ExpandedThree(items, pre, [t], post, n);
    ExpandedThree(items, pre, v, post, n);
    ExpandedOne(items, t, n);
    FinalThree(items.Keys, Expanded(items, pre, n), Expanded(items, [t], n), Expanded(items, post, n));
    KnownFinal(items, t, n);
    Stable(items, v, n - 1, n);
  }

  lemma {:induction false} ReplaceUp(items: Items, pre: seq<Token>, t: Token, post: seq<Token>, n: nat)
    requires IsKnown(items, t) && items[t.id].Some?
    requires Final(items.Keys, Expanded(items, pre + items[t.id].value + post, n))
    ensures Expanded(items, pre + [t] + post, n + 1) == Expanded(items, pre + items[t.id].value + post, n)
  {
    var v := items[t.id].value;
    ExpandedThree(items, pre, [t], post, n + 1);
    ExpandedThree(items, pre, v, post, n);
    ExpandedOne(items, t, n + 1);
    FinalThree(items.Keys, Expanded(items, pre, n), Expanded(items, v, n), Expanded(items, post, n));
    Stable(items, pre, n, n + 1);
    Stable(items, post, n, n + 1);
  }

  /** The text after the ID at position k has been replaced by its virtual ID. */
  ghost function Replaced(items: Items, s: seq<Token>, k: nat): seq<Token>
    requires k < |s| && IsKnown(items, s[k]) && items[s[k].id].Some?
  {
    s[..k] + items[s[k].id].value + s[k + 1..]
  }

  /** A replacement changes neither whether there is a full expansion nor which one. */
  lemma {:induction false} ReplaceOne(items: Items, s: seq<Token>, k: nat, x: seq<Token>)
    requires k < |s| && IsKnown(items, s[k]) && items[s[k].id].Some?
    ensures Expands(items, Replaced(items, s, k), x) <==> Expands(items, s, x)
  {
    var (pre, t, post) := (s[..k], s[k], s[k + 1..]);
    assert s == pre + [t] + post;
    if Expands(items, s, x) {
      var n: nat :| Expanded(items, s, n) == x;
      ReplaceDown(items, pre, t, post, n);
    }
    if Expands(items, Replaced(items, s, k), x) {
      var n: nat :| Expanded(items, Replaced(items, s, k), n) == x;
      ReplaceUp(items, pre, t, post, n);
    }
  }

  /** An ID without virtual ID stays in every expansion. */
  lemma {:induction false} Stuck(items: Items, s: seq<Token>, k: nat)
    requires k < |s| && IsKnown(items, s[k]) && items[s[k].id].None?
    ensures !CanExpand(items, s)
  {
    forall x ensures !Expands(items, s, x) {
      if Expands(items, s, x) {
        var n: nat :| Expanded(items, s, n) == x;
        TokenFinal(items, s, k, n);
        KnownFinal(items, s[k], n);
      }
    }
  }

  // ----- when there is a full expansion -----

  /** All IDs of the file in the text are in the set and rank below the bound. */
  ghost predicate RefsBelow(items: Items, s: seq<Token>, ids: set<Id>, rank: Id -> nat, bound: nat) {
    forall t :: t in s && IsKnown(items, t) ==> t.id in ids && rank(t.id) < bound
  }

  ghost predicate RefsIn(items: Items, s: seq<Token>, ids: set<Id>) {
    forall t :: t in s && IsKnown(items, t) ==> t.id in ids
  }

  /** Within the set, virtual IDs contain only IDs of lower rank: there is no cycle in it. */
  ghost predicate Bounded(items: Items, ids: set<Id>, rank: Id -> nat) {
    forall a :: a in ids && a in items && items[a].Some? ==> RefsBelow(items, items[a].value, ids, rank, rank(a))
  }

  /** No cycle can be reached from the text. */
  ghost predicate Tame(items: Items, s: seq<Token>) {
    exists ids: set<Id>, rank: Id -> nat :: RefsIn(items, s, ids) && Bounded(items, ids, rank)
  }

  ghost predicate AllSome(items: Items, ids: set<Id>) {
    forall a :: a in ids ==> a in items && items[a].Some?
  }

  /** No cycle and no ID without virtual ID can be reached from the text. */
  ghost predicate Grounded(items: Items, s: seq<Token>, ids: set<Id>, rank: Id -> nat) {
    RefsIn(items, s, ids) && Bounded(items, ids, rank) && AllSome(items, ids)
  }

  /** A bound on the ranks of the IDs in a text. */
  ghost function Top(s: seq<Token>, rank: Id -> nat): (bound: nat)
    ensures forall t :: t in s && t.Ref? ==> rank(t.id) < bound
  {
    if s == [] then 0
    else
      var bound := Top(s[1..], rank);
      var first := if s[0].Ref? then rank(s[0].id) + 1 else 0;
      assert forall t :: t in s ==> t == s[0] || t in s[1..];
      if first > bound then first else bound
  }

  lemma {:induction false} GroundedExpands(items: Items, s: seq<Token>, ids: set<Id>, rank: Id -> nat, bound: nat)
    requires RefsBelow(items, s, ids, rank, bound) && Bounded(items, ids, rank) && AllSome(items, ids)
    ensures Final(items.Keys, Expanded(items, s, bound))
    decreases bound, |s|
  {
    if s != [] {
      assert forall t :: t in s[1..] ==> t in s;
      GroundedExpands(items, s[1..], ids, rank, bound);
      if IsKnown(items, s[0]) {
        assert s[0] in s;
        GroundedExpands(items, items[s[0].id].value, ids, rank, bound - 1);
      }
      FinalParts(items.Keys, ExpandedToken(items, s[0], bound), Expanded(items, s[1..], bound));
    }
  }

  ghost predicate FinalAt(items: Items, id: Id, n: nat) {
    Final(items.Keys, ExpandedToken(items, Ref(id), n))
  }

  ghost predicate Reaches(items: Items, id: Id) {
    exists n: nat :: FinalAt(items, id, n)
  }

  /** The least depth, up to n, at which the expansion of an ID is final. */
  ghost function Least(items: Items, id: Id, n: nat): (m: nat)
    requires FinalAt(items, id, n)
    ensures m <= n && FinalAt(items, id, m) && (m > 0 ==> !FinalAt(items, id, m - 1))
  {
    if n > 0 && FinalAt(items, id, n - 1) then Least(items, id, n - 1) else n
  }

  ghost function Depth(items: Items, id: Id): nat {
    if Reaches(items, id) then
      var n: nat :| FinalAt(items, id, n);
      Least(items, id, n)
    else 0
  }

  lemma {:induction false} FinalLater(items: Items, id: Id, n: nat, m: nat)
    requires n <= m && FinalAt(items, id, n)
    ensures FinalAt(items, id, m)
  {
    ExpandedOne(items, Ref(id), n);
    ExpandedOne(items, Ref(id), m);
    Stable(items, [Ref(id)], n, m);
  }

  lemma {:induction false} DepthIs(items: Items, id: Id, n: nat)
    requires FinalAt(items, id, n)
    ensures Reaches(items, id) && Depth(items, id) <= n && FinalAt(items, id, Depth(items, id))
  {
    var d := Depth(items, id);
    if d > n { FinalLater(items, id, n, d - 1); }
  }

  /** The IDs with a full expansion. */
  ghost function Expandable(items: Items): set<Id> {
    set id | id in items && Reaches(items, id)
  }

  lemma {:induction false} ExpandableRefs(items: Items, s: seq<Token>, n: nat, t: Token)
    requires Final(items.Keys, Expanded(items, s, n)) && t in s && IsKnown(items, t)
    ensures t.id in Expandable(items) && Depth(items, t.id) <= n
  {
    var k :| 0 <= k < |s| && s[k] == t;
    TokenFinal(items, s, k, n);
    assert t == Ref(t.id);
    DepthIs(items, t.id, n);
  }

  /** They have virtual IDs, which contain only IDs of less depth. */
  lemma {:induction false} ExpandableBounded(items: Items)
    ensures AllSome(items, Expandable(items)) && Bounded(items, Expandable(items), id => Depth(items, id))
  {
    var rank: Id -> nat := id => Depth(items, id);
    forall a | a in Expandable(items)
      ensures items[a].Some? && RefsBelow(items, items[a].value, Expandable(items), rank, rank(a))
    {
      var m: nat :| FinalAt(items, a, m);
      DepthIs(items, a, m);
      KnownFinal(items, Ref(a), Depth(items, a));
      forall t | t in items[a].value && IsKnown(items, t)
        ensures t.id in Expandable(items) && rank(t.id) < rank(a)
      {
        ExpandableRefs(items, items[a].value, Depth(items, a) - 1, t);
      }
    }
  }

  /**
    A text has a full expansion if and only if neither a cycle nor an ID without virtual ID can be
    reached from it.
  */
  lemma {:induction false} CanExpandIff(items: Items, s: seq<Token>)
    ensures CanExpand(items, s) <==> exists ids: set<Id>, rank: Id -> nat :: Grounded(items, s, ids, rank)
  {
    if CanExpand(items, s) {
      var x :| Expands(items, s, x);
      var n: nat :| Expanded(items, s, n) == x;
      ExpandableBounded(items);
      forall t | t in s && IsKnown(items, t) ensures t.id in Expandable(items) {
        ExpandableRefs(items, s, n, t);
      }
      assert Grounded(items, s, Expandable(items), id => Depth(items, id));
    }
    if ids: set<Id>, rank: Id -> nat :| Grounded(items, s, ids, rank) {
      GroundedExpands(items, s, ids, rank, Top(s, rank));
      assert Expands(items, s, Expanded(items, s, Top(s, rank)));
    }
  }

  // ----- how often the scan replaces -----

  /** The number of replacements until no ID of the file is left. */
  ghost function Weight(items: Items, s: seq<Token>, ids: set<Id>, rank: Id -> nat, bound: nat): nat
    requires RefsBelow(items, s, ids, rank, bound) && Bounded(items, ids, rank)
    decreases bound, |s|
  {
    if s == [] then 0
    else
      assert s[0] in s && forall t :: t in s[1..] ==> t in s;
      (if IsKnown(items, s[0]) && items[s[0].id].Some? then
         1 + Weight(items, items[s[0].id].value, ids, rank, rank(s[0].id))
       else 0) + Weight(items, s[1..], ids, rank, bound)
  }

  lemma {:induction false} WeightLevel(items: Items, s: seq<Token>, ids: set<Id>, rank: Id -> nat, low: nat, high: nat)
    requires RefsBelow(items, s, ids, rank, low) && low <= high && Bounded(items, ids, rank)
    ensures RefsBelow(items, s, ids, rank, high)
    ensures Weight(items, s, ids, rank, low) == Weight(items, s, ids, rank, high)
  {
    if s != [] {
      assert forall t :: t in s[1..] ==> t in s;
      WeightLevel(items, s[1..], ids, rank, low, high);
    }
  }

  lemma {:induction false} WeightAppend(items: Items, s: seq<Token>, t: seq<Token>, ids: set<Id>, rank: Id -> nat, bound: nat)
    requires RefsBelow(items, s, ids, rank, bound) && RefsBelow(items, t, ids, rank, bound) && Bounded(items, ids, rank)
    ensures RefsBelow(items, s + t, ids, rank, bound)
    ensures Weight(items, s + t, ids, rank, bound) ==
      Weight(items, s, ids, rank, bound) + Weight(items, t, ids, rank, bound)
  {
    if s == [] {
      assert s + t == t;
    } else {
      assert forall u :: u in s[1..] ==> u in s;
      WeightAppend(items, s[1..], t, ids, rank, bound);
      assert (s + t)[1..] == s[1..] + t;
    }
  }

  lemma {:induction false} WeightOne(items: Items, t: Token, ids: set<Id>, rank: Id -> nat, bound: nat)
    requires Bounded(items, ids, rank) && IsKnown(items, t) && items[t.id].Some? && t.id in ids && rank(t.id) < bound
    ensures RefsBelow(items, [t], ids, rank, bound) && RefsBelow(items, items[t.id].value, ids, rank, bound)
    ensures Weight(items, [t], ids, rank, bound) == 1 + Weight(items, items[t.id].value, ids, rank, bound)
  {
    assert [t][1..] == [];
    WeightLevel(items, items[t.id].value, ids, rank, rank(t.id), bound);
  }

  /** Every replacement takes one off. */
  lemma {:induction false} WeightReplaced(items: Items, s: seq<Token>, k: nat, ids: set<Id>, rank: Id -> nat, bound: nat)
    requires RefsBelow(items, s, ids, rank, bound) && Bounded(items, ids, rank)
    requires k < |s| && IsKnown(items, s[k]) && items[s[k].id].Some?
    ensures RefsBelow(items, Replaced(items, s, k), ids, rank, bound)
    ensures Weight(items, Replaced(items, s, k), ids, rank, bound) == Weight(items, s, ids, rank, bound) - 1
  {
    var (pre, t, post) := (s[..k], s[k], s[k + 1..]);
    var v := items[t.id].value;
    assert s == pre + [t] + post;
    assert t in s && (forall u :: u in pre ==> u in s) && (forall u :: u in post ==> u in s);
    WeightOne(items, t, ids, rank, bound);
    WeightAppend(items, pre, [t], ids, rank, bound);
    WeightAppend(items, pre + [t], post, ids, rank, bound);
    WeightAppend(items, pre, v, ids, rank, bound);
    WeightAppend(items, pre + v, post, ids, rank, bound);
  }

  // ----- getVirtId -----

  /** The first ID at or after the offset, or the end of the text. */
  method Match(s: seq<Token>, offset: nat) returns (k: nat)
    requires offset <= |s|
    ensures offset <= k <= |s| && (k < |s| ==> s[k].Ref?)
    ensures forall i :: offset <= i < k ==> s[i].Text?
  {
    k := offset;
    while k < |s| && s[k].Text?
      invariant offset <= k <= |s| && forall i :: offset <= i < k ==> s[i].Text?
    {
      k := k + 1;
    }
  }

  function Wrap(kind: seq<Token>, s: seq<Token>): VirtId {
    Characters("{") + kind + Characters("=>") + s + Characters("}")
  }

  function Characters(s: string): (r: seq<Token>)
    ensures |r| == |s| && forall i :: 0 <= i < |s| ==> r[i] == Text(s[i])
  {
    seq(|s|, i requires 0 <= i < |s| => Text(s[i]))
  }

  /** For one kind, equal virtual IDs come from equal properties. */
  lemma {:induction false} WrapInjective(kind: seq<Token>, x: seq<Token>, y: seq<Token>)
    ensures Wrap(kind, x) == Wrap(kind, y) <==> x == y
  {
    WrapMiddle(kind, x);
    WrapMiddle(kind, y);
  }

  /** The virtual ID of texts, as a text. */
  lemma {:induction false} WrapCharacters(kind: string, x: string)
    ensures Wrap(Characters(kind), Characters(x)) == Characters("{" + kind + "=>" + x + "}")
  {
    CharactersAppend("{", kind);
    CharactersAppend("{" + kind, "=>");
    CharactersAppend("{" + kind + "=>", x);
    CharactersAppend("{" + kind + "=>" + x, "}");
  }

  lemma {:induction false} CharactersAppend(s: string, t: string)
    ensures Characters(s + t) == Characters(s) + Characters(t)
  {}

  lemma {:induction false} WrapMiddle(kind: seq<Token>, x: seq<Token>)
    ensures |Wrap(kind, x)| == |kind| + |x| + 4 && Wrap(kind, x)[|kind| + 3..|kind| + 3 + |x|] == x
  {
    var before := Characters("{") + kind + Characters("=>");
    assert Wrap(kind, x) == before + x + Characters("}") && |before| == |kind| + 3;
  }

  /**
    The scan ends if no cycle can be reached, and returns nil exactly if an ID without virtual ID
    can be; otherwise all IDs in the properties are fully expanded.
  */
  method GetVirtId(items: Items, kind: seq<Token>, props: seq<Token>) returns (r: Option<VirtId>)
    requires Tame(items, props)
    ensures r.Some? <==> CanExpand(items, props)
    ensures r.Some? ==> exists x :: Expands(items, props, x) && r.value == Wrap(kind, x)
    ensures r.Some? ==>
      exists x :: Expands(items, props, x) && r.value == Characters("{") + kind + Characters("=>") + x + Characters("}")
  {
    ghost var ids: set<Id>, rank: Id -> nat :| RefsIn(items, props, ids) && Bounded(items, ids, rank);
    ghost var bound := Top(props, rank);
    var s, offset := props, 0;
    var scanAgain := true;
    while scanAgain
      invariant 0 <= offset <= |s| && Final(items.Keys, s[..offset])
      invariant RefsBelow(items, s, ids, rank, bound) && Bounded(items, ids, rank)
      invariant forall x :: Expands(items, s, x) <==> Expands(items, props, x)
      invariant !scanAgain ==> Final(items.Keys, s)
      decreases Weight(items, s, ids, rank, bound), |s| - offset, scanAgain
    {
      scanAgain := false;
      var k := Match(s, offset);
      if k < |s| {
        var id := s[k].id;
        if id in items {
          var repKey := items[id];
          if repKey.None? {
            Stuck(items, s, k);
            return None;
          }
          forall x ensures Expands(items, Replaced(items, s, k), x) <==> Expands(items, s, x) {
            ReplaceOne(items, s, k, x);
          }
          WeightReplaced(items, s, k, ids, rank, bound);
          s := s[..k] + repKey.value + s[k + 1..];
          offset := 0;
        } else {
          offset := k + 1;
        }
        scanAgain := true;
      }
    }
    ExpandedZero(items, s);
    assert Expands(items, s, s);
    r := Some(Wrap(kind, s));
  }

  // ----- when the scan does not end -----

  /** The text after n replacements; the scan replaces the first ID of the file that it meets. */
  ghost function After(items: Items, s: seq<Token>, n: nat): seq<Token>
    decreases n
  {
    if n == 0 || Final(items.Keys, s) then s
    else
      var k := FirstKnown(items, s);
      if items[s[k].id].None? then s else After(items, Replaced(items, s, k), n - 1)
  }

  ghost function FirstKnown(items: Items, s: seq<Token>): (k: nat)
    requires !Final(items.Keys, s)
    ensures k < |s| && IsKnown(items, s[k]) && Final(items.Keys, s[..k])
  {
    if IsKnown(items, s[0]) then 0
    else
      assert s == [s[0]] + s[1..];
      var k := FirstKnown(items, s[1..]);
      assert s[..k + 1] == [s[0]] + s[1..][..k];
      k + 1
  }

  /** No ID without virtual ID can be reached from the text: ids contains what can be. */
  ghost predicate OnlyResolved(items: Items, s: seq<Token>, ids: set<Id>) {
    && RefsIn(items, s, ids) && AllSome(items, ids)
    && forall a :: a in ids ==> RefsIn(items, items[a].value, ids)
  }

  /** If only resolved IDs can be reached but there is no full expansion, the scan never runs out of IDs. */
  lemma {:induction false} NeverEnds(items: Items, s: seq<Token>, ids: set<Id>, n: nat)
    requires OnlyResolved(items, s, ids) && !CanExpand(items, s)
    ensures !Final(items.Keys, After(items, s, n))
    decreases n
  {
    if Final(items.Keys, s) {
      ExpandedZero(items, s);
      assert Expands(items, s, s);
    }
    if n > 0 {
      var k := FirstKnown(items, s);
      assert s[k] in s;
      forall x ensures !Expands(items, Replaced(items, s, k), x) {
        ReplaceOne(items, s, k, x);
        assert !Expands(items, s, x);
      }
      ReplacedIn(items, s, k, ids);
      NeverEnds(items, Replaced(items, s, k), ids, n - 1);
    }
  }

  lemma {:induction false} ReplacedIn(items: Items, s: seq<Token>, k: nat, ids: set<Id>)
    requires OnlyResolved(items, s, ids) && k < |s| && IsKnown(items, s[k]) && s[k] in s
    ensures OnlyResolved(items, Replaced(items, s, k), ids)
  {
    forall t | t in Replaced(items, s, k) && IsKnown(items, t) ensures t.id in ids {
      if t in s[..k] || t in s[k + 1..] { assert t in s; }
    }
  }

  lemma {:induction false} NotBelowItself(items: Items, id: Id, ids: set<Id>, rank: Id -> nat)
    requires id in items && items[id].Some? && Ref(id) in items[id].value
    ensures !RefsBelow(items, items[id].value, ids, rank, rank(id))
  {}

  /** A virtual ID that contains its own ID has no full expansion. */
  lemma {:induction false} OwnId(items: Items, id: Id, s: seq<Token>)
    requires id in items && items[id].Some? && Ref(id) in items[id].value && Ref(id) in s
    ensures !CanExpand(items, s)
  {
    CanExpandIff(items, s);
    forall ids: set<Id>, rank: Id -> nat ensures !Grounded(items, s, ids, rank) {
      NotBelowItself(items, id, ids, rank);
    }
  }

  /**
    The table when the kind of line 0x1 contains its own ID and line 0x2 refers to it: one
    replacement leaves the ID in place, and the scan for line 0x2 never ends.
  */
  lemma {:induction false} OwnKind(n: nat)
    ensures var items: Items := map["0x1" := Some(Wrap([Ref("0x1")], [Text('b')])), "0x2" := None];
            && Ref("0x1") in Replaced(items, [Ref("0x1")], 0)
            && !Final(items.Keys, After(items, [Ref("0x1")], n))
  {
    var v := Wrap([Ref("0x1")], [Text('b')]);
    var items: Items := map["0x1" := Some(v), "0x2" := None];
    assert v[1] == Ref("0x1") && v[1] in Replaced(items, [Ref("0x1")], 0);
    OwnId(items, "0x1", [Ref("0x1")]);
    NeverEnds(items, [Ref("0x1")], {"0x1"}, n);
  }
}
