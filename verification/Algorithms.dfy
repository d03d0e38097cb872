/** The algorithms that the library shows its numbers with: Newton's square root and Euclid's gcd. */
module Algorithms {
  import opened Arith
  import opened Poly
  import opened Division
  import opened Wrappers
  import opened DecInts
  import opened DecimalText

  // ----- Newton's iteration for the integer square root -----

  /** One step of the iteration. */
  function Newton(x: nat, r: nat): nat
    requires r >= 1
  {
    (x + r * r) / (2 * r)
  }

  /** a is the integer square root of x. */
  ghost predicate IsRoot(x: int, a: int) {
    a >= 0 && a * a <= x < (a + 1) * (a + 1)
  }

  ghost predicate IsSquare(x: int) {
    exists k: nat :: x == k * k
  }

  lemma {:induction false} NewtonIs(x: nat, r: nat) returns (rest: int)
    requires r >= 1
    ensures x + r * r == 2 * r * Newton(x, r) + rest && 0 <= rest < 2 * r
  {
    var (n, d) := (x + r * r, 2 * r);
    rest := n % d;
    assert n == d * (n / d) + rest;
  }

  lemma {:induction false} SquareOfDifference(a: int, r: int)
    ensures 2 * r * a <= a * a + r * r
  {
    var d := r - a;
    assert d * d >= 0;
    assert d * d == r * r - 2 * r * a + a * a;
  }

  lemma {:induction false} SquareMono(a: int, b: int)
    requires 0 <= a <= b
    ensures a * a <= b * b
  {
    MulMono(a, a, b);
    MulMono(b, a, b);
  }

  /** No step ends below the root, and from above the root every step goes down. */
  lemma {:induction false} NewtonBounds(x: nat, r: nat, a: nat)
    requires r >= 1 && IsRoot(x, a)
    ensures Newton(x, r) >= a && (r > a ==> Newton(x, r) < r)
  {
    var rest := NewtonIs(x, r);
    var n := Newton(x, r);
    SquareOfDifference(a, r);
    if n < a {
      MulMono(2 * r, n + 1, a);
      Distrib(2 * r, n, 1);
    }
    if r > a {
      SquareMono(a + 1, r);
      if n >= r { MulMono(2 * r, r, n); }
      assert 2 * r * r == r * r + r * r;
    }
  }

  /** The step from the root: it stays there unless x is the last number with this root. */
  lemma {:induction false} NewtonAtRoot(x: nat, a: nat)
    requires a >= 1 && IsRoot(x, a)
    ensures Newton(x, a) == if x + 1 == (a + 1) * (a + 1) then a + 1 else a
  {
    var e := x - a * a;
    assert (a + 1) * (a + 1) == a * a + 2 * a + 1;
    assert x + a * a == 2 * a * a + e;
    if e == 2 * a {
      Distrib(2 * a, a, 1);
      DivUnique(x + a * a, 2 * a, a + 1, 0);
    } else {
      DivUnique(x + a * a, 2 * a, a, e);
    }
  }

  /** x + 1 is a square exactly if x is the last number with its root. */
  lemma {:induction false} NextSquare(x: nat, a: nat)
    requires IsRoot(x, a)
    ensures IsSquare(x + 1) <==> x + 1 == (a + 1) * (a + 1)
  {
    if k: nat :| x + 1 == k * k {
      assert (a + 2) * (a + 2) == (a + 1) * (a + 1) + 2 * a + 3;
      if k <= a { SquareMono(k, a); }
      if k >= a + 2 { SquareMono(a + 2, k); }
    }
  }

  /** The iteration comes to rest nowhere but at the root, and not even there if x + 1 is a square. */
  lemma {:induction false} FixedPoint(x: nat, r: nat, a: nat)
    requires r >= 1 && a >= 1 && IsRoot(x, a)
    ensures Newton(x, r) == r <==> r == a && !IsSquare(x + 1)
  {
    NewtonBounds(x, r, a);
    NewtonAtRoot(x, a);
    NextSquare(x, a);
  }

  lemma {:induction false} RootExists(x: nat) returns (a: nat)
    ensures IsRoot(x, a)
  {
    if x == 0 {
      a := 0;
    } else {
      a := RootExists(x - 1);
      if x == (a + 1) * (a + 1) {
        a := a + 1;
        SquareMono(a, a + 1);
        assert (a + 1) * (a + 1) == a * a + 2 * a + 1;
      }
    }
  }

  lemma {:induction false} NewtonPositive(x: nat, r: nat)
    requires x >= 1 && r >= 1
    ensures Newton(x, r) >= 1
  {
    var a := RootExists(x);
    NewtonBounds(x, r, a);
  }

  /** The value of the iteration after n steps. */
  ghost function Steps(x: nat, r: nat, n: nat): nat
    requires x >= 1 && r >= 1
    decreases n
  {
    if n == 0 then r
    else
      NewtonPositive(x, r);
      Steps(x, Newton(x, r), n - 1)
  }

  /** If x + 1 is a square, no two successive values are equal, whatever the start: the loop never ends. */
  lemma {:induction false} NeverRests(x: nat, r: nat, n: nat)
    requires x >= 1 && r >= 1 && IsSquare(x + 1)
    ensures Steps(x, r, n) >= 1 && Newton(x, Steps(x, r, n)) != Steps(x, r, n)
    decreases n
  {
    if n == 0 {
      var a := RootExists(x);
      FixedPoint(x, r, a);
    } else {
      NewtonPositive(x, r);
      NeverRests(x, Newton(x, r), n - 1);
    }
  }

  /** For 15, from its starting value 4 on: 3, 4, 3, 4 and so on. */
  lemma {:induction false} Fifteen(n: nat)
    ensures Newton(15, 4) == 3 && Newton(15, 3) == 4
    ensures Steps(15, 4, n) >= 1 && Newton(15, Steps(15, 4, n)) != Steps(15, 4, n)
  {
    assert 16 == 4 * 4;
    assert IsSquare(16);
    NeverRests(15, 4, n);
  }

  /** The digit 4, n times. */
  function Fours(n: nat): (s: string)
    ensures |s| == n && forall i :: 0 <= i < n ==> s[i] == '4'
  {
    seq(n, _ => '4')
  }

  lemma {:induction false} FoursValue(n: nat)
    requires n >= 1
    ensures Plain(Fours(n)) && DecimalValue(Fours(n)) >= 1 && Describes(Fours(n), DecimalValue(Fours(n)))
  {
    var s := Fours(n);
    DecimalBound(s);
    PowPos(10, n - 1);
    SignedNoSpace("", s);
    assert "" + s == s;
    assert SignedDigits("", s) && DecimalValue(s) == SignedValue("", s);
  }

  /** A plain text has two digits or more exactly for numbers of at least ten. */
  lemma {:induction false} TwoDigits(s: string)
    requires Plain(s)
    ensures |s| >= 2 <==> DecimalValue(s) >= 10
  {
    DecimalBound(s);
    assert Pow(10, 1) == 10 * Pow(10, 0);
    if |s| >= 2 { PowMono(10, 1, |s| - 1); }
  }

  lemma {:induction false} PowTwo(r: int)
    ensures Pow(r, 2) == r * r && Pow(BASE, 1) == 10
  {
    assert Pow(r, 2) == r * Pow(r, 1) && Pow(r, 1) == r * Pow(r, 0);
    assert Pow(BASE, 1) == 10 * Pow(BASE, 0);
  }

  /** x + root ** 2. The root may be converted to another radix. */
  method Dividend(x: DecInt, root: DecInt) returns (dividend: DecInt)
    requires x.Valid() && root.Valid() && x != root
    modifies root`terms, root`power
    ensures root.Valid() && root.Value() == old(root.Value())
    ensures fresh(dividend) && dividend.Valid() && dividend.power == x.power
    ensures dividend.Value() == x.Value() + root.Value() * root.Value()
  {
    PowTwo(root.Value());
    var squared := root.Power(2, null);
    dividend := x.Add(squared.value);
  }

  /** 2 * root; the number 2 has one term in every radix. */
  method Divisor(root: DecInt) returns (divisor: DecInt)
    requires root.Valid()
    ensures fresh(divisor) && divisor.Valid() && divisor.Value() == 2 * root.Value()
  {
    PowTwo(0);
    var two := new DecInt.FromInt(2, root.power, 1);
    divisor := root.Multiply(two);
    Commuted(root.Value(), 2);
  }

  /** One step: (x + root ** 2) // (2 * root). */
  method Step(x: DecInt, root: DecInt) returns (newroot: DecInt)
    requires x.Valid() && root.Valid() && x != root && x.Value() >= 0 && root.Value() >= 1
    modifies root`terms, root`power
    ensures root.Valid() && root.Value() == old(root.Value())
    ensures fresh(newroot) && newroot.Valid() && newroot.Value() == Newton(x.Value(), root.Value())
  {
    var dividend := Dividend(x, root);
    var divisor := Divisor(root);
    var division := dividend.DivMod(divisor);
    newroot := division.value.0;
    FloorDivisionUnique(dividend.Value(), divisor.Value(), newroot.Value(), division.value.1.Value());
  }

  /**
    square_root: the integer square root, for every number of at least two digits that is not one
    less than a square. For one digit the starting value is the number of an empty text: an error.
  */
  method SquareRoot(x: DecInt) returns (result: Option<DecInt>)
    requires x.Valid() && x.sign == 1 && (x.Value() < 10 || !IsSquare(x.Value() + 1))
    ensures x.Valid() && x.Value() == old(x.Value())
    ensures result.None? <==> x.Value() < 10
    ensures result.Some? ==> result.value.Valid() && IsRoot(x.Value(), result.value.Value())
  {
    var start := StartingRoot(x);
    if start.None? {
      return None;
    }
    var root := start.value;
    ghost var v := x.Value();
    ghost var a := RootExists(v);
    while true
      invariant fresh(root) && root.Valid() && root.Value() >= 1 && x.Valid() && x.Value() == v
      decreases if root.Value() < a then 1 else 0, root.Value()
    {
      ghost var r := root.Value();
      var newroot := Step(x, root);
      NewtonPositive(v, r);
      NewtonBounds(v, r, a);
      FixedPoint(v, r, a);
      var same := root.Equal(newroot);
      if same {
        break;
      }
      root := newroot;
    }
    result := Some(root);
  }

  /** As many digits 4 as half the digits of x. */
  method StartingRoot(x: DecInt) returns (start: Option<DecInt>)
    requires x.Valid() && x.sign == 1
    ensures start.None? <==> x.Value() < 10
    ensures start.Some? ==> fresh(start.value) && start.value.Valid() && start.value.Value() >= 1
  {
    var t := ToText(x);
    ghost var s :| Plain(s) && t == "" + s && x.Value() == DecimalValue(s);
    TwoDigits(s);
    var digits := Fours(|t| / 2);
    if digits != "" { FoursValue(|digits|); }
    start := FromText(digits, 0);
    if digits == "" { assert StripSpace("") == ""; }
  }

  // ----- Euclid's algorithm -----

  ghost predicate Divides(d: int, n: int) {
    exists k :: n == d * k
  }

  /** g is a greatest common divisor: its divisors are the common divisors. */
  ghost predicate IsGcd(g: int, a: int, b: int) {
    forall d :: Divides(d, g) <==> Divides(d, a) && Divides(d, b)
  }

  lemma {:induction false} DividesSum(d: int, a: int, b: int, q: int)
    requires Divides(d, a) && Divides(d, b)
    ensures Divides(d, q * a + b)
  {
    var k :| a == d * k;
    var l :| b == d * l;
    Distrib(d, q * k, l);
    assert d * (q * k) == q * (d * k);
    assert q * a + b == d * (q * k + l);
  }

  /** The common divisors stay the same when one number is replaced by its remainder by the other. */
  lemma {:induction false} SameDivisors(d: int, a: int, b: int, q: int, r: int)
    requires b == q * a + r
    ensures Divides(d, a) && Divides(d, b) <==> Divides(d, r) && Divides(d, a)
  {
    if Divides(d, a) && Divides(d, r) { DividesSum(d, a, r, q); }
    if Divides(d, a) && Divides(d, b) {
      DividesSum(d, a, b, -q);
      assert -q * a + b == r;
    }
  }

  lemma {:induction false} ZeroDivided(d: int)
    ensures Divides(d, 0)
  {
    assert 0 == d * 0;
  }

  lemma {:induction false} GcdStep(x: int, y: int, a: int, b: int, q: int, r: int)
    requires a != 0 && IsFloorDivision(b, a, q, r)
    requires forall d :: Divides(d, a) && Divides(d, b) <==> Divides(d, x) && Divides(d, y)
    ensures forall d :: Divides(d, r) && Divides(d, a) <==> Divides(d, x) && Divides(d, y)
    ensures (if a > 0 then 0 <= r < a else a < r <= 0)
  {
    forall d ensures Divides(d, r) && Divides(d, a) <==> Divides(d, x) && Divides(d, y) {
      SameDivisors(d, a, b, q, r);
    }
  }

  ghost function Size(n: int): nat {
    if n < 0 then -n else n
  }

  /** gcd: a greatest common divisor, with the sign of the first number unless that is zero. */
  method Gcd(first: DecInt, second: DecInt) returns (g: DecInt)
    requires first.Valid() && second.Valid()
    modifies first`terms, first`power
    ensures first.Valid() && first.Value() == old(first.Value())
    ensures second.Valid() && second.Value() == old(second.Value())
    ensures g.Valid() && IsGcd(g.Value(), first.Value(), second.Value())
    ensures first.Value() > 0 ==> g.Value() > 0
    ensures first.Value() < 0 ==> g.Value() < 0
    ensures first.Value() == 0 ==> g.Value() == second.Value()
  {
    ghost var (x, y) := (first.Value(), second.Value());
    var a, b := first, second;
    var more := a.IsNonzero();
    while more
      invariant a.Valid() && b.Valid() && first.Valid() && second.Valid() && (more <==> a.Value() != 0)
      invariant (a == first || fresh(a)) && first.Value() == x && second.Value() == y
      invariant a == first ==> b == second
      invariant forall d :: Divides(d, a.Value()) && Divides(d, b.Value()) <==> Divides(d, x) && Divides(d, y)
      invariant a != first && x >= 0 ==> x > 0 && a.Value() >= 0 && b.Value() > 0
      invariant a != first && x < 0 ==> a.Value() <= 0 && b.Value() < 0
      decreases Size(a.Value())
    {
      var division := b.DivMod(a);
      GcdStep(x, y, a.Value(), b.Value(), division.value.0.Value(), division.value.1.Value());
      a, b := division.value.1, a;
      more := a.IsNonzero();
    }
    g := b;
    forall d ensures Divides(d, 0) { ZeroDivided(d); }
  }
}
