/**
  Division of digit lists by David Smith's algorithm: the quotient digits are guesses, the
  identity x = q * y + r holds whatever they are, and remainder_norm repairs the remainder.
*/
module Division {
  import opened Arith
  import opened Poly
  import opened ToomCook

  ghost predicate Digits(x: seq<int>, R: int) {
    forall i :: 0 <= i < |x| ==> 0 <= x[i] < R
  }

  /** The normal form of a number: digits in [0, R), and no leading zero except in [0]. */
  ghost predicate Canonical(x: seq<int>, R: int) {
    x != [] && Digits(x, R) && (|x| > 1 ==> x[|x| - 1] != 0)
  }

  lemma {:induction false} DigitsVal(x: seq<int>, R: int)
    requires R >= 1 && Digits(x, R)
    ensures 0 <= Val(x, R) < Pow(R, |x|)
  {
    if x != [] {
      DigitsVal(x[1..], R);
      var (v, p) := (Val(x[1..], R), Pow(R, |x| - 1));
      MulMono(R, 0, v);
      MulMono(R, v, p - 1);
      DistribSub(R, p, 1);
    }
  }

  lemma {:induction false} CanonicalVal(x: seq<int>, R: int)
    requires R >= 2 && Canonical(x, R)
    ensures Val(x, R) == 0 <==> x == [0]
    ensures x != [0] ==> Pow(R, |x| - 1) <= Val(x, R) < Pow(R, |x|)
  {
    var k := |x| - 1;
    DigitsVal(x, R);
    DigitsVal(x[..k], R);
    ValSplit(x, k, R);
    assert x[k..] == [x[k]];
    ValOne(x[k], R);
    PowPos(R, k);
    if x[k] >= 1 {
      MulMono(Pow(R, k), 1, x[k]);
    } else {
      assert x == [0];
    }
  }

  /** A number has only one normal form. */
  lemma {:induction false} CanonicalUnique(x: seq<int>, y: seq<int>, R: int)
    requires R >= 2 && Canonical(x, R) && Canonical(y, R) && Val(x, R) == Val(y, R)
    ensures x == y
  {
    if |x| < |y| {
      LongerIsLarger(x, y, R);
    } else if |y| < |x| {
      LongerIsLarger(y, x, R);
    } else {
      DigitsUnique(x, y, R);
    }
  }

  lemma {:induction false} LongerIsLarger(x: seq<int>, y: seq<int>, R: int)
    requires R >= 2 && Canonical(x, R) && Canonical(y, R) && |x| < |y|
    ensures Val(x, R) < Val(y, R)
  {
    DigitsVal(x, R);
    CanonicalVal(y, R);
    PowMono(R, |x|, |y| - 1);
  }

  lemma {:induction false} DigitsUnique(x: seq<int>, y: seq<int>, R: int)
    requires R >= 1 && |x| == |y| && Digits(x, R) && Digits(y, R) && Val(x, R) == Val(y, R)
    ensures x == y
  {
    if x != [] {
      var (v, w) := (Val(x[1..], R), Val(y[1..], R));
      DivUnique(Val(x, R), R, v, x[0]);
      DivUnique(Val(y, R), R, w, y[0]);
      DigitsUnique(x[1..], y[1..], R);
      assert x == [x[0]] + x[1..] && y == [y[0]] + y[1..];
    }
  }

  lemma {:induction false} StripCanonical(x: seq<int>, R: int)
    requires x != [] && Digits(x, R)
    ensures Canonical(Strip(x), R) && Val(Strip(x), R) == Val(x, R)
  {
    StripShape(x);
    StripVal(x, R);
    var s := Strip(x);
    forall i | 0 <= i < |s| ensures 0 <= s[i] < R { assert x[i] == s[i]; }
  }

  // ----- single numbers -----

  /** Horner's rule from the most significant term. */
  method ToLong(x: seq<int>, R: int) returns (res: int)
    ensures res == Val(x, R)
  {
    res := 0;
    var i := |x|;
    while i > 0
      invariant 0 <= i <= |x| && res == Val(x[i..], R)
    {
      i := i - 1;
      assert x[i..][1..] == x[i + 1..];
      res := res * R + x[i];
    }
    assert x[0..] == x;
  }

  /** The builtin divmod, for a positive divisor. */
  method DivMod(n: int, R: int) returns (d: int, m: int)
    requires R >= 1
    ensures n == R * d + m && 0 <= m < R
    ensures n >= 0 <==> d >= 0
    ensures R >= 2 && n > 0 ==> d < n
  {
    d, m := n / R, n % R;
    if n >= 0 && d < 0 { MulMono(R, d, -1); }
    if n < 0 && d >= 0 { MulMono(R, 0, d); }
    if R >= 2 && n > 0 && d >= n { MulMono(R, n, d); MulMono(n, 2, R); }
  }

  method FromLong(x: nat, R: int) returns (res: seq<int>)
    requires R >= 2
    ensures Canonical(res, R) && Val(res, R) == x
  {
    if x == 0 {
      assert Val([0], R) == 0 by { ValOne(0, R); }
      return [0];
    }
    res := [];
    var n := x;
    while n > 0
      invariant Digits(res, R) && n >= 0 && Val(res, R) + Pow(R, |res|) * n == x
      invariant n == 0 ==> res != [] && res[|res| - 1] != 0
    {
      var d, m := DivMod(n, R);
      AppendDigit(res, R, n, d, m);
      n := d;
      res := res + [m];
    }
  }

  lemma {:induction false} AppendDigit(res: seq<int>, R: int, n: int, d: int, m: int)
    requires n == R * d + m
    ensures Val(res + [m], R) + Pow(R, |res| + 1) * d == Val(res, R) + Pow(R, |res|) * n
  {
    ValAppend(res, [m], R);
    ValOne(m, R);
    var p := Pow(R, |res|);
    Distrib(p, R * d, m);
    Assoc(p, R, d);
    assert Pow(R, |res| + 1) == R * p;
  }

  /** Propagates carries from the first term on and returns the carry out of the last one. */
  method CarryPass(x: seq<int>, R: int) returns (y: seq<int>, carry: int)
    requires R >= 1
    ensures |y| == |x| && Digits(y, R) && Val(y, R) + Pow(R, |x|) * carry == Val(x, R)
  {
    y, carry := [], 0;
    for i := 0 to |x|
      invariant |y| == i && Digits(y, R) && Val(y, R) + Pow(R, i) * carry == Val(x[..i], R)
    {
      var d, m := DivMod(carry + x[i], R);
      AppendDigit(y, R, carry + x[i], d, m);
      assert x[..i + 1] == x[..i] + [x[i]];
      ValAppend(x[..i], [x[i]], R);
      ValOne(x[i], R);
      Distrib(Pow(R, i), carry, x[i]);
      y, carry := y + [m], d;
    }
    assert x[..|x|] == x;
  }

  /** Appending the remaining carry as digits. */
  method DivNorm(x: seq<int>, R: int) returns (res: seq<int>)
    requires R >= 2 && x != [] && Val(x, R) >= 0
    ensures Canonical(res, R) && Val(res, R) == Val(x, R)
  {
    var carry;
    res, carry := CarryPass(x, R);
    FloorSign(Val(res, R), Pow(R, |x|), carry) by { DigitsVal(res, R); }
    assert carry >= 0;
    while carry >= R
      invariant res != [] && carry >= 0 && Digits(res, R) && Val(res, R) + Pow(R, |res|) * carry == Val(x, R)
    {
      var d, m := DivMod(carry, R);
      AppendDigit(res, R, carry, d, m);
      res, carry := res + [m], d;
    }
    if carry != 0 {
      AppendDigit(res, R, carry, 0, carry);
      res := res + [carry];
    }
    StripCanonical(res, R);
    res := StripZeros(res);
  }

  /** The carry out of n digits has the sign of the value. */
  lemma {:induction false} FloorSign(low: int, p: int, carry: int)
    requires 0 <= low < p
    ensures low + p * carry >= 0 <==> carry >= 0
    ensures low + p * carry < p <==> carry <= 0
  {
    if carry >= 0 { MulMono(p, 0, carry); } else { MulMono(p, carry, -1); }
    if carry >= 1 { MulMono(p, 1, carry); }
  }

  /** Comparison from the most significant term down. */
  method Ge(x: seq<int>, y: seq<int>, R: int) returns (r: bool)
    requires R >= 1 && |x| == |y| && Digits(x, R) && Digits(y, R)
    ensures r <==> Val(x, R) >= Val(y, R)
  {
    var i := |x|;
    while i > 0
      invariant 0 <= i <= |x| && x[i..] == y[i..]
    {
      i := i - 1;
      if y[i] > x[i] {
        Decides(x, y, i, R);
        return false;
      } else if y[i] < x[i] {
        Decides(y, x, i, R);
        return true;
      }
      assert x[i..] == [x[i]] + x[i + 1..] && y[i..] == [y[i]] + y[i + 1..];
    }
    return true;
  }

  lemma {:induction false} Decides(x: seq<int>, y: seq<int>, i: nat, R: int)
    requires R >= 1 && |x| == |y| && Digits(x, R) && Digits(y, R)
    requires i < |x| && x[i + 1..] == y[i + 1..] && x[i] < y[i]
    ensures Val(x, R) < Val(y, R)
  {
    SplitAt(x, i + 1, i, R);
    SplitAt(y, i + 1, i, R);
    assert x[i..i + 1] == [x[i]] && y[i..i + 1] == [y[i]];
    ValOne(x[i], R);
    ValOne(y[i], R);
    DigitsVal(x[..i], R);
    DigitsVal(y[..i], R);
    MulMono(Pow(R, i), x[i] + 1, y[i]);
    Distrib(Pow(R, i), x[i], 1);
  }

  // ----- remainder_norm -----

  /** All digits in range but the last one, which has absorbed the carry. */
  ghost predicate Carried(x: seq<int>, carry: int, R: int) {
    |x| >= 2 && Digits(x[..|x| - 1], R) && 0 <= x[|x| - 1] - R * carry < R
  }

  /** The carry pass; the carry out of the last term is put back on it, so that the value is kept. */
  method NormPass(x: seq<int>, R: int) returns (y: seq<int>, carry: int)
    requires R >= 1 && |x| >= 2
    ensures |y| == |x| && Carried(y, carry, R) && Val(y, R) == Val(x, R)
  {
    var n := |x|;
    y, carry := CarryPass(x, R);
    ghost var was := y;
    y := y[n - 1 := y[n - 1] + carry * R];
    AddTop(was, carry * R, R);
    Assoc(Pow(R, n - 1), carry, R);
    Assoc(Pow(R, n - 1), R, carry);
    assert Pow(R, n) == R * Pow(R, n - 1);
  }

  lemma {:induction false} AddTop(x: seq<int>, d: int, R: int)
    requires x != []
    ensures var k := |x| - 1; Val(x[k := x[k] + d], R) == Val(x, R) + Pow(R, k) * d
  {
    var k := |x| - 1;
    ValSplit(x, k, R);
    ValSplit(x[k := x[k] + d], k, R);
    assert x[k..] == [x[k]] && x[k := x[k] + d][k..] == [x[k] + d];
    ValOne(x[k], R);
    ValOne(x[k] + d, R);
    Distrib(Pow(R, k), x[k], d);
  }

  /** The carry tells whether the value is negative, in range, or too large for the list. */
  lemma {:induction false} CarriedVal(x: seq<int>, carry: int, R: int)
    requires R >= 1 && Carried(x, carry, R)
    ensures Val(x, R) >= 0 <==> carry >= 0
    ensures Val(x, R) < Pow(R, |x|) <==> carry <= 0
    ensures carry == 0 ==> Digits(x, R)
  {
    var k := |x| - 1;
    var y := x[k := x[k] - R * carry];
    assert Digits(y, R) by {
      forall i | 0 <= i < |y| ensures 0 <= y[i] < R { if i < k { assert y[i] == x[..k][i]; } }
    }
    RemoveCarry(x, carry, R);
    DigitsVal(y, R);
    FloorSign(Val(y, R), Pow(R, |x|), carry);
    if carry == 0 { assert y == x; }
  }

  lemma {:induction false} RemoveCarry(x: seq<int>, carry: int, R: int)
    requires x != []
    ensures var k := |x| - 1; Val(x, R) == Val(x[k := x[k] - R * carry], R) + Pow(R, |x|) * carry
  {
    var k := |x| - 1;
    var y := x[k := x[k] - R * carry];
    AddTop(y, R * carry, R);
    assert y[k := y[k] + R * carry] == x;
    Assoc(Pow(R, k), R, carry);
    assert Pow(R, |x|) == R * Pow(R, k);
  }

  /** The top two terms are the value divided by the weight of the lower of them. */
  lemma {:induction false} TopTwo(x: seq<int>, carry: int, R: int)
    requires R >= 1 && Carried(x, carry, R)
    ensures var (n, low) := (|x|, Val(x[..|x| - 2], R));
            Val(x, R) == low + Pow(R, n - 2) * Val(x[n - 2..], R) && 0 <= low < Pow(R, n - 2)
  {
    var n := |x|;
    ValSplit(x, n - 2, R);
    forall i | 0 <= i < n - 2 ensures 0 <= x[i] < R { assert x[i] == x[..n - 1][i]; }
    DigitsVal(x[..n - 2], R);
  }

  /** The leading part of a canonical divisor. */
  lemma {:induction false} DivisorTop(y: seq<int>, R: int, t: nat)
    requires R >= 2 && Canonical(y, R) && 1 <= t <= |y| && |y| >= 2
    ensures var (low, top, p) := (Val(y[..|y| - t], R), Val(y[|y| - t..], R), Pow(R, |y| - t));
            Val(y, R) == low + p * top && 0 <= low < p && Pow(R, t - 1) <= top < Pow(R, t)
  {
    ValSplit(y, |y| - t, R);
    DigitsVal(y[..|y| - t], R);
    assert Canonical(y[|y| - t..], R);
    CanonicalVal(y[|y| - t..], R);
  }

  /**
    One correction step: V = low + P * A, D = dl + P * Dd, and A // Dd times D is subtracted.
    From above the value may fall below zero, from below it may overshoot, but not by much.
  */
  lemma {:induction false} StepBounds(V: int, low: int, P: int, A: int, D: int, dl: int, Dd: int, s: int, rho: int)
    requires V == low + P * A && 0 <= low < P && D == dl + P * Dd && 0 <= dl < P && Dd >= 1
    requires A == Dd * s + rho && 0 <= rho < Dd
    ensures s >= 0 ==> -(P * s) <= V - s * D < D
    ensures s < 0 ==> 0 <= V - s * D < P * (Dd - s)
    ensures s < 0 ==> V < 0
  {
    StepIdentity(V, low, P, A, D, dl, Dd, s, rho);
    if s >= 0 {
      StepDown(V - s * D, low, P, dl, Dd, s, rho);
    } else {
      StepUp(V - s * D, low, P, dl, Dd, -s, rho);
      MulMono(Dd, s, -1);
      MulMono(P, A, -1);
    }
  }

  lemma {:induction false} StepDown(W: int, low: int, P: int, dl: int, Dd: int, s: int, rho: int)
    requires W == low + P * rho - s * dl && 0 <= low < P && 0 <= dl < P && 0 <= rho < Dd && s >= 0
    ensures -(P * s) <= W < dl + P * Dd
  {
    MulMono(P, 0, rho);
    MulMono(P, rho + 1, Dd);
    Distrib(P, rho, 1);
    MulMono(s, 0, dl);
    MulMono(s, dl, P);
  }

  lemma {:induction false} StepUp(W: int, low: int, P: int, dl: int, Dd: int, n: int, rho: int)
    requires W == low + P * rho + n * dl && 0 <= low < P && 0 <= dl < P && 0 <= rho < Dd && n > 0
    ensures 0 <= W < P * (Dd + n)
  {
    MulMono(P, 0, rho);
    MulMono(P, rho + 1, Dd);
    Distrib(P, rho, 1);
    MulMono(n, 0, dl);
    MulMono(n, dl, P);
    Distrib(P, Dd, n);
  }

  lemma {:induction false} StepIdentity(V: int, low: int, P: int, A: int, D: int, dl: int, Dd: int, s: int, rho: int)
    requires V == low + P * A && D == dl + P * Dd && A == Dd * s + rho
    ensures V - s * D == low + P * rho - s * dl
  {
    Distrib(P, Dd * s, rho);
    Distrib(s, dl, P * Dd);
    Assoc(P, Dd, s);
    assert s * (P * Dd) == (P * Dd) * s;
  }

  /** V // W, by repeated addition or subtraction. */
  ghost function Floor(V: int, W: int): int
    requires W >= 1
    decreases if V < 0 then W - V else V
  {
    if V < 0 then Floor(V + W, W) - 1 else if V < W then 0 else 1 + Floor(V - W, W)
  }

  lemma {:induction false} FloorBounds(V: int, W: int, lo: int, hi: int)
    requires W >= 1 && W * lo <= V < W * hi
    ensures lo <= Floor(V, W) < hi
    decreases if V < 0 then W - V else V
  {
    if V < 0 {
      Distrib(W, lo, 1);
      Distrib(W, hi, 1);
      FloorBounds(V + W, W, lo + 1, hi + 1);
    } else if V < W {
      if lo >= 1 { MulMono(W, 1, lo); }
      if hi <= 0 { MulMono(W, hi, 0); }
    } else {
      DistribSub(W, lo, 1);
      DistribSub(W, hi, 1);
      FloorBounds(V - W, W, lo - 1, hi - 1);
    }
  }

  /** The size of the next scale factor V // W: what shrinks from step to step. */
  ghost function Measure(V: int, W: int): nat
    requires W >= 1
  {
    var s := Floor(V, W);
    if s > 0 then 2 * s + 1 else -2 * s
  }

  lemma {:induction false} FloorIs(V: int, low: int, P: int, A: int, Dd: int, s: int, rho: int)
    requires V == low + P * A && 0 <= low < P && A == Dd * s + rho && 0 <= rho < Dd
    ensures P * Dd >= 1 && Floor(V, P * Dd) == s
  {
    MulPos(P, Dd);
    Distrib(P, Dd * s, rho);
    Assoc(P, Dd, s);
    MulMono(P, 0, rho);
    MulMono(P, rho + 1, Dd);
    Distrib(P, rho, 1);
    Distrib(P * Dd, s, 1);
    FloorBounds(V, P * Dd, s, s + 1);
  }

  /** While the list still overflows, the scale factors shrink. */
  lemma {:induction false} Shrinks(V: int, low: int, P: int, A: int, D: int, dl: int, Dd: int, s: int, rho: int, max: int)
    requires V == low + P * A && 0 <= low < P && D == dl + P * Dd && 0 <= dl < P && Dd >= 2
    requires A == Dd * s + rho && 0 <= rho < Dd
    requires D < max && P * (Dd + 1) <= max
    requires V < 0 || V >= max
    requires V - s * D < 0 || V - s * D >= max
    ensures P * Dd >= 1 && Measure(V - s * D, P * Dd) < Measure(V, P * Dd)
  {
    var W := V - s * D;
    StepBounds(V, low, P, A, D, dl, Dd, s, rho);
    FloorIs(V, low, P, A, Dd, s, rho);
    if s >= 0 {
      ShrinkDown(W, P, Dd, s);
    } else {
      ShrinkUp(W, P, Dd, -s);
    }
  }

  lemma {:induction false} ShrinkDown(W: int, P: int, Dd: int, s: int)
    requires P >= 1 && Dd >= 1 && P * Dd >= 1 && s >= 0 && -(P * s) <= W < 0
    ensures s >= 1 && -s <= Floor(W, P * Dd) < 0
  {
    MulMono(s, 1, Dd);
    MulMono(P, s, Dd * s);
    Assoc(P, Dd, s);
    FloorBounds(W, P * Dd, -s, 0);
  }

  lemma {:induction false} ShrinkUp(W: int, P: int, Dd: int, s: int)
    requires P >= 1 && Dd >= 2 && P * Dd >= 1 && s >= 1 && P * (Dd + 1) <= W < P * (Dd + s)
    ensures s >= 2 && 0 <= Floor(W, P * Dd) < s
  {
    if s < 2 { MulMono(P, Dd + s, Dd + 1); }
    MulMono(P, 0, Dd + 1);
    // Dd + s <= Dd * s because (Dd - 1) * (s - 1) >= 1
    MulPos(Dd - 1, s - 1);
    DistribSub(Dd - 1, s, 1);
    assert (Dd - 1) * s == Dd * s - s;
    MulMono(P, Dd + s, Dd * s);
    Assoc(P, Dd, s);
    FloorBounds(W, P * Dd, 0, s);
  }

  /** x + m * y */
  lemma {:induction false} ValLComb2a(x: seq<int>, m: int, y: seq<int>, R: int)
    requires |x| == |y|
    ensures Val(LComb2a(x, m, y), R) == Val(x, R) + m * Val(y, R)
  {
    assert LComb2a(x, m, y) == Add(x, Scale(m, y));
    ValAdd(x, Scale(m, y), R);
    ValScale(m, y, R);
  }

  /** The value of the divisor with all terms but the top two replaced by zeros. */
  ghost function TopValue(y: seq<int>, R: int): int
    requires |y| >= 2
  {
    Pow(R, |y| - 2) * Val(y[|y| - 2..], R)
  }

  /** Guess a scale factor from the top two terms, and subtract that many divisors. */
  method Reduce(x: seq<int>, divisor: seq<int>, carry: int, R: int) returns (x': seq<int>, carry': int, scale: int)
    requires R >= 2 && |x| == |divisor| >= 2 && Canonical(divisor, R) && Carried(x, carry, R)
    ensures |x'| == |x| && Carried(x', carry', R)
    ensures Val(x', R) == Val(x, R) - scale * Val(divisor, R)
    ensures carry != 0 && carry' != 0 ==>
      var W := TopValue(divisor, R); W >= 1 && Measure(Val(x', R), W) < Measure(Val(x, R), W)
    ensures carry == 0 && Val(x, R) >= Val(divisor, R) ==> -Val(divisor, R) < Val(x', R) < Val(divisor, R)
  {
    ghost var rho;
    scale, rho := GuessScale(x, divisor, R);
    var y := SubtractMultiple(x, scale, divisor, R);
    x', carry' := NormPass(y, R);
    ReduceBounds(x, divisor, carry, x', carry', scale, rho, R);
  }

  method SubtractMultiple(x: seq<int>, scale: int, divisor: seq<int>, R: int) returns (y: seq<int>)
    requires |x| == |divisor|
    ensures |y| == |x| && Val(y, R) == Val(x, R) - scale * Val(divisor, R)
  {
    y := LComb2a(x, -scale, divisor);
    ValLComb2a(x, -scale, divisor, R);
    NegTimes(scale, Val(divisor, R));
  }

  lemma {:induction false} NegTimes(s: int, d: int)
    ensures -s * d == -(s * d)
  {}

  /** The quotient of the leading two terms. */
  method GuessScale(x: seq<int>, divisor: seq<int>, R: int) returns (scale: int, ghost rho: int)
    requires R >= 2 && |x| == |divisor| >= 2 && Canonical(divisor, R)
    ensures Val(x[|x| - 2..], R) == Val(divisor[|x| - 2..], R) * scale + rho
    ensures 0 <= rho < Val(divisor[|x| - 2..], R)
  {
    DivisorTop(divisor, R, 2);
    PowPos(R, 1);
    var top := ToLong(x[|x| - 2..], R);
    var dtop := ToLong(divisor[|x| - 2..], R);
    scale, rho := DivMod(top, dtop);
  }

  lemma {:induction false} ReduceBounds(x: seq<int>, y: seq<int>, carry: int, x': seq<int>, carry': int, s: int,
                                       rho: int, R: int)
    requires R >= 2 && |x| == |x'| == |y| >= 2 && Canonical(y, R) && Carried(x, carry, R) && Carried(x', carry', R)
    requires Val(x[|x| - 2..], R) == Val(y[|x| - 2..], R) * s + rho && 0 <= rho < Val(y[|x| - 2..], R)
    requires Val(x', R) == Val(x, R) - s * Val(y, R)
    ensures carry != 0 && carry' != 0 ==>
      var W := TopValue(y, R); W >= 1 && Measure(Val(x', R), W) < Measure(Val(x, R), W)
    ensures carry == 0 && Val(x, R) >= Val(y, R) ==> -Val(y, R) < Val(x', R) < Val(y, R)
  {
    var n := |x|;
    var (V, low, P, A) := (Val(x, R), Val(x[..n - 2], R), Pow(R, n - 2), Val(x[n - 2..], R));
    var (D, dl, Dd, max) := (Val(y, R), Val(y[..n - 2], R), Val(y[n - 2..], R), Pow(R, n));
    TopTwo(x, carry, R);
    DivisorTop(y, R, 2);
    CarriedVal(x, carry, R);
    CarriedVal(x', carry', R);
    CanonicalVal(y, R);
    assert Pow(R, 2) == R * (R * Pow(R, 0)) && Pow(R, 1) == R * Pow(R, 0);
    PowAdd(R, n - 2, 2);
    PowAdd(R, n - 2, 1);
    MulMono(P, Dd + 1, Pow(R, 2));
    if carry != 0 && carry' != 0 {
      Shrinks(V, low, P, A, D, dl, Dd, s, rho, max);
    }
    if carry == 0 && V >= D {
      DivUnique(A, Dd, s, rho);
      StepBounds(V, low, P, A, D, dl, Dd, s, rho);
      SmallScale(V, low, P, A, R, Dd, s);
      MulMono(P, s, R - 1);
      DistribSub(P, R, 1);
    }
  }

  /** Below R^n, with a divisor of n terms, the scale factor is less than R. */
  lemma {:induction false} SmallScale(V: int, low: int, P: int, A: int, R: int, Dd: int, s: int)
    requires R >= 2 && V == low + P * A && 0 <= low < P && 0 <= V < P * (R * R) && Dd >= R && s == A / Dd
    ensures s <= R - 1
  {
    if A >= R * R { MulMono(P, R * R, A); }
    if s >= R {
      assert A == Dd * s + A % Dd;
      MulMono(Dd, R, s);
      MulMono(R, R, Dd);
    }
  }

  /** The first loop: until the remainder is non-negative and fits into the list. */
  method FixOverflow(x0: seq<int>, carry0: int, divisor: seq<int>, R: int) returns (count: int, x: seq<int>, carry: int)
    requires R >= 2 && |x0| == |divisor| >= 2 && Canonical(divisor, R) && Carried(x0, carry0, R)
    ensures |x| == |x0| && carry == 0 && Carried(x, carry, R)
    ensures Val(x, R) == Val(x0, R) + count * Val(divisor, R)
  {
    ghost var (D, W) := (Val(divisor, R), TopValue(divisor, R));
    TopPositive(divisor, R);
    x, carry, count := x0, carry0, 0;
    while carry != 0
      invariant |x| == |x0| && Carried(x, carry, R) && Val(x, R) == Val(x0, R) + count * D
      decreases if carry == 0 then 0 else Measure(Val(x, R), W) + 1
    {
      ghost var was := Val(x, R);
      var scale;
      x, carry, scale := Reduce(x, divisor, carry, R);
      SubMultiples(Val(x0, R), was, Val(x, R), count, scale, D);
      count := count - scale;
    }
  }

  lemma {:induction false} TopPositive(y: seq<int>, R: int)
    requires R >= 2 && Canonical(y, R) && |y| >= 2
    ensures TopValue(y, R) >= 1 && Val(y, R) >= 1
  {
    DivisorTop(y, R, 2);
    PowPos(R, 1);
    PowPos(R, |y| - 2);
    MulPos(Pow(R, |y| - 2), Val(y[|y| - 2..], R));
  }

  method AddDivisor(x: seq<int>, divisor: seq<int>, R: int) returns (x': seq<int>, carry: int)
    requires R >= 2 && |x| == |divisor| >= 2
    ensures |x'| == |x| && Carried(x', carry, R) && Val(x', R) == Val(x, R) + Val(divisor, R)
    ensures carry < 0 <==> Val(x', R) < 0
  {
    ValAdd(x, divisor, R);
    x', carry := NormPass(Add(x, divisor), R);
    CarriedVal(x', carry, R);
  }

  /** A remainder that fits but is no smaller than the divisor. */
  method FixLarge(x0: seq<int>, divisor: seq<int>, R: int) returns (count: int, x: seq<int>)
    requires R >= 2 && |x0| == |divisor| >= 2 && Canonical(divisor, R) && Digits(x0, R)
    requires Val(x0, R) >= Val(divisor, R)
    ensures |x| == |x0| && Digits(x, R) && Val(x, R) == Val(x0, R) + count * Val(divisor, R)
    ensures 0 <= Val(x, R) < Val(divisor, R)
  {
    ghost var D := Val(divisor, R);
    var carry, scale;
    x, carry, scale := Reduce(x0, divisor, 0, R);
    count := 0 - scale;
    SubMultiples(Val(x0, R), Val(x0, R), Val(x, R), 0, scale, D);
    CarriedVal(x, carry, R);
    // The source loops here; one addition is always enough.
    while carry < 0
      invariant |x| == |x0| && Carried(x, carry, R) && Val(x, R) == Val(x0, R) + count * D
      invariant -D < Val(x, R) < D && (carry < 0 <==> Val(x, R) < 0)
      decreases if carry < 0 then 1 else 0
    {
      ghost var was := Val(x, R);
      x, carry := AddDivisor(x, divisor, R);
      AddMultiples(Val(x0, R), was, Val(x, R), count, 1, D);
      count := count + 1;
    }
    CarryZero(x, carry, divisor, R);
    var large := Ge(x, divisor, R);
    // The last loop of the source, which subtracts the divisor while x >= divisor, is never entered.
    assert !large;
  }

  /**
    Normalizes the remainder after division; count is the number of multiples of the divisor
    that were added.
  */
  method RemainderNorm(rem: seq<int>, divisor: seq<int>, R: int) returns (count: int, x: seq<int>)
    requires R >= 2 && |divisor| >= 2 && Canonical(divisor, R) && |rem| <= |divisor|
    ensures Canonical(x, R)
    ensures Val(x, R) == Val(rem, R) + count * Val(divisor, R) && 0 <= Val(x, R) < Val(divisor, R)
  {
    ValPad(rem, |divisor| - |rem|, R);
    var carry;
    x, carry := NormPass(rem + Zeros(|divisor| - |rem|), R);
    count, x, carry := FixOverflow(x, carry, divisor, R);
    CarriedVal(x, carry, R);
    var large := Ge(x, divisor, R);
    if large {
      var more;
      ghost var was := Val(x, R);
      more, x := FixLarge(x, divisor, R);
      AddMultiples(Val(rem, R), was, Val(x, R), count, more, Val(divisor, R));
      count := count + more;
    }
    StripCanonical(x, R);
    x := StripZeros(x);
  }

  lemma {:induction false} AddMultiples(a: int, b: int, c: int, m: int, n: int, d: int)
    requires b == a + m * d && c == b + n * d
    ensures c == a + (m + n) * d
  {}

  lemma {:induction false} CarryZero(x: seq<int>, carry: int, y: seq<int>, R: int)
    requires R >= 2 && |x| == |y| >= 2 && Canonical(y, R) && Carried(x, carry, R) && 0 <= Val(x, R) < Val(y, R)
    ensures carry == 0 && Digits(x, R)
  {
    CarriedVal(x, carry, R);
    DigitsVal(y, R);
  }

  lemma {:induction false} SubMultiples(a: int, b: int, c: int, m: int, n: int, d: int)
    requires b == a + m * d && c == b - n * d
    ensures c == a + (m - n) * d
  {}

  // ----- Smith's division -----

  function Reverse(s: seq<int>): (r: seq<int>)
    ensures |r| == |s|
  {
    if s == [] then [] else Reverse(s[1..]) + [s[0]]
  }

  lemma {:induction false} ReverseAppend(s: seq<int>, d: int)
    ensures Reverse(s + [d]) == [d] + Reverse(s)
  {
    if s == [] {
      assert [d][1..] == [];
    } else {
      ReverseAppend(s[1..], d);
      assert (s + [d])[1..] == s[1..] + [d];
    }
  }

  /** Merges the top term into the one below it. */
  function FoldTop(r: seq<int>, R: int): (f: seq<int>)
    requires |r| >= 2
    ensures |f| == |r| - 1
  {
    var n := |r|;
    r[..n - 1][n - 2 := r[n - 2] + R * r[n - 1]]
  }

  lemma {:induction false} FoldTopVal(r: seq<int>, R: int)
    requires |r| >= 2
    ensures Val(FoldTop(r, R), R) == Val(r, R)
  {
    var n := |r|;
    AddTop(r[..n - 1], R * r[n - 1], R);
    ValSplit(r, n - 1, R);
    assert r[n - 1..] == [r[n - 1]];
    ValOne(r[n - 1], R);
    Assoc(Pow(R, n - 2), R, r[n - 1]);
    assert Pow(R, n - 1) == R * Pow(R, n - 2);
  }

  /**
    The state of a long division: what is left in r, together with the quotient digits found
    so far (q, most significant first) times the divisor, is the dividend.
  */
  ghost predicate LongDivision(x: seq<int>, y: seq<int>, r: seq<int>, q: seq<int>, R: int) {
    |r| + 1 >= |y| && Val(x, R) == Val(r, R) + Pow(R, |r| + 1 - |y|) * (Val(Reverse(q), R) * Val(y, R))
  }

  /** Subtracting d times the divisor from the top of r adds the quotient digit d, whatever d is. */
  lemma {:induction false} QuotientStep(x: seq<int>, y: seq<int>, r: seq<int>, q: seq<int>, d: int, R: int)
    requires |y| >= 2 && |r| >= |y| && LongDivision(x, y, r, q, R)
    ensures var start := |r| - |y|;
            LongDivision(x, y, FoldTop(AddAt(r, start, Scale(-d, y)), R), q + [d], R)
  {
    var start := |r| - |y|;
    var r' := AddAt(r, start, Scale(-d, y));
    ValAddAt(r, start, Scale(-d, y), R);
    ValScale(-d, y, R);
    FoldTopVal(r', R);
    ReverseAppend(q, d);
    assert ([d] + Reverse(q))[1..] == Reverse(q);
    QuotientSum(Val(r, R), Pow(R, start), d, Val(Reverse(q), R), Val(y, R), R);
  }

  lemma {:induction false} QuotientSum(r: int, p: int, d: int, q: int, y: int, R: int)
    ensures r + (R * p) * (q * y) == r + p * (-d * y) + p * ((d + R * q) * y)
  {
    Distrib(y, d, R * q);
    Assoc(R, q, y);
    Distrib(p, -d * y, d * y + R * (q * y));
    Assoc(p, R, q * y);
  }

  /** Quotient and remainder in normal form. */
  ghost predicate IsDivision(x: seq<int>, y: seq<int>, q: seq<int>, r: seq<int>, R: int) {
    && Canonical(q, R) && Canonical(r, R)
    && Val(x, R) == Val(q, R) * Val(y, R) + Val(r, R) && 0 <= Val(r, R) < Val(y, R)
  }

  /** IsDivision determines quotient and remainder: they are those of the integers. */
  lemma {:induction false} IsDivisionMeans(x: seq<int>, y: seq<int>, q: seq<int>, r: seq<int>, R: int)
    requires R >= 2 && IsDivision(x, y, q, r, R)
    ensures Val(q, R) == Val(x, R) / Val(y, R) && Val(r, R) == Val(x, R) % Val(y, R)
  {
    DivUnique(Val(x, R), Val(y, R), Val(q, R), Val(r, R));
  }

  /** So every division routine gives the same lists. */
  lemma {:induction false} SameDivision(x: seq<int>, y: seq<int>, q: seq<int>, r: seq<int>, q': seq<int>, r': seq<int>,
                                        R: int)
    requires R >= 2 && IsDivision(x, y, q, r, R) && IsDivision(x, y, q', r', R)
    ensures q == q' && r == r'
  {
    IsDivisionMeans(x, y, q, r, R);
    IsDivisionMeans(x, y, q', r', R);
    CanonicalUnique(q, q', R);
    CanonicalUnique(r, r', R);
  }

  /** The long division is complete: normalize the remainder and correct the quotient. */
  method FinishDivision(x: seq<int>, y: seq<int>, r: seq<int>, q: seq<int>, R: int)
    returns (quot: seq<int>, rem: seq<int>)
    requires R >= 2 && Digits(x, R) && Canonical(y, R) && |y| >= 2
    requires |r| == |y| - 1 && q != [] && LongDivision(x, y, r, q, R)
    ensures IsDivision(x, y, quot, rem, R)
  {
    quot := Reverse(q);
    var borrow;
    borrow, rem := RemainderNorm(r, y, R);
    ghost var (X, Y, Q, r0, r1) := (Val(x, R), Val(y, R), Val(quot, R), Val(r, R), Val(rem, R));
    quot := quot[0 := quot[0] - borrow];
    assert quot[1..] == Reverse(q)[1..];
    DigitsVal(x, R);
    assert Pow(R, 0) * (Q * Y) == Q * Y;
    BorrowSum(X, Y, Q, r0, r1, borrow);
    quot := DivNorm(quot, R);
  }

  lemma {:induction false} BorrowSum(X: int, Y: int, Q: int, r0: int, r1: int, borrow: int)
    requires X == r0 + Q * Y && r1 == r0 + borrow * Y && 0 <= r1 < Y && X >= 0
    ensures X == (Q - borrow) * Y + r1 && Q - borrow >= 0
  {
    DistribSub(Y, Q, borrow);
    if Q - borrow <= -1 { MulMono(Y, Q - borrow, -1); }
  }

  /** Division by one or two terms. */
  method SmallDivMod(lst: seq<int>, n: int, R: int) returns (res: seq<int>, rem: int)
    requires R >= 2 && n > 0 && lst != [] && Digits(lst, R)
    ensures Canonical(res, R) && Val(lst, R) == n * Val(res, R) + rem && 0 <= rem < n
  {
    res, rem := DivideTerms(lst, n, R);
    StripCanonical(res, R);
    res := StripZeros(res);
  }

  /** The cases in which no long division is needed; they are shared by both division routines. */
  method ShortDivision(x: seq<int>, y: seq<int>, R: int) returns (q: seq<int>, r: seq<int>)
    requires R >= 2 && Canonical(x, R) && Canonical(y, R) && y != [0]
    requires |y| > |x| || |y| <= 2
    ensures IsDivision(x, y, q, r, R)
  {
    CanonicalVal(y, R);
    PowPos(R, |y| - 1);
    if |y| > |x| {
      LongerIsLarger(x, y, R);
      DigitsVal(x, R);
      ValOne(0, R);
      return [0], x;
    } else if |y| == |x| == 1 {
      q, r := OneByOne(x, y, R);
    } else {
      var n := ToLong(y, R);
      q, r := ByNumber(x, n, R);
      Commuted(Val(y, R), Val(q, R));
    }
  }

  /** Division by a number of one or two terms; the remainder is turned into terms. */
  method ByNumber(x: seq<int>, n: int, R: int) returns (q: seq<int>, r: seq<int>)
    requires R >= 2 && n > 0 && x != [] && Digits(x, R)
    ensures Canonical(q, R) && Canonical(r, R) && Val(x, R) == n * Val(q, R) + Val(r, R) && 0 <= Val(r, R) < n
  {
    var rem;
    q, rem := SmallDivMod(x, n, R);
    r := FromLong(rem, R);
  }

  method OneByOne(x: seq<int>, y: seq<int>, R: int) returns (q: seq<int>, r: seq<int>)
    requires R >= 2 && Canonical(x, R) && Canonical(y, R) && y != [0] && |x| == |y| == 1
    ensures IsDivision(x, y, q, r, R)
  {
    var d, m := DivMod(x[0], y[0]);
    if d >= R { MulMono(d, 1, y[0]); }
    assert x == [x[0]] && y == [y[0]];
    ValOne(x[0], R); ValOne(y[0], R); ValOne(d, R); ValOne(m, R);
    q, r := [d], [m];
  }

  method SmithDiv(x: seq<int>, y: seq<int>, R: int) returns (q: seq<int>, r: seq<int>)
    requires R >= 2 && Canonical(x, R) && Canonical(y, R) && y != [0]
    ensures IsDivision(x, y, q, r, R)
  {
    if |y| > |x| || |y| <= 2 {
      q, r := ShortDivision(x, y, R);
      return;
    }
    var temp := if R <= 100 then 4 else if R <= 10000 then 3 else 2;
    var tsize := if temp < |y| - 1 then temp else |y| - 1;
    r, q := x, [];
    var yguess := ToLong(y[|y| - tsize..], R);
    DivisorTop(y, R, tsize);
    PowPos(R, tsize - 1);
    assert Reverse([]) == [];
    var ptr := |x| - tsize;
    while ptr > |y| - tsize - 1
      invariant |y| - tsize - 1 <= ptr <= |x| - tsize && |r| == ptr + tsize
      invariant LongDivision(x, y, r, q, R) && (ptr < |x| - tsize ==> q != [])
    {
      var xguess := ToLong(r[ptr..ptr + tsize], R);
      var qdigit, _ := DivMod(xguess, yguess);
      var start := ptr + tsize - |y|;
      QuotientStep(x, y, r, q, qdigit, R);
      q := q + [qdigit];
      r := SubtractAndFold(r, start, qdigit, y, R);
      ptr := ptr - 1;
    }
    q, r := FinishDivision(x, y, r, q, R);
  }

  /** Subtracts d times y from the terms of r from position start on, and folds the top of the result. */
  method SubtractAndFold(r: seq<int>, start: nat, d: int, y: seq<int>, R: int) returns (r': seq<int>)
    requires start + |y| <= |r| && |r| >= 2
    ensures r' == FoldTop(AddAt(r, start, Scale(-d, y)), R)
  {
    r' := SubtractAt(r, start, d, y);
    r' := FoldTop(r', R);
  }

  /** Subtracts d times y from the terms of r from position start on. */
  method SubtractAt(r: seq<int>, start: nat, d: int, y: seq<int>) returns (r': seq<int>)
    requires start + |y| <= |r|
    ensures r' == AddAt(r, start, Scale(-d, y))
  {
    r' := r[..start] + Sub(r[start..start + |y|], Scale(d, y)) + r[start + |y|..];
    assert Sub(r[start..start + |y|], Scale(d, y)) == Add(Scale(-d, y), r[start..start + |y|]);
  }
}
