/** Congruence of integers, and powers of two. */
module Modular {
  import opened Arith
  import opened Poly

  /** k * n, as repeated addition: keeps the verifier from multiplying out every congruence. */
  ghost function Times(k: int, n: int): int
    decreases if k < 0 then -k else k
  {
    if k == 0 then 0 else if k > 0 then Times(k - 1, n) + n else Times(k + 1, n) - n
  }

  lemma {:induction false} TimesIsProduct(k: int, n: int)
    ensures Times(k, n) == k * n
    decreases if k < 0 then -k else k
  {
    if k > 0 {
      TimesIsProduct(k - 1, n);
    } else if k < 0 {
      TimesIsProduct(k + 1, n);
    }
  }

  ghost predicate Cong(a: int, b: int, n: int) {
    exists k :: a - b == Times(k, n)
  }

  lemma {:induction false} CongIntro(a: int, b: int, k: int, n: int)
    requires a == b + k * n
    ensures Cong(a, b, n)
  {
    TimesIsProduct(k, n);
    assert a - b == Times(k, n);
  }

  lemma {:induction false} CongElim(a: int, b: int, n: int) returns (k: int)
    requires Cong(a, b, n)
    ensures a == b + k * n
  {
    k :| a - b == Times(k, n);
    TimesIsProduct(k, n);
  }

  lemma {:induction false} CongRefl(a: int, n: int)
    ensures Cong(a, a, n)
  {
    CongIntro(a, a, 0, n);
  }

  lemma {:induction false} CongTrans(a: int, b: int, c: int, n: int)
    requires Cong(a, b, n) && Cong(b, c, n)
    ensures Cong(a, c, n)
  {
    var k := CongElim(a, b, n);
    var l := CongElim(b, c, n);
    Distrib(n, k, l);
    CongIntro(a, c, k + l, n);
  }

  lemma {:induction false} CongSym(a: int, b: int, n: int)
    requires Cong(a, b, n)
    ensures Cong(b, a, n)
  {
    var k := CongElim(a, b, n);
    CongIntro(b, a, -k, n);
  }

  lemma {:induction false} CongAdd(a: int, b: int, c: int, d: int, n: int)
    requires Cong(a, b, n) && Cong(c, d, n)
    ensures Cong(a + c, b + d, n)
  {
    var k := CongElim(a, b, n);
    var l := CongElim(c, d, n);
    Distrib(n, k, l);
    CongIntro(a + c, b + d, k + l, n);
  }

  lemma {:induction false} CongScale(m: int, a: int, b: int, n: int)
    requires Cong(a, b, n)
    ensures Cong(m * a, m * b, n)
  {
    var k := CongElim(a, b, n);
    DistribSub(m, a, b);
    Assoc(m, k, n);
    CongIntro(m * a, m * b, m * k, n);
  }

  lemma {:induction false} CongSub(a: int, b: int, c: int, d: int, n: int)
    requires Cong(a, b, n) && Cong(c, d, n)
    ensures Cong(a - c, b - d, n)
  {
    CongScale(-1, c, d, n);
    CongAdd(a, b, -1 * c, -1 * d, n);
  }

  lemma {:induction false} CongMul(a: int, b: int, c: int, d: int, n: int)
    requires Cong(a, b, n) && Cong(c, d, n)
    ensures Cong(a * c, b * d, n)
  {
    CongScale(c, a, b, n);
    CongScale(b, c, d, n);
    CongTrans(a * c, b * c, b * d, n);
  }

  lemma {:induction false} CongPow(a: int, b: int, e: nat, n: int)
    requires Cong(a, b, n)
    ensures Cong(Pow(a, e), Pow(b, e), n)
  {
    if e == 0 {
      CongRefl(1, n);
    } else {
      CongPow(a, b, e - 1, n);
      CongMul(a, b, Pow(a, e - 1), Pow(b, e - 1), n);
    }
  }

  /** Numbers smaller than half the modulus are determined by their residue. */
  lemma {:induction false} CongSmall(d: int, n: int)
    requires Cong(d, 0, n) && -n < d < n
    ensures d == 0
  {
    var k := CongElim(d, 0, n);
    if k >= 1 { MulMono(n, 1, k); }
    if k <= -1 { MulMono(n, k, -1); }
  }

  ghost predicate CongSeq(s: seq<int>, t: seq<int>, n: int) {
    |s| == |t| && forall i :: 0 <= i < |s| ==> Cong(s[i], t[i], n)
  }

  lemma {:induction false} CongVal(s: seq<int>, t: seq<int>, b: int, n: int)
    requires CongSeq(s, t, n)
    ensures Cong(Val(s, b), Val(t, b), n)
  {
    if s == [] {
      CongRefl(0, n);
    } else {
      CongVal(s[1..], t[1..], b, n);
      CongScale(b, Val(s[1..], b), Val(t[1..], b), n);
      CongAdd(s[0], t[0], b * Val(s[1..], b), b * Val(t[1..], b), n);
    }
  }

  /**
    Lists of n terms are determined by their values modulo b^n - 1, and by those modulo b^n + 1
    (sign = 1 and sign = -1), taken at all bases b.
  */
  lemma {:induction false} FoldUnique(x: seq<int>, y: seq<int>, sign: int)
    requires |x| == |y| > 0 && (sign == 1 || sign == -1)
    requires forall b :: b >= 2 ==> Cong(Val(x, b), Val(y, b), Pow(b, |x|) - sign)
    ensures x == y
  {
    var d := Sub(x, y);
    var b := Bound(d) + 2;
    ValSub(x, y, b);
    ValBoundTight(d, b);
    var n := Pow(b, |x|) - sign;
    CongRefl(Val(y, b), n);
    CongSub(Val(x, b), Val(y, b), Val(y, b), Val(y, b), n);
    CongSmall(Val(d, b), n);
    ZeroList(d, b);
    forall i | 0 <= i < |x| ensures x[i] == y[i] {
      assert d[i] == Zeros(|d|)[i];
    }
  }

  lemma {:induction false} ValBoundTight(d: seq<int>, b: int)
    requires b >= 2 && Below(d, b - 1) && d != []
    ensures 1 - Pow(b, |d|) < Val(d, b) < Pow(b, |d|) - 1
  {
    var (v, p) := (Val(d[1..], b), Pow(b, |d| - 1));
    ValBound(d[1..], b);
    MulMono(b, v, p - 1);
    MulMono(b, 1 - p, v);
    DistribSub(b, p, 1);
    DistribSub(b, 1, p);
  }

  /** The schoolbook product in Z[t]/(t^n - sign). */
  ghost function FoldConv(x: seq<int>, y: seq<int>, sign: int): (z: seq<int>)
    requires |x| == |y| > 0
    ensures |z| == |x|
  {
    seq(|x|, k => DotAt(x, y, k) + sign * DotAt(x, y, k + |x|))
  }

  lemma {:induction false} FoldConvCases(x: seq<int>, y: seq<int>)
    requires |x| == |y| > 0
    ensures FoldConv(x, y, 1) == CycConv(x, y) && FoldConv(x, y, -1) == NegConv(x, y)
  {}

  /** It folds the high half of the full product back. */
  lemma {:induction false} FoldConvParts(x: seq<int>, y: seq<int>, sign: int)
    requires |x| == |y| > 0
    ensures var (n, c) := (|x|, Conv(x, y)); FoldConv(x, y, sign) == Add(c[..n], Scale(sign, c[n..] + Zeros(1)))
  {
    DotOutside(x, y, 2 * |x| - 1);
  }

  /** In Z[t]/(t^n - sign) the schoolbook product is the product. */
  lemma {:induction false} FoldConvVal(x: seq<int>, y: seq<int>, sign: int, b: int)
    requires |x| == |y| > 0 && (sign == 1 || sign == -1)
    ensures Cong(Val(FoldConv(x, y, sign), b), Val(x, b) * Val(y, b), Pow(b, |x|) - sign)
  {
    var (n, c) := (|x|, Conv(x, y));
    FoldConvParts(x, y, sign);
    ValAdd(c[..n], Scale(sign, c[n..] + Zeros(1)), b);
    ValScale(sign, c[n..] + Zeros(1), b);
    ValPad(c[n..], 1, b);
    ValConv(x, y, b);
    ValSplit(c, n, b);
    FoldCong(Val(c[..n], b), Val(c[n..], b), Pow(b, n), sign);
  }

  lemma {:induction false} FoldCong(lo: int, hi: int, p: int, sign: int)
    ensures Cong(lo + sign * hi, lo + p * hi, p - sign)
  {
    DistribSub(hi, p, sign);
    CongIntro(lo + sign * hi, lo + p * hi, -hi, p - sign);
  }

  lemma {:induction false} NegUnique(x: seq<int>, y: seq<int>)
    requires |x| == |y| > 0
    requires forall b :: b >= 2 ==> Cong(Val(x, b), Val(y, b), Pow(b, |x|) + 1)
    ensures x == y
  {
    FoldUnique(x, y, -1);
  }

  lemma {:induction false} NegConvVal(x: seq<int>, y: seq<int>, b: int)
    requires |x| == |y| > 0
    ensures Cong(Val(NegConv(x, y), b), Val(x, b) * Val(y, b), Pow(b, |x|) + 1)
  {
    FoldConvCases(x, y);
    FoldConvVal(x, y, -1, b);
  }

  ghost predicate PowerOfTwo(n: nat) {
    n >= 1 && (n == 1 || (n % 2 == 0 && PowerOfTwo(n / 2)))
  }

  lemma {:induction false} PowerOfTwoIs(n: nat, e: nat)
    requires PowerOfTwo(n) && Pow(2, e) <= n < 2 * Pow(2, e)
    ensures n == Pow(2, e)
  {
    if e > 0 && n > 1 {
      PowerOfTwoIs(n / 2, e - 1);
    } else if e > 0 {
      PowPos(2, e - 1);
    }
  }

  lemma {:induction false} PowIsPowerOfTwo(e: nat)
    ensures Pow(2, e) >= 1 && PowerOfTwo(Pow(2, e))
  {
    if e > 0 { PowIsPowerOfTwo(e - 1); }
  }

  lemma {:induction false} HalfStep(p: int, m: nat, n: nat)
    requires p >= 1 && m >= 1 && p * m <= n < p * (m + 1)
    ensures (2 * p) * (m / 2) <= n < (2 * p) * (m / 2 + 1) && p <= n
  {
    var h := m / 2;
    MulMono(p, 1, m);
    MulMono(p, 2 * h, m);
    MulMono(p, m + 1, 2 * (h + 1));
    assert (2 * p) * h == p * (2 * h) && (2 * p) * (h + 1) == p * (2 * (h + 1));
  }

  /** The floor of the binary logarithm, and -1 for 0. */
  method Log2(n: nat) returns (res: int)
    ensures n == 0 ==> res == -1
    ensures n > 0 ==> res >= 0 && Pow(2, res) <= n < 2 * Pow(2, res)
    ensures PowerOfTwo(n) ==> n == Pow(2, res)
  {
    res := -1;
    var m := n;
    while m > 0
      invariant res >= -1 && (n == 0 ==> res == -1 && m == 0)
      invariant n > 0 ==> Pow(2, res + 1) * m <= n < Pow(2, res + 1) * (m + 1)
      invariant res >= 0 ==> Pow(2, res) <= n
    {
      PowPos(2, res + 1);
      HalfStep(Pow(2, res + 1), m, n);
      assert Pow(2, res + 2) == 2 * Pow(2, res + 1);
      res := res + 1;
      m := m / 2;
    }
    if PowerOfTwo(n) { PowerOfTwoIs(n, res); }
  }
}
