/**
  Multiplication by cyclic convolution, and the choice between Toom-Cook and Nussbaumer:
  on every path the schoolbook product of two lists.
*/
module FastMultiply {
  import opened Arith
  import opened Poly
  import opened Modular
  import opened ToomCook
  import opened Nussbaumer

  /** x modulo t^h - sign: the high half is folded onto the low half. */
  ghost function Halves(x: seq<int>, sign: int): (z: seq<int>)
    requires |x| % 2 == 0
    ensures |z| == |x| / 2
  {
    Add(x[..|x| / 2], Scale(sign, x[|x| / 2..]))
  }

  lemma {:induction false} HalvesVal(x: seq<int>, sign: int, b: int)
    requires |x| % 2 == 0
    ensures Cong(Val(Halves(x, sign), b), Val(x, b), Pow(b, |x| / 2) - sign)
  {
    var h := |x| / 2;
    ValAdd(x[..h], Scale(sign, x[h..]), b);
    ValScale(sign, x[h..], b);
    ValSplit(x, h, b);
    FoldCong(Val(x[..h], b), Val(x[h..], b), Pow(b, h), sign);
  }

  /** Reduction to half the length commutes with multiplication. */
  lemma {:induction false} HalvesConv(x: seq<int>, y: seq<int>, sign: int)
    requires |x| == |y| > 0 && |x| % 2 == 0 && (sign == 1 || sign == -1)
    ensures FoldConv(Halves(x, sign), Halves(y, sign), sign) == Halves(CycConv(x, y), sign)
  {
    var (z, w, h) := (FoldConv(Halves(x, sign), Halves(y, sign), sign), Halves(CycConv(x, y), sign), |x| / 2);
    forall b | b >= 2 ensures Cong(Val(z, b), Val(w, b), Pow(b, h) - sign) {
      HalvesConvVal(x, y, sign, b);
    }
    FoldUnique(z, w, sign);
  }

  lemma {:induction false} HalvesConvVal(x: seq<int>, y: seq<int>, sign: int, b: int)
    requires |x| == |y| > 0 && |x| % 2 == 0 && (sign == 1 || sign == -1)
    ensures Cong(Val(FoldConv(Halves(x, sign), Halves(y, sign), sign), b), Val(Halves(CycConv(x, y), sign), b),
                 Pow(b, |x| / 2) - sign)
  {
    var (h, hx, hy) := (|x| / 2, Halves(x, sign), Halves(y, sign));
    var (n, p) := (Pow(b, h) - sign, Val(x, b) * Val(y, b));
    var (z, w) := (Val(FoldConv(hx, hy, sign), b), Val(Halves(CycConv(x, y), sign), b));
    FoldConvVal(hx, hy, sign, b);
    HalvesVal(x, sign, b);
    HalvesVal(y, sign, b);
    CongMul(Val(hx, b), Val(x, b), Val(hy, b), Val(y, b), n);
    CongTrans(z, Val(hx, b) * Val(hy, b), p, n);
    FoldConvCases(x, y);
    FoldConvVal(x, y, 1, b);
    Coarser(Val(CycConv(x, y), b), p, Pow(b, h), sign) by { PowAdd(b, h, h); }
    HalvesVal(CycConv(x, y), sign, b);
    CongTrans(w, Val(CycConv(x, y), b), p, n);
    CongSym(w, p, n);
    CongTrans(z, p, w, n);
  }

  /** t^h - sign divides t^(2h) - 1. */
  lemma {:induction false} Coarser(a: int, c: int, p: int, sign: int)
    requires Cong(a, c, p * p - 1) && (sign == 1 || sign == -1)
    ensures Cong(a, c, p - sign)
  {
    var k := CongElim(a, c, p * p - 1);
    assert p * p - 1 == (p + sign) * (p - sign);
    Assoc(k, p + sign, p - sign);
    CongIntro(a, c, k * (p + sign), p - sign);
  }

  /** Recursive cyclic convolution: x^n - 1 = (x^(n/2) - 1)(x^(n/2) + 1). */
  method Cyc(x: seq<int>, y: seq<int>, R: int) returns (z: seq<int>)
    requires |x| == |y| && PowerOfTwo(|x|)  // asserted by the source
    ensures z == CycConv(x, y)
    decreases |x|
  {
    var n := |x|;
    var nhalf := n / 2;
    if n <= 8 {
      z := CycLit(x, y, R);
      return;
    }
    var rcyc := Cyc(Add(x[..nhalf], x[nhalf..]), Add(y[..nhalf], y[nhalf..]), R);
    var rneg := Neg(Sub(x[..nhalf], x[nhalf..]), Sub(y[..nhalf], y[nhalf..]), R);
    z := ShiftRight(1, Add(rcyc, rneg) + Sub(rcyc, rneg));
    Recombine(x, y);
  }

  lemma {:induction false} Recombine(x: seq<int>, y: seq<int>)
    requires |x| == |y| > 0 && |x| % 2 == 0
    ensures var h := |x| / 2;
            var rcyc := CycConv(Add(x[..h], x[h..]), Add(y[..h], y[h..]));
            var rneg := NegConv(Sub(x[..h], x[h..]), Sub(y[..h], y[h..]));
            ShiftRight(1, Add(rcyc, rneg) + Sub(rcyc, rneg)) == CycConv(x, y)
  {
    var (h, c) := (|x| / 2, CycConv(x, y));
    assert Add(x[..h], x[h..]) == Halves(x, 1) && Add(y[..h], y[h..]) == Halves(y, 1);
    assert Sub(x[..h], x[h..]) == Halves(x, -1) && Sub(y[..h], y[h..]) == Halves(y, -1);
    FoldConvCases(Halves(x, 1), Halves(y, 1));
    FoldConvCases(Halves(x, -1), Halves(y, -1));
    HalvesConv(x, y, 1);
    HalvesConv(x, y, -1);
    SumAndDifferenceOf(c);
  }

  /** The sum and the difference of the two residues are twice the two halves. */
  lemma {:induction false} SumAndDifferenceOf(c: seq<int>)
    requires |c| % 2 == 0
    ensures var (p, q) := (Halves(c, 1), Halves(c, -1)); ShiftRight(1, Add(p, q) + Sub(p, q)) == c
  {
    var (h, p, q) := (|c| / 2, Halves(c, 1), Halves(c, -1));
    assert Pow(2, 1) == 2 * Pow(2, 0) == 2;
    assert Add(p, q) == Scale(2, c[..h]) && Sub(p, q) == Scale(2, c[h..]);
    assert Add(p, q) + Sub(p, q) == Scale(2, c);
    ShiftExact(1, c);
  }

  lemma {:induction false} PaddedConv(x: seq<int>, y: seq<int>, n: nat)
    requires x != [] && y != [] && |x| <= n && |y| <= n
    ensures Conv(x + Zeros(n - |x|), y + Zeros(n - |y|)) == Conv(x, y) + Zeros(2 * n - |x| - |y|)
  {
    var px := x + Zeros(n - |x|);
    ConvPad(px, y, n - |y|);
    ConvPad(y, x, n - |x|);
    ConvComm(x, y);
    ConvComm(px, y);
    assert Conv(x, y) + Zeros(n - |x|) + Zeros(n - |y|) == Conv(x, y) + Zeros(2 * n - |x| - |y|);
  }

  /** With room for the whole product, the cyclic product of padded lists does not wrap. */
  lemma {:induction false} PaddedCyc(x: seq<int>, y: seq<int>, n: nat)
    requires x != [] && y != [] && |x| <= n && |y| <= n && |x| + |y| - 1 <= n
    ensures CycConv(x + Zeros(n - |x|), y + Zeros(n - |y|))[..|x| + |y| - 1] == Conv(x, y)
  {
    var (px, py, k) := (x + Zeros(n - |x|), y + Zeros(n - |y|), |x| + |y| - 1);
    PaddedConv(x, y, n);
    var (c, full) := (Conv(x, y), Conv(px, py));
    forall i | 0 <= i < k ensures CycConv(px, py)[i] == c[i] {
      assert full[i] == c[i];
      if i + n < 2 * n - 1 {
        assert full[i + n] == 0;
      } else {
        DotOutside(px, py, i + n);
      }
    }
  }

  method NussMult(x: seq<int>, y: seq<int>, R: int) returns (z: seq<int>)
    requires x != [] && y != []
    ensures z == Conv(x, y)
  {
    var n := if |x| < |y| then |y| else |x|;
    var pow := Log2(n);
    if Pow(2, pow) < n {
      pow := pow + 1;
    }
    var newn := Pow(2, pow + 1);
    PowIsPowerOfTwo(pow + 1);
    assert newn == 2 * Pow(2, pow) >= 2 * n;
    z := Cyc(x + Zeros(newn - |x|), y + Zeros(newn - |y|), R);
    PaddedCyc(x, y, newn);
    z := z[..|x| + |y| - 1];
  }

  /** One half of a 2N x N product after the other. */
  method TwoByOne(x: seq<int>, y: seq<int>, R: int) returns (z: seq<int>)
    requires y != [] && |x| == 2 * |y|
    ensures z == Conv(x, y)
  {
    z := NussMult(x[..|y|], y, R);
    var temp := NussMult(x[|y|..], y, R);
    ghost var z0 := z;
    z := z[..|y|] + Add(temp[..|y| - 1], z[|y|..]);
    z := z + temp[|y| - 1..];
    assert x[|y|..|x|] == x[|y|..] && x[..|x|] == x;
    assert Add(temp[..|y| - 1], z0[|y|..]) == Add(z0[|y|..], temp[..|y| - 1]);
    ChunkStep(x, y, |y|, |x|, z0, temp, z);
  }

  /** Multiply two lists by the fastest method; threshold is 50 or 100 in the source. */
  method FastMult(x: seq<int>, y: seq<int>, R: int, threshold: nat) returns (z: seq<int>)
    requires x != [] && y != [] && threshold >= 1
    ensures z == Conv(x, y)
    decreases |x| + |y|, 1
  {
    var x, y := x, y;
    if |x| < |y| {
      ConvComm(x, y);
      x, y := y, x;
    }
    if |y| <= threshold {
      z := KMult(x, y, R);
      return;
    }
    var pow := Log2(|x|);
    if |x| == Pow(2, pow) && 2 * |y| == |x| {
      z := TwoByOne(x, y, R);
      return;
    } else if Pow(2, pow) < |x| {
      pow := pow + 1;
    }
    var newn := Pow(2, pow + 1);
    assert newn == 2 * Pow(2, pow) && |x| <= Pow(2, pow) < 2 * |x|;
    if |y| > newn / 4 {
      z := NussMult(x, y, R);
      z := z[..|x| + |y| - 1];
      return;
    }
    assert Pow(2, pow) == 2 * Pow(2, pow - 1) by { assert pow > 0; }
    z := Portions(x, y, R, threshold, pow);
  }

  /** The longer operand in portions of the smallest power of two that is no less than |y|. */
  method Portions(x: seq<int>, y: seq<int>, R: int, threshold: nat, ghost pow: nat) returns (z: seq<int>)
    requires threshold >= 1 && pow >= 1 && 1 < |y| <= Pow(2, pow - 1) < |x| && |y| <= |x|
    ensures z == Conv(x, y)
    decreases |x| + |y|, 0
  {
    var plen := Log2(|y|);
    if Pow(2, plen) < |y| {
      plen := plen + 1;
    }
    var portion := Pow(2, plen);
    if plen > pow - 1 {
      PowMono(2, pow, plen);
    }
    PowMono(2, plen, pow - 1);
    z := [];
    var ptr := 0;
    while ptr < |x|
      invariant 0 <= ptr && (ptr == 0 ==> z == [])
      invariant ptr > 0 ==> z == Conv(x[..Min(ptr, |x|)], y)
      decreases |x| - ptr
    {
      var end := Min(ptr + portion, |x|);
      var temp := FastMult(x[ptr..end], y, R, threshold);
      ghost var z0 := z;
      z := z[..ptr] + Add(temp[..|z| - ptr], z[ptr..]) + temp[|z| - ptr..];
      assert Add(temp[..|z0| - ptr], z0[ptr..]) == Add(z0[ptr..], temp[..|z0| - ptr]);
      ChunkStep(x, y, ptr, end, z0, temp, z);
      ptr := ptr + portion;
    }
    assert x[..|x|] == x;
  }

  method FastSquare(x: seq<int>, R: int) returns (z: seq<int>)
    requires x != []
    ensures z == Conv(x, x)
  {
    if |x| <= 32 {
      z := KMult(x, x, R);
    } else {
      z := NussMult(x, x, R);
    }
  }
}
