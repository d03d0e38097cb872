/**
  Integer lists read as polynomials, lowest coefficient first: the element-wise list
  helpers of DecInt.py, the value of a list at a point, and the schoolbook products
  that the fast multiplications are compared with.
*/
module Poly {
  import opened Arith

  function Pow(b: int, e: nat): int {
    if e == 0 then 1 else b * Pow(b, e - 1)
  }

  function Add(x: seq<int>, y: seq<int>): (z: seq<int>)
    requires |x| == |y|
    ensures |z| == |x|
  {
    seq(|x|, i requires 0 <= i < |x| => x[i] + y[i])
  }

  function Sub(x: seq<int>, y: seq<int>): (z: seq<int>)
    requires |x| == |y|
    ensures |z| == |x|
  {
    seq(|x|, i requires 0 <= i < |x| => x[i] - y[i])
  }

  function Scale(n: int, x: seq<int>): (z: seq<int>)
    ensures |z| == |x|
  {
    seq(|x|, i requires 0 <= i < |x| => n * x[i])
  }

  function Minus(x: seq<int>): (z: seq<int>)
    ensures |z| == |x|
  {
    seq(|x|, i requires 0 <= i < |x| => -x[i])
  }

  function Zeros(n: nat): (z: seq<int>)
    ensures |z| == n
  {
    seq(n, _ => 0)
  }

  /** The value at `b` of the polynomial whose coefficients are `s`. */
  function Val(s: seq<int>, b: int): int {
    if s == [] then 0 else s[0] + b * Val(s[1..], b)
  }

  function Coef(y: seq<int>, k: int): int {
    if 0 <= k < |y| then y[k] else 0
  }

  /** Schoolbook coefficient: the sum of x[i] * y[k - i] over all i. */
  function DotAt(x: seq<int>, y: seq<int>, k: int): int {
    if x == [] then 0 else x[0] * Coef(y, k) + DotAt(x[1..], y, k - 1)
  }

  /** Schoolbook product of two polynomials. */
  function Conv(x: seq<int>, y: seq<int>): (z: seq<int>)
    requires x != [] && y != []
    ensures |z| == |x| + |y| - 1
  {
    seq(|x| + |y| - 1, k => DotAt(x, y, k))
  }

  /** Schoolbook product in Z[t]/(t^n - 1). */
  function CycConv(x: seq<int>, y: seq<int>): (z: seq<int>)
    requires |x| == |y| > 0
    ensures |z| == |x|
  {
    seq(|x|, k => DotAt(x, y, k) + DotAt(x, y, k + |x|))
  }

  /** Schoolbook product in Z[t]/(t^n + 1). */
  function NegConv(x: seq<int>, y: seq<int>): (z: seq<int>)
    requires |x| == |y| > 0
    ensures |z| == |x|
  {
    seq(|x|, k => DotAt(x, y, k) - DotAt(x, y, k + |x|))
  }

  // ----- powers -----

  lemma {:induction false} PowAdd(b: int, e: nat, f: nat)
    ensures Pow(b, e + f) == Pow(b, e) * Pow(b, f)
  {
    if e != 0 {
      PowAdd(b, e - 1, f);
      var p, q := Pow(b, e - 1), Pow(b, f);
      assert b * (p * q) == (b * p) * q;
    }
  }

  lemma {:induction false} PowMul(b: int, e: nat, f: nat)
    ensures Pow(b, e * f) == Pow(Pow(b, e), f)
  {
    if f != 0 {
      PowMul(b, e, f - 1);
      assert e * f == e + e * (f - 1);
      PowAdd(b, e, e * (f - 1));
    }
  }

  lemma {:induction false} PowMul'(b: int, e: nat, f: nat)
    ensures Pow(b, f * e) == Pow(Pow(b, e), f)
  {
    assert f * e == e * f;
    PowMul(b, e, f);
  }

  lemma {:induction false} PowMulBase(a: int, b: int, e: nat)
    ensures Pow(a * b, e) == Pow(a, e) * Pow(b, e)
  {
    if e != 0 {
      PowMulBase(a, b, e - 1);
      Swap4(a, b, Pow(a, e - 1), Pow(b, e - 1));
    }
  }

  lemma {:induction false} PowPos(b: int, e: nat)
    requires b >= 1
    ensures Pow(b, e) >= 1
  {
    if e != 0 {
      PowPos(b, e - 1);
      assert b * Pow(b, e - 1) >= 1;
    }
  }

  lemma {:induction false} PowMono(b: int, e: nat, f: nat)
    requires b >= 1 && e <= f
    ensures 1 <= Pow(b, e) <= Pow(b, f)
  {
    PowPos(b, e);
    PowPos(b, f - e);
    PowAdd(b, f - e, e);
    var p, q := Pow(b, f - e), Pow(b, e);
    assert p * q >= 1 * q;
  }

  // ----- values -----

  lemma {:induction false} ValAppend(s: seq<int>, t: seq<int>, b: int)
    ensures Val(s + t, b) == Val(s, b) + Pow(b, |s|) * Val(t, b)
  {
    if s == [] {
      assert s + t == t;
    } else {
      ValAppend(s[1..], t, b);
      assert (s + t)[1..] == s[1..] + t;
      var p, v, w := Pow(b, |s| - 1), Val(t, b), Val(s[1..], b);
      assert b * (w + p * v) == b * w + (b * p) * v;
    }
  }

  lemma {:induction false} ValSplit(s: seq<int>, k: nat, b: int)
    requires k <= |s|
    ensures Val(s, b) == Val(s[..k], b) + Pow(b, k) * Val(s[k..], b)
  {
    assert s == s[..k] + s[k..];
    ValAppend(s[..k], s[k..], b);
  }

  lemma {:induction false} ValAdd(x: seq<int>, y: seq<int>, b: int)
    requires |x| == |y|
    ensures Val(Add(x, y), b) == Val(x, b) + Val(y, b)
  {
    if x != [] {
      ValAdd(x[1..], y[1..], b);
      assert Add(x, y)[1..] == Add(x[1..], y[1..]);
      Distrib(b, Val(x[1..], b), Val(y[1..], b));
    }
  }

  lemma {:induction false} ValScale(n: int, x: seq<int>, b: int)
    ensures Val(Scale(n, x), b) == n * Val(x, b)
  {
    if x != [] {
      ValScale(n, x[1..], b);
      assert Scale(n, x)[1..] == Scale(n, x[1..]);
      var v := Val(x[1..], b);
      Assoc(b, n, v);
      Assoc(n, b, v);
      Distrib(n, x[0], b * v);
    }
  }

  lemma {:induction false} ValSub(x: seq<int>, y: seq<int>, b: int)
    requires |x| == |y|
    ensures Val(Sub(x, y), b) == Val(x, b) - Val(y, b)
  {
    assert Sub(x, y) == Add(x, Scale(-1, y));
    ValAdd(x, Scale(-1, y), b);
    ValScale(-1, y, b);
  }

  lemma {:induction false} ValMinus(x: seq<int>, b: int)
    ensures Val(Minus(x), b) == -Val(x, b)
  {
    assert Minus(x) == Scale(-1, x);
    ValScale(-1, x, b);
  }

  lemma {:induction false} ValZeros(n: nat, b: int)
    ensures Val(Zeros(n), b) == 0
  {
    if n != 0 {
      assert Zeros(n)[1..] == Zeros(n - 1);
      ValZeros(n - 1, b);
    }
  }

  lemma {:induction false} ValOne(d: int, b: int)
    ensures Val([d], b) == d
  {
    assert [d][1..] == [];
  }

  /** Padding with zeros at the high end does not change the value. */
  lemma {:induction false} ValPad(s: seq<int>, n: nat, b: int)
    ensures Val(s + Zeros(n), b) == Val(s, b)
  {
    ValAppend(s, Zeros(n), b);
    ValZeros(n, b);
  }

  // ----- a list is determined by its values -----

  ghost predicate Below(s: seq<int>, m: int) {
    forall i :: 0 <= i < |s| ==> -m < s[i] < m
  }

  ghost function Bound(s: seq<int>): (m: int)
    ensures m >= 1 && Below(s, m)
  {
    if s == [] then 1
    else
      var m := Bound(s[1..]);
      var a := if s[0] < 0 then -s[0] else s[0];
      var r := if a < m then m else a + 1;
      assert forall i :: 1 <= i < |s| ==> s[i] == s[1..][i - 1];
      r
  }

  lemma {:induction false} ZeroList(d: seq<int>, b: int)
    requires b >= 1 && Below(d, b) && Val(d, b) == 0
    ensures d == Zeros(|d|)
  {
    if d != [] {
      var v := Val(d[1..], b);
      assert v == 0 by {
        if v >= 1 { MulMono(b, 1, v); }
        if v <= -1 { MulMono(b, v, -1); }
      }
      ZeroList(d[1..], b);
      assert d == [d[0]] + d[1..];
    }
  }

  /** Lists of one length with equal values at every base are equal. */
  lemma {:induction false} ValUnique(x: seq<int>, y: seq<int>)
    requires |x| == |y|
    requires forall b :: b >= 2 ==> Val(x, b) == Val(y, b)
    ensures x == y
  {
    var d := Sub(x, y);
    var b := Bound(d) + 1;
    ValSub(x, y, b);
    ZeroList(d, b);
    forall i | 0 <= i < |x| ensures x[i] == y[i] {
      assert d[i] == Zeros(|d|)[i];
    }
  }

  lemma {:induction false} ValBound(d: seq<int>, b: int)
    requires b >= 1 && Below(d, b)
    ensures -Pow(b, |d|) < Val(d, b) < Pow(b, |d|)
  {
    if d != [] {
      ValBound(d[1..], b);
      var v, p := Val(d[1..], b), Pow(b, |d| - 1);
      MulMono(b, v, p - 1);
      MulMono(b, 1 - p, v);
      DistribSub(b, p, 1);
      DistribSub(b, 1, p);
    }
  }

  // ----- the schoolbook product is multiplicative -----

  lemma {:induction false} DotOutside(x: seq<int>, y: seq<int>, k: int)
    requires k < 0 || k >= |x| + |y| - 1
    ensures DotAt(x, y, k) == 0
  {
    if x != [] { DotOutside(x[1..], y, k - 1); }
  }

  lemma {:induction false} ConvSingle(n: int, y: seq<int>)
    requires y != []
    ensures Conv([n], y) == Scale(n, y)
  {
    forall k | 0 <= k < |y| ensures DotAt([n], y, k) == n * y[k] {
      assert DotAt([n][1..], y, k - 1) == 0;
    }
  }

  lemma {:induction false} ConvCons(x: seq<int>, y: seq<int>)
    requires |x| >= 2 && y != []
    ensures Conv(x, y) == Add(Scale(x[0], y) + Zeros(|x| - 1), [0] + Conv(x[1..], y))
  {
    var head, tail := Scale(x[0], y) + Zeros(|x| - 1), [0] + Conv(x[1..], y);
    forall k | 0 <= k < |x| + |y| - 1 ensures DotAt(x, y, k) == head[k] + tail[k] {
      if k == 0 { DotOutside(x[1..], y, -1); }
    }
  }

  lemma {:induction false} ValConv(x: seq<int>, y: seq<int>, b: int)
    requires x != [] && y != []
    ensures Val(Conv(x, y), b) == Val(x, b) * Val(y, b)
  {
    if |x| == 1 {
      ConvSingle(x[0], y);
      assert x == [x[0]];
      ValScale(x[0], y, b);
      ValOne(x[0], b);
    } else {
      var rest := Conv(x[1..], y);
      ConvConsVal(x, y, rest, b);
      ValConv(x[1..], y, b);
      ProductStep(x[0], b, Val(x[1..], b), Val(y, b), Val(rest, b));
    }
  }

  lemma {:induction false} ConvConsVal(x: seq<int>, y: seq<int>, rest: seq<int>, b: int)
    requires |x| >= 2 && y != [] && rest == Conv(x[1..], y)
    ensures Val(Conv(x, y), b) == x[0] * Val(y, b) + b * Val(rest, b)
  {
    ConvCons(x, y);
    ValAdd(Scale(x[0], y) + Zeros(|x| - 1), [0] + rest, b);
    ValPad(Scale(x[0], y), |x| - 1, b);
    ValScale(x[0], y, b);
    assert ([0] + rest)[1..] == rest;
  }

  lemma {:induction false} ProductStep(d: int, b: int, v: int, w: int, rest: int)
    requires rest == v * w
    ensures d * w + b * rest == (d + b * v) * w
  {
    Assoc(b, v, w);
    Distrib(w, d, b * v);
  }

  /** To be the schoolbook product it is enough to have its length and its values. */
  lemma {:induction false} ConvUnique(z: seq<int>, x: seq<int>, y: seq<int>)
    requires x != [] && y != [] && |z| == |x| + |y| - 1
    requires forall b :: b >= 2 ==> Val(z, b) == Val(x, b) * Val(y, b)
    ensures z == Conv(x, y)
  {
    forall b | b >= 2 ensures Val(z, b) == Val(Conv(x, y), b) {
      ValConv(x, y, b);
    }
    ValUnique(z, Conv(x, y));
  }

  lemma {:induction false} ConvComm(x: seq<int>, y: seq<int>)
    requires x != [] && y != []
    ensures Conv(x, y) == Conv(y, x)
  {
    forall b | b >= 2 ensures Val(Conv(y, x), b) == Val(x, b) * Val(y, b) {
      ValConv(y, x, b);
    }
    ConvUnique(Conv(y, x), x, y);
  }

  /** Zero padding of a factor pads the product. */
  lemma {:induction false} ConvPad(x: seq<int>, y: seq<int>, n: nat)
    requires x != [] && y != []
    ensures Conv(x, y + Zeros(n)) == Conv(x, y) + Zeros(n)
    ensures Conv(y + Zeros(n), x) == Conv(y, x) + Zeros(n)
  {
    var z := Conv(x, y) + Zeros(n);
    forall b | b >= 2 ensures Val(z, b) == Val(x, b) * Val(y + Zeros(n), b) {
      ValConv(x, y, b);
      ValPad(y, n, b);
      ValPad(Conv(x, y), n, b);
    }
    ConvUnique(z, x, y + Zeros(n));
    ConvComm(x, y + Zeros(n));
    ConvComm(x, y);
  }

  // ----- list surgery: slice assignment and dropping leading zeros -----

  /** Overwrites the terms of z from position at on. */
  function Put(z: seq<int>, at: nat, v: seq<int>): (r: seq<int>)
    requires at + |v| <= |z|
    ensures |r| == |z|
  {
    z[..at] + v + z[at + |v|..]
  }

  /** Adds a list to the terms of z from position at on. */
  function AddAt(z: seq<int>, at: nat, v: seq<int>): (r: seq<int>)
    requires at + |v| <= |z|
    ensures |r| == |z|
  {
    Put(z, at, Add(v, z[at..at + |v|]))
  }

  lemma {:induction false} ValPut(z: seq<int>, at: nat, v: seq<int>, b: int)
    requires at + |v| <= |z|
    ensures Val(Put(z, at, v), b) == Val(z, b) + Pow(b, at) * (Val(v, b) - Val(z[at..at + |v|], b))
  {
    var k := at + |v|;
    var lo, mid, hi := z[..at], z[at..k], z[k..];
    assert z == lo + (mid + hi);
    assert Put(z, at, v) == lo + (v + hi);
    ValAppend(lo, mid + hi, b);
    ValAppend(mid, hi, b);
    ValAppend(lo, v + hi, b);
    ValAppend(v, hi, b);
    Replace(Pow(b, at), Val(mid, b), Val(v, b), Pow(b, |v|) * Val(hi, b));
  }

  lemma {:induction false} ValAddAt(z: seq<int>, at: nat, v: seq<int>, b: int)
    requires at + |v| <= |z|
    ensures Val(AddAt(z, at, v), b) == Val(z, b) + Pow(b, at) * Val(v, b)
  {
    var old' := z[at..at + |v|];
    ValPut(z, at, Add(v, old'), b);
    ValAdd(v, old', b);
    assert Val(Add(v, old'), b) - Val(old', b) == Val(v, b);
  }

  ghost predicate ZeroOn(z: seq<int>, lo: nat, hi: nat) {
    hi <= |z| && forall i :: lo <= i < hi ==> z[i] == 0
  }

  lemma {:induction false} PutElsewhere(z: seq<int>, at: nat, v: seq<int>, lo: nat, hi: nat)
    requires at + |v| <= |z| && ZeroOn(z, lo, hi) && (hi <= at || at + |v| <= lo)
    ensures ZeroOn(Put(z, at, v), lo, hi)
  {}

  /** Writing over zeros adds. */
  lemma {:induction false} ValPutZeros(z: seq<int>, at: nat, v: seq<int>, b: int)
    requires ZeroOn(z, at, at + |v|)
    ensures Val(Put(z, at, v), b) == Val(z, b) + Pow(b, at) * Val(v, b)
  {
    ValPut(z, at, v, b);
    assert z[at..at + |v|] == Zeros(|v|);
    ValZeros(|v|, b);
  }

  /** Drop leading (high-end) zeros, keeping at least one term. */
  function Strip(z: seq<int>): (r: seq<int>)
    ensures |r| <= |z|
    ensures z != [] ==> r != []
  {
    if |z| > 1 && z[|z| - 1] == 0 then Strip(z[..|z| - 1]) else z
  }

  lemma {:induction false} StripShape(z: seq<int>)
    ensures z == Strip(z) + Zeros(|z| - |Strip(z)|)
    ensures |Strip(z)| > 1 ==> Strip(z)[|Strip(z)| - 1] != 0
  {
    if |z| > 1 && z[|z| - 1] == 0 {
      StripShape(z[..|z| - 1]);
      assert z == z[..|z| - 1] + [0];
    }
  }

  lemma {:induction false} StripVal(z: seq<int>, b: int)
    ensures Val(Strip(z), b) == Val(z, b)
  {
    StripShape(z);
    ValPad(Strip(z), |z| - |Strip(z)|, b);
  }

  lemma {:induction false} StripLength(z: seq<int>, k: nat)
    requires 1 <= k <= |z|
    requires forall i :: k <= i < |z| ==> z[i] == 0
    ensures |Strip(z)| <= k
  {
    if |z| > k { StripLength(z[..|z| - 1], k); }
  }

  method StripZeros(z: seq<int>) returns (r: seq<int>)
    ensures r == Strip(z)
  {
    r := z;
    while |r| > 1 && r[|r| - 1] == 0
      invariant Strip(r) == Strip(z)
    {
      r := r[..|r| - 1];
    }
  }

  // ----- lists of lists -----

  /** All pieces have length len. */
  ghost predicate Pieces(l: seq<seq<int>>, len: nat) {
    forall i :: 0 <= i < |l| ==> |l[i]| == len
  }

  ghost function Vals(l: seq<seq<int>>, b: int): (v: seq<int>)
    ensures |v| == |l|
  {
    seq(|l|, i requires 0 <= i < |l| => Val(l[i], b))
  }
}
