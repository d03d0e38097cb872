/**
  Karatsuba and Toom-Cook multiplication of integer lists.  Every routine is proved to
  return the schoolbook product of its arguments, whatever the signs of the entries and
  whatever the radix that is carried along.
*/
module ToomCook {
  import opened Arith
  import opened Poly

  // ----- division of a list by a small number -----

  ghost predicate DivisibleBy(s: seq<int>, n: int)
    requires n > 0
  {
    forall i :: 0 <= i < |s| ==> s[i] % n == 0
  }

  ghost predicate IsMultiple(s: seq<int>, w: seq<int>, n: int) {
    |s| == |w| && forall i :: 0 <= i < |s| ==> s[i] == n * w[i]
  }

  /**
    The loop shared by smalldiv and smalldivmod: long division of `lst`, read in radix R,
    by n, from the most significant term down.
  */
  method DivideTerms(lst: seq<int>, n: int, R: int) returns (res: seq<int>, rem: int)
    requires n > 0
    ensures |res| == |lst|
    ensures Val(lst, R) == n * Val(res, R) + rem && 0 <= rem < n
    ensures (forall i :: 0 <= i < |lst| ==> 0 <= lst[i] < R) ==> forall i :: 0 <= i < |res| ==> 0 <= res[i] < R
    ensures DivisibleBy(lst, n) ==> rem == 0 && IsMultiple(lst, res, n)
  {
    res, rem := [], 0;
    var indx := |lst|;
    while indx > 0
      invariant 0 <= indx <= |lst| && |res| == |lst| - indx
      invariant Val(lst[indx..], R) == n * Val(res, R) + rem && 0 <= rem < n
      invariant (forall i :: 0 <= i < |lst| ==> 0 <= lst[i] < R) ==> forall i :: 0 <= i < |res| ==> 0 <= res[i] < R
      invariant DivisibleBy(lst, n) ==> rem == 0 && IsMultiple(lst[indx..], res, n)
    {
      indx := indx - 1;
      var d, m := (lst[indx] + rem * R) / n, (lst[indx] + rem * R) % n;
      DivideStep(lst, indx, res, n, R, rem, d, m);
      ExactStep(lst, indx, res, n, R, rem, d, m);
      res, rem := [d] + res, m;
    }
    assert lst[0..] == lst;
  }

  lemma {:induction false} ExactStep(lst: seq<int>, indx: nat, res: seq<int>, n: int, R: int,
                                     rem: int, d: int, m: int)
    requires n > 0 && indx < |lst| && d == (lst[indx] + rem * R) / n && m == (lst[indx] + rem * R) % n
    requires DivisibleBy(lst, n) ==> rem == 0 && IsMultiple(lst[indx + 1..], res, n)
    ensures DivisibleBy(lst, n) ==> m == 0 && IsMultiple(lst[indx..], [d] + res, n)
  {
    if DivisibleBy(lst, n) {
      assert lst[indx] % n == 0;
      assert lst[indx..] == [lst[indx]] + lst[indx + 1..];
    }
  }

  lemma {:induction false} DivideStep(lst: seq<int>, indx: nat, res: seq<int>, n: int, R: int,
                                      rem: int, d: int, m: int)
    requires n > 0 && indx < |lst| && |res| == |lst| - indx - 1
    requires Val(lst[indx + 1..], R) == n * Val(res, R) + rem && 0 <= rem < n
    requires d == (lst[indx] + rem * R) / n && m == (lst[indx] + rem * R) % n
    ensures Val(lst[indx..], R) == n * Val([d] + res, R) + m
    ensures 0 <= lst[indx] < R ==> 0 <= d < R
  {
    assert lst[indx..][1..] == lst[indx + 1..];
    assert ([d] + res)[1..] == res;
    var t, v := lst[indx] + rem * R, Val(res, R);
    assert t == n * d + m;
    Distrib(R, n * v, rem);
    Assoc(R, n, v);
    Assoc(n, R, v);
    Distrib(n, d, R * v);
    if 0 <= lst[indx] < R {
      MulMono(R, rem, n - 1);
      DistribSub(R, n, 1);
      assert 0 <= t < n * R by { MulMono(R, 0, rem); }
      if d >= R { MulMono(n, R, d); }
      if d < 0 { MulMono(n, d, -1); }
    }
  }

  /** smalldiv, and subsmalldiv / addsmalldiv on the difference / sum of two lists. */
  method SmallDiv(lst: seq<int>, n: int, R: int) returns (res: seq<int>)
    requires n > 0
    requires Val(lst, R) % n == 0  // what the source's final assertion demands
    ensures |res| == |lst| && Val(lst, R) == n * Val(res, R)
    ensures DivisibleBy(lst, n) ==> IsMultiple(lst, res, n)
  {
    var rem;
    res, rem := DivideTerms(lst, n, R);
    DivUnique(Val(lst, R), n, Val(res, R), rem);
  }

  /** Exact in every position, hence exact as a number: the assertion of smalldiv holds. */
  lemma {:induction false} DivisibleVal(s: seq<int>, w: seq<int>, n: int, R: int)
    requires n > 0 && |w| == |s| && forall i :: 0 <= i < |s| ==> s[i] == n * w[i]
    ensures Val(s, R) % n == 0 && DivisibleBy(s, n)
  {
    assert s == Scale(n, w);
    ValScale(n, w, R);
    DivUnique(Val(s, R), n, Val(w, R), 0);
    forall i | 0 <= i < |s| ensures s[i] % n == 0 {
      DivUnique(s[i], n, w[i], 0);
    }
  }

  // ----- two, three and four terms -----

  lemma {:induction false} DotLast(x: seq<int>, y: seq<int>)
    requires x != [] && y != []
    ensures DotAt(x, y, |x| + |y| - 2) == x[|x| - 1] * y[|y| - 1]
  {
    if |x| == 1 {
      assert DotAt(x[1..], y, |y| - 2) == 0;
    } else {
      DotLast(x[1..], y);
    }
  }

  lemma {:induction false} ConvEnds(x: seq<int>, y: seq<int>)
    requires x != [] && y != []
    ensures Conv(x, y)[0] == x[0] * y[0]
    ensures Conv(x, y)[|x| + |y| - 2] == x[|x| - 1] * y[|y| - 1]
  {
    DotOutside(x[1..], y, -1);
    DotLast(x, y);
  }

  /** The value of a short list, written out. */
  lemma {:induction false} ValSmall(s: seq<int>, t: int)
    requires 1 <= |s| <= 7
    ensures Val(s, t) == s[0] + t * Val(s[1..], t)
    ensures |s| == 2 ==> Val(s, t) == s[0] + t * s[1]
    ensures |s| == 3 ==> Val(s, t) == s[0] + t * (s[1] + t * s[2])
    ensures |s| == 4 ==> Val(s, t) == s[0] + t * (s[1] + t * (s[2] + t * s[3]))
    ensures |s| == 5 ==> Val(s, t) == s[0] + t * (s[1] + t * (s[2] + t * (s[3] + t * s[4])))
    ensures |s| == 7 ==> Val(s, t) == s[0] + t * (s[1] + t * (s[2] + t * (s[3] + t * (s[4] + t * (s[5] + t * s[6])))))
  {
    if |s| == 1 {
      assert s[1..] == [];
    } else {
      ValSmall(s[1..], t);
      if |s| == 2 {
        assert s[1..][1..] == [];
      } else if |s| == 7 {
        ValSmall(s[1..][1..], t);
      }
    }
  }

  /** Products of two, three and four terms, evaluated at the points used for interpolation. */
  lemma {:induction false} Points2(x: seq<int>, y: seq<int>)
    requires |x| == |y| == 2
    ensures var c := Conv(x, y); c[0] + c[1] + c[2] == (x[0] + x[1]) * (y[0] + y[1])
  {
    ValConv(x, y, 1);
    ValSmall(x, 1); ValSmall(y, 1); ValSmall(Conv(x, y), 1);
  }

  /** x(t) * y(t) = z(t) for three terms, at the points t = 1, -1, 2. */
  lemma {:induction false} Points3(x: seq<int>, y: seq<int>, c: seq<int>)
    requires |x| == |y| == 3 && c == Conv(x, y)
    ensures c[0] + c[1] + c[2] + c[3] + c[4] == (x[0] + x[1] + x[2]) * (y[0] + y[1] + y[2])
    ensures c[0] - c[1] + c[2] - c[3] + c[4] == (x[0] - x[1] + x[2]) * (y[0] - y[1] + y[2])
    ensures c[0] + 2 * c[1] + 4 * c[2] + 8 * c[3] + 16 * c[4]
         == (x[0] + 2 * x[1] + 4 * x[2]) * (y[0] + 2 * y[1] + 4 * y[2])
  {
    Points(x, y, 1); Points(x, y, -1); Points(x, y, 2);
  }

  /** The same for four terms, at t = 1, -1, 2, -2, 3, split into even and odd parts. */
  ghost predicate SevenSums(c: seq<int>, p1: int, p2: int, p3: int, p4: int, p5: int)
    requires |c| == 7
  {
    && c[0] + c[1] + c[2] + c[3] + c[4] + c[5] + c[6] == p1
    && c[0] - c[1] + c[2] - c[3] + c[4] - c[5] + c[6] == p2
    && c[0] + 2 * c[1] + 4 * c[2] + 8 * c[3] + 16 * c[4] + 32 * c[5] + 64 * c[6] == p3
    && c[0] - 2 * c[1] + 4 * c[2] - 8 * c[3] + 16 * c[4] - 32 * c[5] + 64 * c[6] == p4
    && c[0] + 3 * c[1] + 9 * c[2] + 27 * c[3] + 81 * c[4] + 243 * c[5] + 729 * c[6] == p5
  }

  /** The value of z at t, by Horner's rule. */
  ghost predicate ValueAt(c: seq<int>, t: int, p: int)
    requires |c| == 7
  {
    p == c[0] + t * (c[1] + t * (c[2] + t * (c[3] + t * (c[4] + t * (c[5] + t * c[6])))))
  }

  lemma {:induction false} SumsFromValues(c: seq<int>, p1: int, p2: int, p3: int, p4: int, p5: int)
    requires |c| == 7 && ValueAt(c, 1, p1) && ValueAt(c, -1, p2) && ValueAt(c, 2, p3) && ValueAt(c, -2, p4) && ValueAt(c, 3, p5)
    ensures SevenSums(c, p1, p2, p3, p4, p5)
  {}

  lemma {:induction false} Points4(x: seq<int>, y: seq<int>, c: seq<int>)
    requires |x| == |y| == 4 && c == Conv(x, y)
    ensures SevenSums(c,
      (x[0] + x[2] + (x[1] + x[3])) * (y[0] + y[2] + (y[1] + y[3])),
      (x[0] + x[2] - (x[1] + x[3])) * (y[0] + y[2] - (y[1] + y[3])),
      ((x[0] + 4 * x[2]) + (2 * x[1] + 8 * x[3])) * ((y[0] + 4 * y[2]) + (2 * y[1] + 8 * y[3])),
      ((x[0] + 4 * x[2]) - (2 * x[1] + 8 * x[3])) * ((y[0] + 4 * y[2]) - (2 * y[1] + 8 * y[3])),
      (x[0] + 3 * x[1] + 9 * x[2] + 27 * x[3]) * (y[0] + 3 * y[1] + 9 * y[2] + 27 * y[3]))
  {
    var (x1, y1) := (x[0] + x[2] + (x[1] + x[3]), y[0] + y[2] + (y[1] + y[3]));
    var (x2, y2) := (x[0] + x[2] - (x[1] + x[3]), y[0] + y[2] - (y[1] + y[3]));
    var (x3, y3) := ((x[0] + 4 * x[2]) + (2 * x[1] + 8 * x[3]), (y[0] + 4 * y[2]) + (2 * y[1] + 8 * y[3]));
    var (x4, y4) := ((x[0] + 4 * x[2]) - (2 * x[1] + 8 * x[3]), (y[0] + 4 * y[2]) - (2 * y[1] + 8 * y[3]));
    var (x5, y5) := (x[0] + 3 * x[1] + 9 * x[2] + 27 * x[3], y[0] + 3 * y[1] + 9 * y[2] + 27 * y[3]);
    Point4(x, y, 1, x1, y1);
    Point4(x, y, -1, x2, y2);
    Point4(x, y, 2, x3, y3);
    Point4(x, y, -2, x4, y4);
    Point4(x, y, 3, x5, y5);
    SumsFromValues(c, x1 * y1, x2 * y2, x3 * y3, x4 * y4, x5 * y5);
  }

  lemma {:induction false} Point4(x: seq<int>, y: seq<int>, t: int, xt: int, yt: int)
    requires |x| == |y| == 4
    requires xt == x[0] + t * (x[1] + t * (x[2] + t * x[3]))
    requires yt == y[0] + t * (y[1] + t * (y[2] + t * y[3]))
    ensures ValueAt(Conv(x, y), t, xt * yt)
  {
    Points(x, y, t);
  }

  lemma {:induction false} Points(x: seq<int>, y: seq<int>, t: int)
    requires |x| == |y| && 2 <= |x| <= 4
    ensures Val(Conv(x, y), t) == Val(x, t) * Val(y, t)
    ensures |x| == 3 ==> Val(x, t) == x[0] + t * (x[1] + t * x[2])
    ensures |x| == 3 ==> Val(y, t) == y[0] + t * (y[1] + t * y[2])
    ensures |x| == 3 ==> var s := Conv(x, y);
                         Val(s, t) == s[0] + t * (s[1] + t * (s[2] + t * (s[3] + t * s[4])))
    ensures |x| == 4 ==> Val(x, t) == x[0] + t * (x[1] + t * (x[2] + t * x[3]))
    ensures |x| == 4 ==> Val(y, t) == y[0] + t * (y[1] + t * (y[2] + t * y[3]))
    ensures |x| == 4 ==> var s := Conv(x, y);
                         Val(s, t) == s[0] + t * (s[1] + t * (s[2] + t * (s[3] + t * (s[4] + t * (s[5] + t * s[6])))))
  {
    ValConv(x, y, t);
    ValSmall(x, t); ValSmall(y, t); ValSmall(Conv(x, y), t);
  }

  function KMul2x2s(x: seq<int>, y: seq<int>): (z: seq<int>)
    requires |x| == |y| == 2
    ensures z == Conv(x, y)
  {
    var (z0, z2) := (x[0] * y[0], x[1] * y[1]);
    var z1 := (x[0] + x[1]) * (y[0] + y[1]) - z0 - z2;
    assert [z0, z1, z2] == Conv(x, y) by {
      ConvEnds(x, y);
      Points2(x, y);
    }
    [z0, z1, z2]
  }

  ghost predicate FiveSums(c: seq<int>, p1: int, p2: int, p3: int)
    requires |c| == 5
  {
    && c[0] + c[1] + c[2] + c[3] + c[4] == p1
    && c[0] - c[1] + c[2] - c[3] + c[4] == p2
    && c[0] + 2 * c[1] + 4 * c[2] + 8 * c[3] + 16 * c[4] == p3
  }

  /** Solve three equations with three unknowns. */
  function Solve3(z0: int, z4: int, t1: int, t2: int, t3: int): seq<int> {
    var z2 := (t1 + t2) / 2 - z0 - z4;
    var t4 := t3 - z0 - 4 * z2 - 16 * z4;
    var z3 := (t4 - t1 + t2) / 6;
    var z1 := (t1 - t2) / 2 - z3;
    [z0, z1, z2, z3, z4]
  }

  lemma {:induction false} Solve3Is(c: seq<int>, t1: int, t2: int, t3: int)
    requires |c| == 5 && FiveSums(c, t1, t2, t3)
    ensures Solve3(c[0], c[4], t1, t2, t3) == c
  {
    assert t1 + t2 == 2 * (c[0] + c[2] + c[4]) && t1 - t2 == 2 * (c[1] + c[3]);
    var t4 := t3 - c[0] - 4 * c[2] - 16 * c[4];
    assert t4 - t1 + t2 == 6 * c[3];
  }

  function KMul3x3s(x: seq<int>, y: seq<int>): (z: seq<int>)
    requires |x| == |y| == 3
    ensures z == Conv(x, y)
  {
    var (x0, x1, x2) := (x[0], x[1], x[2]);
    var (y0, y1, y2) := (y[0], y[1], y[2]);
    var z := Solve3(x0 * y0, x2 * y2,
                    (x0 + x1 + x2) * (y0 + y1 + y2),
                    (x0 - x1 + x2) * (y0 - y1 + y2),
                    (x0 + 2 * x1 + 4 * x2) * (y0 + 2 * y1 + 4 * y2));
    assert z == Conv(x, y) by {
      ConvEnds(x, y);
      Points3(x, y, Conv(x, y));
      Solve3Is(Conv(x, y), (x0 + x1 + x2) * (y0 + y1 + y2), (x0 - x1 + x2) * (y0 - y1 + y2),
               (x0 + 2 * x1 + 4 * x2) * (y0 + 2 * y1 + 4 * y2));
    }
    z
  }

  /** Solve five equations with five unknowns. */
  function Solve4(z0: int, z6: int, p1: int, p2: int, p3: int, p4: int, p5: int): seq<int> {
    var (t1, t2) := (p1 - (z0 + z6), p2 - (z0 + z6));
    var t0 := z0 + 64 * z6;
    var (t3, t4) := (p3 - t0, p4 - t0);
    var t5 := p5 - (z0 + 729 * z6);
    var (z2, z4) := SolveEven(t1 + t2, t3 + t4);
    var (z1, z3, z5) := SolveOdd(t1 - z2 - z4, t3 - 4 * z2 - 16 * z4, t5 - 9 * z2 - 81 * z4);
    [z0, z1, z2, z3, z4, z5, z6]
  }

  lemma {:induction false} Solve4Is(c: seq<int>, p1: int, p2: int, p3: int, p4: int, p5: int)
    requires |c| == 7 && SevenSums(c, p1, p2, p3, p4, p5)
    ensures Solve4(c[0], c[6], p1, p2, p3, p4, p5) == c
  {
    var (c0, c1, c2, c3, c4, c5, c6) := (c[0], c[1], c[2], c[3], c[4], c[5], c[6]);
    SolveEvenIs(c2, c4);
    SolveOddIs(c1, c3, c5);
    assert (p1 - (c0 + c6)) + (p2 - (c0 + c6)) == 2 * (c2 + c4);
    assert (p3 - (c0 + 64 * c6)) + (p4 - (c0 + 64 * c6)) == 8 * c2 + 32 * c4;
    assert p1 - (c0 + c6) - c2 - c4 == c1 + c3 + c5;
    assert p3 - (c0 + 64 * c6) - 4 * c2 - 16 * c4 == 2 * c1 + 8 * c3 + 32 * c5;
    assert p5 - (c0 + 729 * c6) - 9 * c2 - 81 * c4 == 3 * c1 + 27 * c3 + 243 * c5;
  }

  lemma {:induction false} SolveEvenIs(c2: int, c4: int)
    ensures SolveEven(2 * (c2 + c4), 8 * c2 + 32 * c4) == (c2, c4)
  {
    assert (8 * c2 + 32 * c4) - 4 * (2 * (c2 + c4)) == 24 * c4;
  }

  lemma {:induction false} SolveOddIs(c1: int, c3: int, c5: int)
    ensures SolveOdd(c1 + c3 + c5, 2 * c1 + 8 * c3 + 32 * c5, 3 * c1 + 27 * c3 + 243 * c5) == (c1, c3, c5)
  {
    var (t11, t12) := (24 * c3 + 240 * c5, 6 * c3 + 30 * c5);
    assert t11 - 4 * t12 == 120 * c5 && 8 * t12 - t11 == 24 * c3;
  }

  function SolveEven(t6: int, t7: int): (int, int) {
    var z4 := (t7 - 4 * t6) / 24;
    (t6 / 2 - z4, z4)
  }

  function SolveOdd(t8: int, t9: int, t10: int): (int, int, int) {
    var t11 := t10 - 3 * t8;
    var t12 := t9 - 2 * t8;
    var z5 := (t11 - 4 * t12) / 120;
    var z3 := (8 * t12 - t11) / 24;
    (t8 - z3 - z5, z3, z5)
  }

  function KMul4x4s(x: seq<int>, y: seq<int>): (z: seq<int>)
    requires |x| == |y| == 4
    ensures z == Conv(x, y)
  {
    var (x0, x1, x2, x3) := (x[0], x[1], x[2], x[3]);
    var (y0, y1, y2, y3) := (y[0], y[1], y[2], y[3]);
    var z := Solve4(x0 * y0, x3 * y3,
      (x0 + x2 + (x1 + x3)) * (y0 + y2 + (y1 + y3)),
      (x0 + x2 - (x1 + x3)) * (y0 + y2 - (y1 + y3)),
      ((x0 + 4 * x2) + (2 * x1 + 8 * x3)) * ((y0 + 4 * y2) + (2 * y1 + 8 * y3)),
      ((x0 + 4 * x2) - (2 * x1 + 8 * x3)) * ((y0 + 4 * y2) - (2 * y1 + 8 * y3)),
      (x0 + 3 * x1 + 9 * x2 + 27 * x3) * (y0 + 3 * y1 + 9 * y2 + 27 * y3));
    assert z == Conv(x, y) by {
      ConvEnds(x, y);
      Points4(x, y, Conv(x, y));
      Solve4Is(Conv(x, y),
        (x0 + x2 + (x1 + x3)) * (y0 + y2 + (y1 + y3)),
        (x0 + x2 - (x1 + x3)) * (y0 + y2 - (y1 + y3)),
        ((x0 + 4 * x2) + (2 * x1 + 8 * x3)) * ((y0 + 4 * y2) + (2 * y1 + 8 * y3)),
        ((x0 + 4 * x2) - (2 * x1 + 8 * x3)) * ((y0 + 4 * y2) - (2 * y1 + 8 * y3)),
        (x0 + 3 * x1 + 9 * x2 + 27 * x3) * (y0 + 3 * y1 + 9 * y2 + 27 * y3));
    }
    z
  }

  // ----- lists cut into pieces -----

  /** The polynomial with list coefficients l, evaluated at the number t. */
  ghost function Eval(l: seq<seq<int>>, t: int, len: nat): (r: seq<int>)
    requires Pieces(l, len)
    ensures |r| == len
  {
    if l == [] then Zeros(len) else Add(l[0], Scale(t, Eval(l[1..], t, len)))
  }

  lemma {:induction false} ValEval(l: seq<seq<int>>, t: int, len: nat, b: int)
    requires Pieces(l, len)
    ensures Val(Eval(l, t, len), b) == Val(Vals(l, b), t)
  {
    if l == [] {
      ValZeros(len, b);
    } else {
      var rest := Eval(l[1..], t, len);
      ValAdd(l[0], Scale(t, rest), b);
      ValScale(t, rest, b);
      ValEval(l[1..], t, len, b);
      assert Vals(l, b)[1..] == Vals(l[1..], b);
    }
  }

  ghost function Column(l: seq<seq<int>>, i: nat, len: nat): (c: seq<int>)
    requires Pieces(l, len) && i < len
    ensures |c| == |l|
  {
    seq(|l|, k requires 0 <= k < |l| => l[k][i])
  }

  lemma {:induction false} EvalAt(l: seq<seq<int>>, t: int, len: nat, i: nat)
    requires Pieces(l, len) && i < len
    ensures Eval(l, t, len)[i] == Val(Column(l, i, len), t)
  {
    if l != [] {
      EvalAt(l[1..], t, len, i);
      assert Column(l, i, len)[1..] == Column(l[1..], i, len);
    }
  }

  /** Coefficient k of the product of two polynomials with list coefficients. */
  ghost function PieceDot(xs: seq<seq<int>>, ys: seq<seq<int>>, k: int, len: nat): (r: seq<int>)
    requires len > 0 && Pieces(xs, len) && Pieces(ys, len)
    ensures |r| == 2 * len - 1
  {
    if xs == [] then Zeros(2 * len - 1)
    else Add(if 0 <= k < |ys| then Conv(xs[0], ys[k]) else Zeros(2 * len - 1),
             PieceDot(xs[1..], ys, k - 1, len))
  }

  ghost function PieceConv(xs: seq<seq<int>>, ys: seq<seq<int>>, len: nat): (c: seq<seq<int>>)
    requires len > 0 && Pieces(xs, len) && Pieces(ys, len) && |xs| == |ys| > 0
    ensures |c| == 2 * |xs| - 1 && Pieces(c, 2 * len - 1)
  {
    seq(2 * |xs| - 1, k => PieceDot(xs, ys, k, len))
  }

  lemma {:induction false} FirstPiece(x: seq<int>, ys: seq<seq<int>>, k: int, len: nat, b: int)
    requires len > 0 && |x| == len && Pieces(ys, len)
    ensures Val(if 0 <= k < |ys| then Conv(x, ys[k]) else Zeros(2 * len - 1), b) == Val(x, b) * Coef(Vals(ys, b), k)
  {
    if 0 <= k < |ys| { ValConv(x, ys[k], b); } else { ValZeros(2 * len - 1, b); }
  }

  lemma {:induction false} ValPieceDot(xs: seq<seq<int>>, ys: seq<seq<int>>, k: int, len: nat, b: int)
    requires len > 0 && Pieces(xs, len) && Pieces(ys, len)
    ensures Val(PieceDot(xs, ys, k, len), b) == DotAt(Vals(xs, b), Vals(ys, b), k)
  {
    if xs == [] {
      ValZeros(2 * len - 1, b);
    } else {
      var first := if 0 <= k < |ys| then Conv(xs[0], ys[k]) else Zeros(2 * len - 1);
      FirstPiece(xs[0], ys, k, len, b);
      ValAdd(first, PieceDot(xs[1..], ys, k - 1, len), b);
      ValPieceDot(xs[1..], ys, k - 1, len, b);
      assert Vals(xs, b)[1..] == Vals(xs[1..], b);
    }
  }

  lemma {:induction false} ValsPieceConv(xs: seq<seq<int>>, ys: seq<seq<int>>, len: nat, b: int)
    requires len > 0 && Pieces(xs, len) && Pieces(ys, len) && |xs| == |ys| > 0
    ensures Vals(PieceConv(xs, ys, len), b) == Conv(Vals(xs, b), Vals(ys, b))
  {
    forall k | 0 <= k < 2 * |xs| - 1
      ensures Vals(PieceConv(xs, ys, len), b)[k] == Conv(Vals(xs, b), Vals(ys, b))[k]
    {
      ValPieceDot(xs, ys, k, len, b);
    }
  }

  /** c holds the coefficients of the product of two polynomials with list coefficients. */
  ghost predicate IsProduct(c: seq<seq<int>>, xs: seq<seq<int>>, ys: seq<seq<int>>, len: nat) {
    && len > 0 && Pieces(xs, len) && Pieces(ys, len) && |xs| == |ys| > 0
    && |c| == 2 * |xs| - 1 && Pieces(c, 2 * len - 1)
    && forall b :: b >= 2 ==> Vals(c, b) == Conv(Vals(xs, b), Vals(ys, b))
  }

  lemma {:induction false} MakeProduct(xs: seq<seq<int>>, ys: seq<seq<int>>, len: nat) returns (c: seq<seq<int>>)
    requires len > 0 && Pieces(xs, len) && Pieces(ys, len) && |xs| == |ys| > 0
    ensures IsProduct(c, xs, ys, len)
  {
    c := PieceConv(xs, ys, len);
    forall b | b >= 2 ensures Vals(c, b) == Conv(Vals(xs, b), Vals(ys, b)) {
      ValsPieceConv(xs, ys, len, b);
    }
  }

  /** Multiplying the values at t of two cut lists gives the value at t of their product. */
  lemma {:induction false} PieceProduct(c: seq<seq<int>>, xs: seq<seq<int>>, ys: seq<seq<int>>, len: nat, t: int)
    requires IsProduct(c, xs, ys, len)
    ensures Conv(Eval(xs, t, len), Eval(ys, t, len)) == Eval(c, t, 2 * len - 1)
  {
    var (xt, yt) := (Eval(xs, t, len), Eval(ys, t, len));
    forall b | b >= 2 ensures Val(Eval(c, t, 2 * len - 1), b) == Val(xt, b) * Val(yt, b) {
      ValEval(c, t, 2 * len - 1, b);
      ValEval(xs, t, len, b);
      ValEval(ys, t, len, b);
      ValConv(Vals(xs, b), Vals(ys, b), t);
    }
    ConvUnique(Eval(c, t, 2 * len - 1), xt, yt);
  }

  /** The outermost coefficients are single products. */
  lemma {:induction false} PieceEnds(c: seq<seq<int>>, xs: seq<seq<int>>, ys: seq<seq<int>>, len: nat)
    requires IsProduct(c, xs, ys, len)
    ensures c[0] == Conv(xs[0], ys[0])
    ensures c[2 * |xs| - 2] == Conv(xs[|xs| - 1], ys[|xs| - 1])
  {
    var n := |xs|;
    var (first, last) := (Conv(xs[0], ys[0]), Conv(xs[n - 1], ys[n - 1]));
    var (c0, cn) := (c[0], c[2 * n - 2]);
    forall b | b >= 2 ensures Val(c0, b) == Val(first, b) {
      PieceEndVals(c, xs, ys, len, b);
    }
    forall b | b >= 2 ensures Val(cn, b) == Val(last, b) {
      PieceEndVals(c, xs, ys, len, b);
    }
    ValUnique(c0, first);
    ValUnique(cn, last);
  }

  lemma {:induction false} PieceEndVals(c: seq<seq<int>>, xs: seq<seq<int>>, ys: seq<seq<int>>, len: nat, b: int)
    requires IsProduct(c, xs, ys, len) && b >= 2
    ensures var n := |xs|; Val(c[0], b) == Val(Conv(xs[0], ys[0]), b)
                           && Val(c[2 * n - 2], b) == Val(Conv(xs[n - 1], ys[n - 1]), b)
  {
    var n := |xs|;
    var (v, w) := (Vals(xs, b), Vals(ys, b));
    ConvEnds(v, w);
    assert Vals(c, b)[0] == Val(c[0], b) && Vals(c, b)[2 * n - 2] == Val(c[2 * n - 2], b);
    ValConv(xs[0], ys[0], b);
    ValConv(xs[n - 1], ys[n - 1], b);
  }

  /** The sum of b^((k + j) s) * v[j]: numbers placed at distance s from each other. */
  ghost function Spread(v: seq<int>, b: int, s: nat, k: nat): int {
    if v == [] then 0 else Pow(b, k * s) * v[0] + Spread(v[1..], b, s, k + 1)
  }

  lemma {:induction false} SpreadVal(v: seq<int>, b: int, s: nat, k: nat)
    ensures Spread(v, b, s, k) == Pow(b, k * s) * Val(v, Pow(b, s))
  {
    if v != [] {
      SpreadVal(v[1..], b, s, k + 1);
      var (p, q, w) := (Pow(b, k * s), Pow(b, s), Val(v[1..], Pow(b, s)));
      assert (k + 1) * s == k * s + s;
      PowAdd(b, k * s, s);
      Assoc(p, q, w);
      Distrib(p, v[0], q * w);
    }
  }

  /** A list has the value of its pieces, placed next to each other. */
  ghost predicate CutInto(x: seq<int>, xs: seq<seq<int>>, s: nat) {
    forall b :: b >= 2 ==> Val(x, b) == Spread(Vals(xs, b), b, s, 0)
  }

  /** Placing the coefficients of the product of the pieces gives the product of the lists. */
  lemma {:induction false} Assemble(z: seq<int>, x: seq<int>, y: seq<int>, c: seq<seq<int>>,
                                    xs: seq<seq<int>>, ys: seq<seq<int>>, s: nat)
    requires IsProduct(c, xs, ys, s)
    requires x != [] && y != [] && |z| == |x| + |y| - 1
    requires CutInto(x, xs, s) && CutInto(y, ys, s) && CutInto(z, c, s)
    ensures z == Conv(x, y)
  {
    forall b | b >= 2 ensures Val(z, b) == Val(x, b) * Val(y, b) {
      SpreadVal(Vals(xs, b), b, s, 0);
      SpreadVal(Vals(ys, b), b, s, 0);
      SpreadVal(Vals(c, b), b, s, 0);
      ValConv(Vals(xs, b), Vals(ys, b), Pow(b, s));
    }
    ConvUnique(z, x, y);
  }

  lemma {:induction false} SpreadSmall(l: seq<seq<int>>, b: int, s: nat, k: nat)
    requires 1 <= |l| <= 7
    ensures Spread(Vals(l, b), b, s, k) == Pow(b, k * s) * Val(l[0], b) + Spread(Vals(l[1..], b), b, s, k + 1)
    ensures Spread(Vals([], b), b, s, k) == 0
  {
    assert Vals(l, b)[1..] == Vals(l[1..], b);
  }

  lemma {:induction false} Spread2(l: seq<seq<int>>, b: int, s: nat)
    requires |l| == 2
    ensures Spread(Vals(l, b), b, s, 0) == Val(l[0], b) + Pow(b, s) * Val(l[1], b)
  {
    SpreadSmall(l, b, s, 0);
    SpreadSmall(l[1..], b, s, 1);
    assert l[1..][1..] == [];
  }

  lemma {:induction false} Spread4(l: seq<seq<int>>, b: int, s: nat)
    requires |l| == 4
    ensures Spread(Vals(l, b), b, s, 0) ==
      Val(l[0], b) + Pow(b, s) * Val(l[1], b) + Pow(b, 2 * s) * Val(l[2], b) + Pow(b, 3 * s) * Val(l[3], b)
  {
    SpreadSmall(l, b, s, 0);
    SpreadSmall(l[1..], b, s, 1);
    SpreadSmall(l[2..], b, s, 2);
    SpreadSmall(l[3..], b, s, 3);
    assert l[1..][1..] == l[2..] && l[2..][1..] == l[3..] && l[3..][1..] == [];
  }

  lemma {:induction false} Spread3(l: seq<seq<int>>, b: int, s: nat)
    requires |l| == 3
    ensures Spread(Vals(l, b), b, s, 0) ==
      Val(l[0], b) + Pow(b, s) * Val(l[1], b) + Pow(b, 2 * s) * Val(l[2], b)
  {
    SpreadSmall(l, b, s, 0);
    SpreadSmall(l[1..], b, s, 1);
    SpreadSmall(l[2..], b, s, 2);
    assert l[1..][1..] == l[2..] && l[2..][1..] == [];
  }

  lemma {:induction false} Spread5(l: seq<seq<int>>, b: int, s: nat)
    requires |l| == 5
    ensures Spread(Vals(l, b), b, s, 0) ==
      Val(l[0], b) + Pow(b, s) * Val(l[1], b) + Pow(b, 2 * s) * Val(l[2], b)
      + Pow(b, 3 * s) * Val(l[3], b) + Pow(b, 4 * s) * Val(l[4], b)
  {
    SpreadSmall(l, b, s, 0);
    SpreadSmall(l[1..], b, s, 1);
    SpreadSmall(l[2..], b, s, 2);
    SpreadSmall(l[3..], b, s, 3);
    SpreadSmall(l[4..], b, s, 4);
    assert l[1..][1..] == l[2..] && l[2..][1..] == l[3..] && l[3..][1..] == l[4..] && l[4..][1..] == [];
  }

  lemma {:induction false} Spread7(l: seq<seq<int>>, b: int, s: nat)
    requires |l| == 7
    ensures Spread(Vals(l, b), b, s, 0) ==
      Val(l[0], b) + Pow(b, s) * Val(l[1], b) + Pow(b, 2 * s) * Val(l[2], b)
      + Pow(b, 3 * s) * Val(l[3], b) + Pow(b, 4 * s) * Val(l[4], b)
      + Pow(b, 5 * s) * Val(l[5], b) + Pow(b, 6 * s) * Val(l[6], b)
  {
    SpreadSmall(l, b, s, 0);
    SpreadSmall(l[1..], b, s, 1);
    SpreadSmall(l[2..], b, s, 2);
    SpreadSmall(l[3..], b, s, 3);
    SpreadSmall(l[4..], b, s, 4);
    SpreadSmall(l[5..], b, s, 5);
    SpreadSmall(l[6..], b, s, 6);
    assert l[1..][1..] == l[2..] && l[2..][1..] == l[3..] && l[3..][1..] == l[4..];
    assert l[4..][1..] == l[5..] && l[5..][1..] == l[6..] && l[6..][1..] == [];
  }

  lemma {:induction false} CutTwo(x: seq<int>, s: nat)
    requires s < |x| <= 2 * s
    ensures CutInto(x, [x[..s], x[s..] + Zeros(s - |x[s..]|)], s)
  {
    var xs := [x[..s], x[s..] + Zeros(s - |x[s..]|)];
    forall b | b >= 2 ensures Val(x, b) == Spread(Vals(xs, b), b, s, 0) {
      ValSplit(x, s, b);
      ValPad(x[s..], s - |x[s..]|, b);
      Spread2(xs, b, s);
    }
  }

  lemma {:induction false} CutThree(x: seq<int>, s: nat)
    requires 2 * s < |x| <= 3 * s
    ensures CutInto(x, [x[..s], x[s..2 * s], x[2 * s..] + Zeros(s - |x[2 * s..]|)], s)
  {
    var xs := [x[..s], x[s..2 * s], x[2 * s..] + Zeros(s - |x[2 * s..]|)];
    forall b | b >= 2 ensures Val(x, b) == Spread(Vals(xs, b), b, s, 0) {
      SplitAt(x, 2 * s, s, b);
      ValPad(x[2 * s..], s - |x[2 * s..]|, b);
      Spread3(xs, b, s);
    }
  }

  lemma {:induction false} CutFour(x: seq<int>, s: nat)
    requires 3 * s < |x| <= 4 * s
    ensures CutInto(x, [x[..s], x[s..2 * s], x[2 * s..3 * s], x[3 * s..] + Zeros(s - |x[3 * s..]|)], s)
  {
    var xs := [x[..s], x[s..2 * s], x[2 * s..3 * s], x[3 * s..] + Zeros(s - |x[3 * s..]|)];
    forall b | b >= 2 ensures Val(x, b) == Spread(Vals(xs, b), b, s, 0) {
      SplitAt(x, 3 * s, 2 * s, b);
      SplitAt(x[..3 * s], 2 * s, s, b);
      var t := x[..3 * s];
      assert t[..s] == x[..s] && t[s..2 * s] == x[s..2 * s] && t[2 * s..] == x[2 * s..3 * s];
      assert x[..2 * s] == t[..2 * s];
      ValSplit(x, 3 * s, b);
      ValPad(x[3 * s..], s - |x[3 * s..]|, b);
      Spread4(xs, b, s);
    }
  }

  lemma {:induction false} SplitAt(x: seq<int>, k: nat, j: nat, b: int)
    requires j <= k <= |x|
    ensures Val(x, b) == Val(x[..j], b) + Pow(b, j) * Val(x[j..k], b) + Pow(b, k) * Val(x[k..], b)
  {
    ValSplit(x, k, b);
    ValSplit(x[..k], j, b);
    assert x[..k][..j] == x[..j] && x[..k][j..] == x[j..k];
  }

  // ----- the slice assignments that put the coefficients together -----

  /** The result of the slice assignments, for two, three and four pieces. */
  ghost function Placed2(n: nat, s: nat, z0: seq<int>, z1: seq<int>, z2: seq<int>): (z: seq<int>)
    requires s >= 1 && |z0| == 2 * s - 1 && 2 * s + |z2| == 2 * n - 1 && s + |z1| <= 2 * n - 1
    ensures |z| == 2 * n - 1
  {
    AddAt(Put(Put(Zeros(2 * n - 1), 2 * s, z2), 0, z0), s, z1)
  }

  ghost function Placed3(n: nat, s: nat, z0: seq<int>, z1: seq<int>, z2: seq<int>, z3: seq<int>, z4: seq<int>): (z: seq<int>)
    requires s >= 1 && |z0| == |z1| == |z2| == 2 * s - 1
    requires 4 * s + |z4| == 2 * n - 1 && 3 * s + |z3| <= 2 * n - 1
    ensures |z| == 2 * n - 1
  {
    AddAt(AddAt(Put(Put(Put(Zeros(2 * n - 1), 4 * s, z4), 0, z0), 2 * s, z2), s, z1), 3 * s, z3)
  }

  ghost function Placed4(n: nat, s: nat, z0: seq<int>, z1: seq<int>, z2: seq<int>, z3: seq<int>,
                         z4: seq<int>, z5: seq<int>, z6: seq<int>): (z: seq<int>)
    requires s >= 1 && |z0| == |z1| == |z2| == |z3| == |z4| == 2 * s - 1
    requires 6 * s + |z6| == 2 * n - 1 && |z6| >= 1 && 5 * s + |z5| <= 2 * n - 1
    ensures |z| == 2 * n - 1
  {
    AddAt(AddAt(AddAt(Put(Put(Put(Put(Zeros(2 * n - 1), 6 * s, z6), 0, z0), 2 * s, z2), 4 * s, z4),
                      s, z1), 3 * s, z3), 5 * s, z5)
  }

  lemma {:induction false} Place3(n: nat, s: nat, z0: seq<int>, z1: seq<int>, z2: seq<int>, b: int)
    requires s >= 1 && |z0| == 2 * s - 1 && 2 * s + |z2| == 2 * n - 1 && s + |z1| <= 2 * n - 1
    ensures Val(Placed2(n, s, z0, z1, z2), b)
         == Val(z0, b) + Pow(b, s) * Val(z1, b) + Pow(b, 2 * s) * Val(z2, b)
  {
    var a := Zeros(2 * n - 1);
    var c := Put(a, 2 * s, z2);
    ValZeros(2 * n - 1, b);
    PutElsewhere(a, 2 * s, z2, 0, 2 * s - 1);
    ValPutZeros(a, 2 * s, z2, b);
    ValPutZeros(c, 0, z0, b);
    ValAddAt(Put(c, 0, z0), s, z1, b);
  }

  lemma {:induction false} Place5(n: nat, s: nat, z0: seq<int>, z1: seq<int>, z2: seq<int>, z3: seq<int>,
                                  z4: seq<int>, b: int)
    requires s >= 1 && |z0| == |z1| == |z2| == 2 * s - 1
    requires 4 * s + |z4| == 2 * n - 1 && 3 * s + |z3| <= 2 * n - 1
    ensures Val(Placed3(n, s, z0, z1, z2, z3, z4), b)
         == Val(z0, b) + Pow(b, s) * Val(z1, b) + Pow(b, 2 * s) * Val(z2, b)
            + Pow(b, 3 * s) * Val(z3, b) + Pow(b, 4 * s) * Val(z4, b)
  {
    var a := Zeros(2 * n - 1);
    var c := Put(a, 4 * s, z4);
    var d := Put(c, 0, z0);
    var e := Put(d, 2 * s, z2);
    ValZeros(2 * n - 1, b);
    PutElsewhere(a, 4 * s, z4, 0, 4 * s - 1);
    PutElsewhere(c, 0, z0, 2 * s, 4 * s - 1);
    ValPutZeros(a, 4 * s, z4, b);
    ValPutZeros(c, 0, z0, b);
    ValPutZeros(d, 2 * s, z2, b);
    ValAddAt(e, s, z1, b);
    ValAddAt(AddAt(e, s, z1), 3 * s, z3, b);
  }

  lemma {:induction false} Place7(n: nat, s: nat, z0: seq<int>, z1: seq<int>, z2: seq<int>, z3: seq<int>,
                                  z4: seq<int>, z5: seq<int>, z6: seq<int>, b: int)
    requires s >= 1 && |z0| == |z1| == |z2| == |z3| == |z4| == 2 * s - 1
    requires 6 * s + |z6| == 2 * n - 1 && |z6| >= 1 && 5 * s + |z5| <= 2 * n - 1
    ensures Val(Placed4(n, s, z0, z1, z2, z3, z4, z5, z6), b)
         == Val(z0, b) + Pow(b, s) * Val(z1, b) + Pow(b, 2 * s) * Val(z2, b)
            + Pow(b, 3 * s) * Val(z3, b) + Pow(b, 4 * s) * Val(z4, b)
            + Pow(b, 5 * s) * Val(z5, b) + Pow(b, 6 * s) * Val(z6, b)
  {
    var a := Zeros(2 * n - 1);
    var c := Put(a, 6 * s, z6);
    var d := Put(c, 0, z0);
    var e := Put(d, 2 * s, z2);
    var f := Put(e, 4 * s, z4);
    var g := AddAt(f, s, z1);
    ValZeros(2 * n - 1, b);
    PutElsewhere(a, 6 * s, z6, 0, 6 * s - 1);
    PutElsewhere(c, 0, z0, 2 * s, 6 * s - 1);
    PutElsewhere(d, 2 * s, z2, 4 * s, 6 * s - 1);
    ValPutZeros(a, 6 * s, z6, b);
    ValPutZeros(c, 0, z0, b);
    ValPutZeros(d, 2 * s, z2, b);
    ValPutZeros(e, 4 * s, z4, b);
    ValAddAt(f, s, z1, b);
    ValAddAt(g, 3 * s, z3, b);
    ValAddAt(AddAt(g, 3 * s, z3), 5 * s, z5, b);
  }

  /** The slice assignments of kmul2x2l, kmul3x3l and kmul4x4l, in their order. */
  method Combine2(n: nat, s: nat, z0: seq<int>, z1: seq<int>, z2: seq<int>) returns (z: seq<int>)
    requires s >= 1 && |z0| == 2 * s - 1 && 2 * s + |z2| == 2 * n - 1 && s + |Strip(z1)| <= 2 * n - 1
    ensures z == Placed2(n, s, z0, Strip(z1), z2)
  {
    z := Zeros(2 * n - 1);
    z := Put(z, 2 * s, z2);
    z := Put(z, 0, z0);
    var z1' := StripZeros(z1);
    z := AddAt(z, s, z1');
  }

  method Combine3(n: nat, s: nat, z0: seq<int>, z1: seq<int>, z2: seq<int>, z3: seq<int>, z4: seq<int>)
    returns (z: seq<int>)
    requires s >= 1 && |z0| == |z1| == |z2| == 2 * s - 1
    requires 4 * s + |z4| == 2 * n - 1 && 3 * s + |Strip(z3)| <= 2 * n - 1
    ensures z == Placed3(n, s, z0, z1, z2, Strip(z3), z4)
  {
    z := Zeros(2 * n - 1);
    z := Put(z, 4 * s, z4);
    z := Put(z, 0, z0);
    z := Put(z, 2 * s, z2);
    z := AddAt(z, s, z1);
    var z3' := StripZeros(z3);
    z := AddAt(z, 3 * s, z3');
  }

  method Combine4(n: nat, s: nat, z0: seq<int>, z1: seq<int>, z2: seq<int>, z3: seq<int>, z4: seq<int>,
                  z5: seq<int>, z6: seq<int>)
    returns (z: seq<int>)
    requires s >= 1 && |z0| == |z1| == |z2| == |z3| == |z4| == 2 * s - 1
    requires 6 * s + |z6| == 2 * n - 1 && |z6| >= 1 && 5 * s + |Strip(z5)| <= 2 * n - 1
    ensures z == Placed4(n, s, z0, z1, z2, z3, z4, Strip(z5), z6)
  {
    z := Zeros(2 * n - 1);
    z := Put(z, 6 * s, z6);
    z := Put(z, 0, z0);
    z := Put(z, 2 * s, z2);
    z := Put(z, 4 * s, z4);
    z := AddAt(z, s, z1);
    z := AddAt(z, 3 * s, z3);
    var z5' := StripZeros(z5);
    z := AddAt(z, 5 * s, z5');
  }

  /** The same, with the coefficient next to the last one stripped and the last one unpadded. */
  lemma {:induction false} PlaceStripped3(n: nat, s: nat, c: seq<seq<int>>, z2: seq<int>, b: int)
    requires s >= 1 && |c| == 3 && Pieces(c, 2 * s - 1)
    requires 2 * s + |z2| == 2 * n - 1 && |z2| <= 2 * s - 1 && z2 + Zeros(2 * s - 1 - |z2|) == c[2]
    requires s + |Strip(c[1])| <= 2 * n - 1
    ensures Val(Placed2(n, s, c[0], Strip(c[1]), z2), b) == Spread(Vals(c, b), b, s, 0)
  {
    Place3(n, s, c[0], Strip(c[1]), z2, b);
    StripVal(c[1], b);
    ValPad(z2, 2 * s - 1 - |z2|, b);
    Spread3(c, b, s);
  }

  lemma {:induction false} PlaceStripped5(n: nat, s: nat, c: seq<seq<int>>, z4: seq<int>, b: int)
    requires s >= 1 && |c| == 5 && Pieces(c, 2 * s - 1)
    requires 4 * s + |z4| == 2 * n - 1 && |z4| <= 2 * s - 1 && z4 + Zeros(2 * s - 1 - |z4|) == c[4]
    requires 3 * s + |Strip(c[3])| <= 2 * n - 1
    ensures Val(Placed3(n, s, c[0], c[1], c[2], Strip(c[3]), z4), b) == Spread(Vals(c, b), b, s, 0)
  {
    Place5(n, s, c[0], c[1], c[2], Strip(c[3]), z4, b);
    StripVal(c[3], b);
    ValPad(z4, 2 * s - 1 - |z4|, b);
    Spread5(c, b, s);
  }

  lemma {:induction false} PlaceStripped7(n: nat, s: nat, c: seq<seq<int>>, z6: seq<int>, b: int)
    requires s >= 1 && |c| == 7 && Pieces(c, 2 * s - 1)
    requires 6 * s + |z6| == 2 * n - 1 && 1 <= |z6| <= 2 * s - 1 && z6 + Zeros(2 * s - 1 - |z6|) == c[6]
    requires 5 * s + |Strip(c[5])| <= 2 * n - 1
    ensures Val(Placed4(n, s, c[0], c[1], c[2], c[3], c[4], Strip(c[5]), z6), b) == Spread(Vals(c, b), b, s, 0)
  {
    Place7(n, s, c[0], c[1], c[2], c[3], c[4], Strip(c[5]), z6, b);
    StripVal(c[5], b);
    ValPad(z6, 2 * s - 1 - |z6|, b);
    Spread7(c, b, s);
  }

  // ----- interpolation on lists -----

  lemma {:induction false} ColumnSums5(c: seq<seq<int>>, len: nat, i: nat)
    requires |c| == 5 && Pieces(c, len) && i < len
    ensures FiveSums(Column(c, i, len), Eval(c, 1, len)[i], Eval(c, -1, len)[i], Eval(c, 2, len)[i])
  {
    var v := Column(c, i, len);
    EvalAt(c, 1, len, i); EvalAt(c, -1, len, i); EvalAt(c, 2, len, i);
    ValSmall(v, 1); ValSmall(v, -1); ValSmall(v, 2);
  }

  lemma {:induction false} ColumnSums7(c: seq<seq<int>>, len: nat, i: nat)
    requires |c| == 7 && Pieces(c, len) && i < len
    ensures SevenSums(Column(c, i, len), Eval(c, 1, len)[i], Eval(c, -1, len)[i], Eval(c, 2, len)[i],
                      Eval(c, -2, len)[i], Eval(c, 3, len)[i])
  {
    var v := Column(c, i, len);
    EvalAt(c, 1, len, i); EvalAt(c, -1, len, i); EvalAt(c, 2, len, i); EvalAt(c, -2, len, i); EvalAt(c, 3, len, i);
    ValSmall(v, 1); ValSmall(v, -1); ValSmall(v, 2); ValSmall(v, -2); ValSmall(v, 3);
  }

  function LComb2a(x: seq<int>, m: int, y: seq<int>): (r: seq<int>)
    requires |x| == |y|
    ensures |r| == |x|
  {
    seq(|x|, i requires 0 <= i < |x| => x[i] + m * y[i])
  }

  function LComb3a(x: seq<int>, m: int, y: seq<int>, n: int, z: seq<int>): (r: seq<int>)
    requires |x| == |y| == |z|
    ensures |r| == |x|
  {
    seq(|x|, i requires 0 <= i < |x| => x[i] + m * y[i] + n * z[i])
  }

  function LComb4a(x: seq<int>, m: int, y: seq<int>, n: int, z: seq<int>, o: int, t: seq<int>): (r: seq<int>)
    requires |x| == |y| == |z| == |t|
    ensures |r| == |x|
  {
    seq(|x|, i requires 0 <= i < |x| => x[i] + m * y[i] + n * z[i] + o * t[i])
  }

  /** smalldiv of a list that is n times the list w returns w. */
  method ExactDiv(lst: seq<int>, n: int, R: int, ghost w: seq<int>) returns (res: seq<int>)
    requires n > 0 && lst == Scale(n, w)
    ensures res == w
  {
    DivisibleVal(lst, w, n, R);
    res := SmallDiv(lst, n, R);
    forall i | 0 <= i < |w| ensures res[i] == w[i] {
      assert n * res[i] == n * w[i];
      DistribSub(n, res[i], w[i]);
      if res[i] - w[i] >= 1 { MulMono(n, 1, res[i] - w[i]); }
      if res[i] - w[i] <= -1 { MulMono(n, res[i] - w[i], -1); }
    }
  }

  lemma {:induction false} FiveAt(c: seq<seq<int>>, len: nat, i: nat)
    requires |c| == 5 && Pieces(c, len) && i < len
    ensures Eval(c, 1, len)[i] == c[0][i] + c[1][i] + c[2][i] + c[3][i] + c[4][i]
    ensures Eval(c, -1, len)[i] == c[0][i] - c[1][i] + c[2][i] - c[3][i] + c[4][i]
    ensures Eval(c, 2, len)[i] == c[0][i] + 2 * c[1][i] + 4 * c[2][i] + 8 * c[3][i] + 16 * c[4][i]
  {
    ColumnSums5(c, len, i);
  }

  lemma {:induction false} FiveEven(c: seq<seq<int>>, len: nat)
    requires |c| == 5 && Pieces(c, len)
    ensures var even := Add(Add(c[0], c[2]), c[4]);
            Add(Eval(c, 1, len), Eval(c, -1, len)) == Scale(2, even) && Sub(even, Add(c[0], c[4])) == c[2]
  {
    var (sum, twice) := (Add(Eval(c, 1, len), Eval(c, -1, len)), Scale(2, Add(Add(c[0], c[2]), c[4])));
    forall i | 0 <= i < len ensures sum[i] == twice[i] {
      FiveAt(c, len, i);
    }
  }

  lemma {:induction false} FiveOdd(c: seq<seq<int>>, len: nat)
    requires |c| == 5 && Pieces(c, len)
    ensures var odd := Add(c[1], c[3]);
            Sub(Eval(c, 1, len), Eval(c, -1, len)) == Scale(2, odd) && Sub(odd, c[3]) == c[1]
  {
    var (difference, twice) := (Sub(Eval(c, 1, len), Eval(c, -1, len)), Scale(2, Add(c[1], c[3])));
    forall i | 0 <= i < len ensures difference[i] == twice[i] {
      FiveAt(c, len, i);
    }
  }

  lemma {:induction false} FiveLast(c: seq<seq<int>>, len: nat)
    requires |c| == 5 && Pieces(c, len)
    ensures Sub(Sub(Sub(Eval(c, 2, len), c[0]), Add(Scale(4, c[2]), Scale(16, c[4]))),
                Sub(Eval(c, 1, len), Eval(c, -1, len))) == Scale(6, c[3])
  {
    var (t1, t2, t3) := (Eval(c, 1, len), Eval(c, -1, len), Eval(c, 2, len));
    var (left, right) := (Sub(Sub(Sub(t3, c[0]), Add(Scale(4, c[2]), Scale(16, c[4]))), Sub(t1, t2)), Scale(6, c[3]));
    forall i | 0 <= i < len ensures left[i] == right[i] {
      FiveAt(c, len, i);
    }
  }

  /** The solving part of kmul3x3l. */
  method Interpolate3(z0: seq<int>, z4: seq<int>, t1: seq<int>, t2: seq<int>, t3: seq<int>, R: int,
                      ghost c: seq<seq<int>>, ghost len: nat)
    returns (z1: seq<int>, z2: seq<int>, z3: seq<int>)
    requires |c| == 5 && Pieces(c, len) && z0 == c[0] && z4 == c[4]
    requires t1 == Eval(c, 1, len) && t2 == Eval(c, -1, len) && t3 == Eval(c, 2, len)
    ensures z1 == c[1] && z2 == c[2] && z3 == c[3]
  {
    FiveEven(c, len);
    FiveOdd(c, len);
    FiveLast(c, len);
    var half := ExactDiv(Add(t1, t2), 2, R, Add(Add(c[0], c[2]), c[4]));
    z2 := Sub(half, Add(z0, z4));
    var t5 := Sub(Sub(t3, z0), Add(Scale(4, z2), Scale(16, z4)));
    var t6 := Sub(t1, t2);
    z3 := ExactDiv(Sub(t5, t6), 6, R, c[3]);
    half := ExactDiv(t6, 2, R, Add(c[1], c[3]));
    z1 := Sub(half, z3);
  }

  /** The linear combination of the inner coefficients c[1], ..., c[5]. */
  ghost function Mix(c: seq<seq<int>>, len: nat, k1: int, k2: int, k3: int, k4: int, k5: int): (r: seq<int>)
    requires |c| == 7 && Pieces(c, len)
    ensures |r| == len
  {
    seq(len, i requires 0 <= i < len => k1 * c[1][i] + k2 * c[2][i] + k3 * c[3][i] + k4 * c[4][i] + k5 * c[5][i])
  }

  lemma {:induction false} InnerSums(c: seq<seq<int>>, len: nat)
    requires |c| == 7 && Pieces(c, len)
    ensures Sub(Eval(c, 1, len), Add(c[0], c[6])) == Mix(c, len, 1, 1, 1, 1, 1)
    ensures Sub(Eval(c, -1, len), Add(c[0], c[6])) == Mix(c, len, -1, 1, -1, 1, -1)
    ensures Sub(Eval(c, 2, len), LComb2a(c[0], 64, c[6])) == Scale(2, Mix(c, len, 1, 2, 4, 8, 16))
    ensures Sub(Eval(c, -2, len), LComb2a(c[0], 64, c[6])) == Scale(2, Mix(c, len, -1, 2, -4, 8, -16))
    ensures Sub(Eval(c, 3, len), LComb2a(c[0], 729, c[6])) == Scale(3, Mix(c, len, 1, 3, 9, 27, 81))
  {
    forall i | 0 <= i < len
      ensures Sub(Eval(c, 1, len), Add(c[0], c[6]))[i] == Mix(c, len, 1, 1, 1, 1, 1)[i]
      ensures Sub(Eval(c, -1, len), Add(c[0], c[6]))[i] == Mix(c, len, -1, 1, -1, 1, -1)[i]
      ensures Sub(Eval(c, 2, len), LComb2a(c[0], 64, c[6]))[i] == Scale(2, Mix(c, len, 1, 2, 4, 8, 16))[i]
      ensures Sub(Eval(c, -2, len), LComb2a(c[0], 64, c[6]))[i] == Scale(2, Mix(c, len, -1, 2, -4, 8, -16))[i]
      ensures Sub(Eval(c, 3, len), LComb2a(c[0], 729, c[6]))[i] == Scale(3, Mix(c, len, 1, 3, 9, 27, 81))[i]
    {
      ColumnSums7(c, len, i);
    }
  }

  lemma {:induction false} EvenStep(c: seq<seq<int>>, len: nat)
    requires |c| == 7 && Pieces(c, len)
    ensures Add(Mix(c, len, 1, 1, 1, 1, 1), Mix(c, len, -1, 1, -1, 1, -1)) == Scale(2, Mix(c, len, 0, 1, 0, 1, 0))
    ensures Add(Mix(c, len, 1, 2, 4, 8, 16), Mix(c, len, -1, 2, -4, 8, -16)) == Scale(4, Mix(c, len, 0, 1, 0, 4, 0))
    ensures Sub(Mix(c, len, 0, 1, 0, 4, 0), Mix(c, len, 0, 1, 0, 1, 0)) == Scale(3, c[4])
    ensures Sub(Mix(c, len, 0, 1, 0, 1, 0), c[4]) == c[2]
  {}

  lemma {:induction false} OddStep(c: seq<seq<int>>, len: nat)
    requires |c| == 7 && Pieces(c, len)
    ensures LComb3a(Mix(c, len, 1, 1, 1, 1, 1), -1, c[2], -1, c[4]) == Mix(c, len, 1, 0, 1, 0, 1)
    ensures LComb3a(Mix(c, len, 1, 2, 4, 8, 16), -2, c[2], -8, c[4]) == Mix(c, len, 1, 0, 4, 0, 16)
    ensures LComb3a(Mix(c, len, 1, 3, 9, 27, 81), -3, c[2], -27, c[4]) == Mix(c, len, 1, 0, 9, 0, 81)
    ensures Sub(Mix(c, len, 1, 0, 9, 0, 81), Mix(c, len, 1, 0, 1, 0, 1)) == Scale(8, Mix(c, len, 0, 0, 1, 0, 10))
    ensures Sub(Mix(c, len, 1, 0, 4, 0, 16), Mix(c, len, 1, 0, 1, 0, 1)) == Scale(3, Mix(c, len, 0, 0, 1, 0, 5))
    ensures Sub(Mix(c, len, 0, 0, 1, 0, 10), Mix(c, len, 0, 0, 1, 0, 5)) == Scale(5, c[5])
    ensures Sub(Add(Mix(c, len, 0, 0, 1, 0, 5), Mix(c, len, 0, 0, 1, 0, 5)), Mix(c, len, 0, 0, 1, 0, 10)) == c[3]
    ensures Sub(Mix(c, len, 1, 0, 1, 0, 1), Add(c[3], c[5])) == c[1]
  {}

  /** The solving part of kmul4x4l: five equations with five unknowns in every position. */
  method Interpolate4(z0: seq<int>, z6: seq<int>, p1: seq<int>, p2: seq<int>, p3: seq<int>, p4: seq<int>,
                      p5: seq<int>, R: int, ghost c: seq<seq<int>>, ghost len: nat)
    returns (z1: seq<int>, z2: seq<int>, z3: seq<int>, z4: seq<int>, z5: seq<int>)
    requires |c| == 7 && Pieces(c, len) && z0 == c[0] && z6 == c[6]
    requires p1 == Eval(c, 1, len) && p2 == Eval(c, -1, len) && p3 == Eval(c, 2, len)
    requires p4 == Eval(c, -2, len) && p5 == Eval(c, 3, len)
    ensures z1 == c[1] && z2 == c[2] && z3 == c[3] && z4 == c[4] && z5 == c[5]
  {
    InnerSums(c, len);
    var (t1, t2) := (Sub(p1, Add(z0, z6)), Sub(p2, Add(z0, z6)));
    var t0 := LComb2a(z0, 64, z6);
    var t3 := ExactDiv(Sub(p3, t0), 2, R, Mix(c, len, 1, 2, 4, 8, 16));
    var t4 := ExactDiv(Sub(p4, t0), 2, R, Mix(c, len, -1, 2, -4, 8, -16));
    var t5 := ExactDiv(Sub(p5, LComb2a(z0, 729, z6)), 3, R, Mix(c, len, 1, 3, 9, 27, 81));
    EvenStep(c, len);
    var t6 := ExactDiv(Add(t1, t2), 2, R, Mix(c, len, 0, 1, 0, 1, 0));
    var t7 := ExactDiv(Add(t3, t4), 4, R, Mix(c, len, 0, 1, 0, 4, 0));
    z4 := ExactDiv(Sub(t7, t6), 3, R, c[4]);
    z2 := Sub(t6, z4);
    OddStep(c, len);
    var t8 := LComb3a(t1, -1, z2, -1, z4);
    var t9 := LComb3a(t3, -2, z2, -8, z4);
    var t10 := LComb3a(t5, -3, z2, -27, z4);
    var t11 := ExactDiv(Sub(t10, t8), 8, R, Mix(c, len, 0, 0, 1, 0, 10));
    var t12 := ExactDiv(Sub(t9, t8), 3, R, Mix(c, len, 0, 0, 1, 0, 5));
    z5 := ExactDiv(Sub(t11, t12), 5, R, c[5]);
    z3 := Sub(Add(t12, t12), t11);
    z1 := Sub(t8, Add(z3, z5));
  }

  lemma {:induction false} DotNextToLast(x: seq<int>, y: seq<int>)
    requires |x| == |y| >= 2
    ensures DotAt(x, y, |x| + |y| - 3) == x[|x| - 2] * y[|y| - 1] + x[|x| - 1] * y[|y| - 2]
  {
    DotNextToLast'(x, y);
  }

  lemma {:induction false} DotNextToLast'(x: seq<int>, y: seq<int>)
    requires |x| >= 2 && |y| >= 2
    ensures DotAt(x, y, |x| + |y| - 3) == x[|x| - 2] * y[|y| - 1] + x[|x| - 1] * y[|y| - 2]
  {
    if |x| == 2 {
      assert DotAt(x[1..], y, |y| - 2) == x[1] * y[|y| - 2] + DotAt(x[1..][1..], y, |y| - 3);
    } else {
      DotNextToLast'(x[1..], y);
    }
  }

  /**
    The coefficient next to the last one: as the last pieces end in p zeros, so does it, and
    when these are dropped it fits into the result.
  */
  lemma {:induction false} NextToLast(c: seq<seq<int>>, xs: seq<seq<int>>, ys: seq<seq<int>>, s: nat, p: nat)
    requires IsProduct(c, xs, ys, s) && |xs| >= 2 && p < s
    requires xs[|xs| - 1][s - p..] == Zeros(p) && ys[|xs| - 1][s - p..] == Zeros(p)
    ensures |Strip(c[2 * |xs| - 3])| <= 2 * s - 1 - p
  {
    var n := |xs|;
    var (c', x', y') := (c[2 * n - 3], xs[n - 1], ys[n - 1]);
    var (a, b) := (Conv(xs[n - 2], y'), Conv(x', ys[n - 2]));
    forall t | t >= 2 ensures Val(c', t) == Val(Add(a, b), t) {
      var (v, w) := (Vals(xs, t), Vals(ys, t));
      assert Vals(c, t)[2 * n - 3] == Val(c', t);
      DotNextToLast(v, w);
      ValAdd(a, b, t);
      ValConv(xs[n - 2], y', t);
      ValConv(x', ys[n - 2], t);
    }
    ValUnique(c', Add(a, b));
    assert x' == x'[..s - p] + Zeros(p) && y' == y'[..s - p] + Zeros(p);
    ConvPad(xs[n - 2], y'[..s - p], p);
    ConvPad(ys[n - 2], x'[..s - p], p);
    StripLength(c', 2 * s - 1 - p);
  }

  // ----- the recursive multiplication -----

  method KMul2x2l(x: seq<int>, y: seq<int>, R: int) returns (z: seq<int>)
    requires |x| == |y| >= 2
    ensures z == Conv(x, y)
    decreases |x| + |y|, 0
  {
    var n, s := |x|, (|y| + 1) / 2;
    var x0, x1, y0, y1 := x[..s], x[s..], y[..s], y[s..];
    var z0 := KMult(x0, y0, R);
    var z2 := KMult(x1, y1, R);
    var z2short := z2;
    x1 := x1 + Zeros(s - |x1|);
    y1 := y1 + Zeros(s - |y1|);
    z2 := z2 + Zeros(2 * s - 1 - |z2|);
    ghost var c := Setup2(x, y, s);
    var z1 := KMul2x2Inner(x0, x1, y0, y1, z0, z2, R, c, n);
    z := Combine2(n, s, z0, z1, z2short);
  }

  /** The third product of Karatsuba, less the two others. */
  method KMul2x2Inner(x0: seq<int>, x1: seq<int>, y0: seq<int>, y1: seq<int>, z0: seq<int>, z2: seq<int>, R: int,
                      ghost c: seq<seq<int>>, ghost n: nat)
    returns (z1: seq<int>)
    requires 0 < |x0| < n && |x1| == |y0| == |y1| == |x0| && IsProduct(c, [x0, x1], [y0, y1], |x0|)
    requires z0 == Conv(x0, y0) && z2 == Conv(x1, y1)
    ensures z1 == c[1]
    decreases 2 * n - 1, 2
  {
    Sampled2(x0, x1, y0, y1, c);
    var t1 := KMult(Add(x0, x1), Add(y0, y1), R);
    z1 := Sub(Sub(t1, z0), z2);
  }

  /** What the pieces of kmul2x2l are, and that putting them together gives the product. */
  lemma {:induction false} Setup2(x: seq<int>, y: seq<int>, s: nat) returns (c: seq<seq<int>>)
    requires |x| == |y| && 0 < s < |x| <= 2 * s
    ensures IsProduct(c, [x[..s], x[s..] + Zeros(s - |x[s..]|)], [y[..s], y[s..] + Zeros(s - |y[s..]|)], s)
    ensures |c| == 3 && c[0] == Conv(x[..s], y[..s]) && |c[2]| == 2 * s - 1 == |c[1]|
    ensures var z2 := Conv(x[s..], y[s..]);
            |z2| <= 2 * s - 1 && z2 + Zeros(2 * s - 1 - |z2|) == c[2]
    ensures c[2] == Conv(x[s..] + Zeros(s - |x[s..]|), y[s..] + Zeros(s - |y[s..]|))
    ensures var (n, z2) := (|x|, Conv(x[s..], y[s..]));
            && s + |Strip(c[1])| <= 2 * n - 1 && 2 * s + |z2| == 2 * n - 1
            && Placed2(n, s, c[0], Strip(c[1]), z2) == Conv(x, y)
  {
    var (x1, y1) := (x[s..] + Zeros(s - |x[s..]|), y[s..] + Zeros(s - |y[s..]|));
    var (xs, ys) := ([x[..s], x1], [y[..s], y1]);
    PaddedProduct(x[s..], y[s..], s - |x[s..]|);
    c := MakeProduct(xs, ys, s);
    PieceEnds(c, xs, ys, s);
    Finish2(x, y, xs, ys, c, s, Conv(x[s..], y[s..]));
  }

  /** The three products of Karatsuba give the coefficients of the product of the pieces. */
  lemma {:induction false} Sampled2(x0: seq<int>, x1: seq<int>, y0: seq<int>, y1: seq<int>, c: seq<seq<int>>)
    requires |x0| == |x1| == |y0| == |y1| > 0 && IsProduct(c, [x0, x1], [y0, y1], |x0|)
    ensures |c[0]| == |c[1]| == |c[2]| == 2 * |x0| - 1
    ensures c[0] == Conv(x0, y0) && c[2] == Conv(x1, y1)
    ensures Sub(Sub(Conv(Add(x0, x1), Add(y0, y1)), c[0]), c[2]) == c[1]
  {
    var (xs, ys) := ([x0, x1], [y0, y1]);
    PieceEnds(c, xs, ys, |x0|);
    Eval2(xs, |x0|);
    Eval2(ys, |x0|);
    PieceProduct(c, xs, ys, |x0|, 1);
    Eval3(c, 2 * |x0| - 1);
  }

  lemma {:induction false} Finish2(x: seq<int>, y: seq<int>, xs: seq<seq<int>>, ys: seq<seq<int>>,
                                   c: seq<seq<int>>, s: nat, z2: seq<int>)
    requires |x| == |y| && 0 < s < |x| <= 2 * s
    requires xs == [x[..s], x[s..] + Zeros(s - |x[s..]|)] && ys == [y[..s], y[s..] + Zeros(s - |y[s..]|)]
    requires IsProduct(c, xs, ys, s)
    requires 2 * s + |z2| == 2 * |x| - 1 && z2 + Zeros(2 * s - 1 - |z2|) == c[2]
    ensures var n := |x|;
            && s + |Strip(c[1])| <= 2 * n - 1
            && Placed2(n, s, c[0], Strip(c[1]), z2) == Conv(x, y)
  {
    var n := |x|;
    NextToLast(c, xs, ys, s, 2 * s - n);
    var z := Placed2(n, s, c[0], Strip(c[1]), z2);
    forall b | b >= 2 ensures Val(z, b) == Spread(Vals(c, b), b, s, 0) {
      PlaceStripped3(n, s, c, z2, b);
    }
    CutTwo(x, s);
    CutTwo(y, s);
    Assemble(z, x, y, c, xs, ys, s);
  }

  lemma {:induction false} PaddedProduct(x: seq<int>, y: seq<int>, p: nat)
    requires x != [] && y != []
    ensures Conv(x + Zeros(p), y + Zeros(p)) == Conv(x, y) + Zeros(p + p)
  {
    ConvPad(x + Zeros(p), y, p);
    ConvPad(y, x, p);
    ConvComm(x, y);
    ConvComm(x + Zeros(p), y);
    assert Zeros(p) + Zeros(p) == Zeros(p + p);
    assert (Conv(x, y) + Zeros(p)) + Zeros(p) == Conv(x, y) + (Zeros(p) + Zeros(p));
  }

  lemma {:induction false} Eval2(l: seq<seq<int>>, len: nat)
    requires |l| == 2 && Pieces(l, len)
    ensures Eval(l, 1, len) == Add(l[0], l[1])
  {
    forall i | 0 <= i < len ensures Eval(l, 1, len)[i] == l[0][i] + l[1][i] {
      EvalAt(l, 1, len, i);
      ValSmall(Column(l, i, len), 1);
    }
  }

  lemma {:induction false} Eval3(l: seq<seq<int>>, len: nat)
    requires |l| == 3 && Pieces(l, len)
    ensures Sub(Sub(Eval(l, 1, len), l[0]), l[2]) == l[1]
  {
    forall i | 0 <= i < len ensures Eval(l, 1, len)[i] == l[0][i] + l[1][i] + l[2][i] {
      EvalAt(l, 1, len, i);
      ValSmall(Column(l, i, len), 1);
    }
  }

  /** The special case of two lists of eight terms. */
  method KMul8x8l(x: seq<int>, y: seq<int>) returns (z: seq<int>)
    requires |x| == |y| == 8
    ensures z == Conv(x, y)
  {
    var x0, x1, y0, y1 := x[..4], x[4..], y[..4], y[4..];
    var z0 := KMul4x4s(x0, y0);
    var z2 := KMul4x4s(x1, y1);
    var z1 := KMul4x4s(Add(x0, x1), Add(y0, y1));
    z := Put(Zeros(15), 8, z2);
    z := Put(z, 0, z0);
    z := AddMiddle(z, z0, z1, z2);
    EightByEight(x, y);
  }

  method AddMiddle(placed: seq<int>, z0: seq<int>, z1: seq<int>, z2: seq<int>) returns (z: seq<int>)
    requires |placed| == 15 && |z0| == |z1| == |z2| == 7
    ensures z == AddAt(placed, 4, Sub(Sub(z1, z0), z2))
  {
    z := placed;
    for i := 0 to 7
      invariant |z| == 15
      invariant forall j :: 0 <= j < 15 ==>
        z[j] == placed[j] + if 4 <= j < 4 + i then z1[j - 4] - z0[j - 4] - z2[j - 4] else 0
    {
      z := z[4 + i := z[4 + i] + (z1[i] - z0[i] - z2[i])];
    }
  }

  lemma {:induction false} EightByEight(x: seq<int>, y: seq<int>)
    requires |x| == |y| == 8
    ensures var (x0, x1, y0, y1) := (x[..4], x[4..], y[..4], y[4..]);
            var (z0, z2) := (Conv(x0, y0), Conv(x1, y1));
            var z1 := Conv(Add(x0, x1), Add(y0, y1));
            AddAt(Put(Put(Zeros(15), 8, z2), 0, z0), 4, Sub(Sub(z1, z0), z2)) == Conv(x, y)
  {
    var (xs, ys) := ([x[..4], x[4..]], [y[..4], y[4..]]);
    var c := MakeProduct(xs, ys, 4);
    PieceEnds(c, xs, ys, 4);
    Eval2(xs, 4);
    Eval2(ys, 4);
    PieceProduct(c, xs, ys, 4, 1);
    Eval3(c, 7);
    var z := AddAt(Put(Put(Zeros(15), 8, c[2]), 0, c[0]), 4, c[1]);
    forall b | b >= 2 ensures Val(z, b) == Spread(Vals(c, b), b, 4, 0) {
      Place3(8, 4, c[0], c[1], c[2], b);
      Spread3(c, b, 4);
    }
    CutTwo(x, 4);
    CutTwo(y, 4);
    assert x[4..] + Zeros(0) == x[4..] && y[4..] + Zeros(0) == y[4..];
    Assemble(z, x, y, c, xs, ys, 4);
  }

  lemma {:induction false} EvalThreeAt(l: seq<seq<int>>, len: nat, i: nat)
    requires |l| == 3 && Pieces(l, len) && i < len
    ensures Eval(l, 1, len)[i] == l[0][i] + l[1][i] + l[2][i]
    ensures Eval(l, -1, len)[i] == l[0][i] - l[1][i] + l[2][i]
    ensures Eval(l, 2, len)[i] == l[0][i] + 2 * l[1][i] + 4 * l[2][i]
  {
    var v := Column(l, i, len);
    EvalAt(l, 1, len, i); EvalAt(l, -1, len, i); EvalAt(l, 2, len, i);
    ValSmall(v, 1); ValSmall(v, -1); ValSmall(v, 2);
  }

  lemma {:induction false} EvalThree(l: seq<seq<int>>, len: nat)
    requires |l| == 3 && Pieces(l, len)
    ensures Add(Add(l[0], l[2]), l[1]) == Eval(l, 1, len)
    ensures Sub(Add(l[0], l[2]), l[1]) == Eval(l, -1, len)
    ensures Add(l[0], Add(Add(l[1], l[1]), Scale(4, l[2]))) == Eval(l, 2, len)
  {
    var (p, q, r) := (Eval(l, 1, len), Eval(l, -1, len), Eval(l, 2, len));
    var even := Add(l[0], l[2]);
    var twice := Add(l[0], Add(Add(l[1], l[1]), Scale(4, l[2])));
    forall i | 0 <= i < len
      ensures Add(even, l[1])[i] == p[i]
      ensures Sub(even, l[1])[i] == q[i]
      ensures twice[i] == r[i]
    {
      EvalThreeAt(l, len, i);
    }
  }

  method KMul3x3l(x: seq<int>, y: seq<int>, R: int) returns (z: seq<int>)
    requires |x| == |y| && 9 <= |x| <= 12
    ensures z == Conv(x, y)
    decreases |x| + |y|, 0
  {
    var n, s := |x|, (|y| + 2) / 3;
    var y0, y1, y2 := y[..s], y[s..2 * s], y[2 * s..];
    var x0, x1, x2 := x[..s], x[s..2 * s], x[2 * s..];
    var z0 := KMult(x0, y0, R);
    var z4 := KMult(x2, y2, R);
    var z4short := z4;
    x2 := x2 + Zeros(s - |x2|);
    y2 := y2 + Zeros(s - |y2|);
    z4 := z4 + Zeros(2 * s - 1 - |z4|);
    ghost var c := Setup3(x, y, s);
    var z1, z2, z3 := KMul3x3Inner(x0, x1, x2, y0, y1, y2, z0, z4, R, c, n);
    z := Combine3(n, s, z0, z1, z2, z3, z4short);
  }

  lemma {:induction false} Setup3(x: seq<int>, y: seq<int>, s: nat) returns (c: seq<seq<int>>)
    requires |x| == |y| && 0 < s && 2 * s < |x| <= 3 * s
    ensures IsProduct(c, [x[..s], x[s..2 * s], x[2 * s..] + Zeros(s - |x[2 * s..]|)],
                         [y[..s], y[s..2 * s], y[2 * s..] + Zeros(s - |y[2 * s..]|)], s)
    ensures |c| == 5 && c[0] == Conv(x[..s], y[..s]) && |c[1]| == |c[2]| == |c[4]| == 2 * s - 1
    ensures var z4 := Conv(x[2 * s..], y[2 * s..]);
            |z4| <= 2 * s - 1 && z4 + Zeros(2 * s - 1 - |z4|) == c[4]
    ensures c[4] == Conv(x[2 * s..] + Zeros(s - |x[2 * s..]|), y[2 * s..] + Zeros(s - |y[2 * s..]|))
    ensures var (n, z4) := (|x|, Conv(x[2 * s..], y[2 * s..]));
            && 3 * s + |Strip(c[3])| <= 2 * n - 1 && 4 * s + |z4| == 2 * n - 1
            && Placed3(n, s, c[0], c[1], c[2], Strip(c[3]), z4) == Conv(x, y)
  {
    var (x2, y2) := (x[2 * s..] + Zeros(s - |x[2 * s..]|), y[2 * s..] + Zeros(s - |y[2 * s..]|));
    var (xs, ys) := ([x[..s], x[s..2 * s], x2], [y[..s], y[s..2 * s], y2]);
    PaddedProduct(x[2 * s..], y[2 * s..], s - |x[2 * s..]|);
    c := MakeProduct(xs, ys, s);
    PieceEnds(c, xs, ys, s);
    Finish3(x, y, xs, ys, c, s, Conv(x[2 * s..], y[2 * s..]));
  }

  /** The part of kmul3x3l that multiplies the values at 1, -1, 2 and interpolates. */
  method KMul3x3Inner(x0: seq<int>, x1: seq<int>, x2: seq<int>, y0: seq<int>, y1: seq<int>, y2: seq<int>,
                      z0: seq<int>, z4: seq<int>, R: int, ghost c: seq<seq<int>>, ghost n: nat)
    returns (z1: seq<int>, z2: seq<int>, z3: seq<int>)
    requires 0 < |x0| < n && IsProduct(c, [x0, x1, x2], [y0, y1, y2], |x0|)
    requires |x2| == |y2| == |y0| == |x0| && z0 == Conv(x0, y0) && z4 == Conv(x2, y2)
    ensures z1 == c[1] && z2 == c[2] && z3 == c[3]
    decreases 2 * n - 1, 2
  {
    Sampled3(x0, x1, x2, y0, y1, y2, c);
    var xeven := Add(x0, x2);
    var yeven := Add(y0, y2);
    var t1 := KMult(Add(xeven, x1), Add(yeven, y1), R);
    var t2 := KMult(Sub(xeven, x1), Sub(yeven, y1), R);
    var t3 := KMult(Add(x0, Add(Add(x1, x1), Scale(4, x2))), Add(y0, Add(Add(y1, y1), Scale(4, y2))), R);
    z1, z2, z3 := Interpolate3(z0, z4, t1, t2, t3, R, c, 2 * |x0| - 1);
  }

  /** The values that kmul3x3l computes are those of the product of the pieces. */
  lemma {:induction false} Sampled3(x0: seq<int>, x1: seq<int>, x2: seq<int>,
                                    y0: seq<int>, y1: seq<int>, y2: seq<int>, c: seq<seq<int>>)
    requires IsProduct(c, [x0, x1, x2], [y0, y1, y2], |x0|)
    ensures |x1| == |x2| == |y0| == |y1| == |y2| == |x0| > 0 && |c| == 5 && Pieces(c, 2 * |x0| - 1)
    ensures c[0] == Conv(x0, y0) && c[4] == Conv(x2, y2)
    ensures Conv(Add(Add(x0, x2), x1), Add(Add(y0, y2), y1)) == Eval(c, 1, 2 * |x0| - 1)
    ensures Conv(Sub(Add(x0, x2), x1), Sub(Add(y0, y2), y1)) == Eval(c, -1, 2 * |x0| - 1)
    ensures Conv(Add(x0, Add(Add(x1, x1), Scale(4, x2))), Add(y0, Add(Add(y1, y1), Scale(4, y2))))
         == Eval(c, 2, 2 * |x0| - 1)
  {
    var (xs, ys, s) := ([x0, x1, x2], [y0, y1, y2], |x0|);
    PiecesOf(xs, s); PiecesOf(ys, s);
    PieceEnds(c, xs, ys, s);
    EvalThree(xs, s);
    EvalThree(ys, s);
    PieceProduct(c, xs, ys, s, 1); PieceProduct(c, xs, ys, s, -1); PieceProduct(c, xs, ys, s, 2);
  }

  lemma {:induction false} PiecesOf(l: seq<seq<int>>, len: nat)
    requires 3 <= |l| <= 4 && Pieces(l, len)
    ensures |l[0]| == |l[1]| == |l[2]| == len && (|l| == 4 ==> |l[3]| == len)
  {}

  lemma {:induction false} Finish3(x: seq<int>, y: seq<int>, xs: seq<seq<int>>, ys: seq<seq<int>>,
                                   c: seq<seq<int>>, s: nat, z4: seq<int>)
    requires |x| == |y| && 0 < s && 2 * s < |x| <= 3 * s
    requires xs == [x[..s], x[s..2 * s], x[2 * s..] + Zeros(s - |x[2 * s..]|)]
    requires ys == [y[..s], y[s..2 * s], y[2 * s..] + Zeros(s - |y[2 * s..]|)]
    requires IsProduct(c, xs, ys, s)
    requires 4 * s + |z4| == 2 * |x| - 1 && z4 + Zeros(2 * s - 1 - |z4|) == c[4]
    ensures var n := |x|;
            && 3 * s + |Strip(c[3])| <= 2 * n - 1
            && Placed3(n, s, c[0], c[1], c[2], Strip(c[3]), z4) == Conv(x, y)
  {
    var n := |x|;
    NextToLast(c, xs, ys, s, 3 * s - n);
    var z := Placed3(n, s, c[0], c[1], c[2], Strip(c[3]), z4);
    forall b | b >= 2 ensures Val(z, b) == Spread(Vals(c, b), b, s, 0) {
      PlaceStripped5(n, s, c, z4, b);
    }
    CutThree(x, s);
    CutThree(y, s);
    Assemble(z, x, y, c, xs, ys, s);
  }

  lemma {:induction false} EvalFourAt(l: seq<seq<int>>, len: nat, i: nat)
    requires |l| == 4 && Pieces(l, len) && i < len
    ensures Eval(l, 1, len)[i] == l[0][i] + l[1][i] + l[2][i] + l[3][i]
    ensures Eval(l, -1, len)[i] == l[0][i] - l[1][i] + l[2][i] - l[3][i]
    ensures Eval(l, 2, len)[i] == l[0][i] + 2 * l[1][i] + 4 * l[2][i] + 8 * l[3][i]
    ensures Eval(l, -2, len)[i] == l[0][i] - 2 * l[1][i] + 4 * l[2][i] - 8 * l[3][i]
    ensures Eval(l, 3, len)[i] == l[0][i] + 3 * l[1][i] + 9 * l[2][i] + 27 * l[3][i]
  {
    var v := Column(l, i, len);
    EvalAt(l, 1, len, i); EvalAt(l, -1, len, i); EvalAt(l, 2, len, i); EvalAt(l, -2, len, i); EvalAt(l, 3, len, i);
    ValSmall(v, 1); ValSmall(v, -1); ValSmall(v, 2); ValSmall(v, -2); ValSmall(v, 3);
  }

  lemma {:induction false} EvalFour(l: seq<seq<int>>, len: nat)
    requires |l| == 4 && Pieces(l, len)
    ensures var (even, odd) := (Add(l[0], l[2]), Add(l[1], l[3]));
            Add(even, odd) == Eval(l, 1, len) && Sub(even, odd) == Eval(l, -1, len)
    ensures var (even, odd) := (LComb2a(l[0], 4, l[2]), LComb2(2, l[1], 8, l[3]));
            Add(even, odd) == Eval(l, 2, len) && Sub(even, odd) == Eval(l, -2, len)
    ensures LComb4a(l[0], 3, l[1], 9, l[2], 27, l[3]) == Eval(l, 3, len)
  {
    forall i | 0 <= i < len
      ensures Add(Add(l[0], l[2]), Add(l[1], l[3]))[i] == Eval(l, 1, len)[i]
      ensures Sub(Add(l[0], l[2]), Add(l[1], l[3]))[i] == Eval(l, -1, len)[i]
      ensures Add(LComb2a(l[0], 4, l[2]), LComb2(2, l[1], 8, l[3]))[i] == Eval(l, 2, len)[i]
      ensures Sub(LComb2a(l[0], 4, l[2]), LComb2(2, l[1], 8, l[3]))[i] == Eval(l, -2, len)[i]
      ensures LComb4a(l[0], 3, l[1], 9, l[2], 27, l[3])[i] == Eval(l, 3, len)[i]
    {
      EvalFourAt(l, len, i);
    }
  }

  function LComb2(n: int, x: seq<int>, m: int, y: seq<int>): (r: seq<int>)
    requires |x| == |y|
    ensures |r| == |x|
  {
    seq(|x|, i requires 0 <= i < |x| => n * x[i] + m * y[i])
  }

  method KMul4x4l(x: seq<int>, y: seq<int>, R: int) returns (z: seq<int>)
    requires |x| == |y| >= 13
    ensures z == Conv(x, y)
    decreases |x| + |y|, 0
  {
    var n, s := |x|, (|y| + 3) / 4;
    var y0, y1, y2, y3 := y[..s], y[s..2 * s], y[2 * s..3 * s], y[3 * s..];
    var x0, x1, x2, x3 := x[..s], x[s..2 * s], x[2 * s..3 * s], x[3 * s..];
    var z0 := KMult(x0, y0, R);
    var z6 := KMult(x3, y3, R);
    z := KMul4x4Rest(x, y, s, x0, x1, x2, x3, y0, y1, y2, y3, z0, z6, R);
  }

  /** kmul4x4l after the two outer products: padding, the inner coefficients, and assembly. */
  method KMul4x4Rest(x: seq<int>, y: seq<int>, s: nat, x0: seq<int>, x1: seq<int>, x2: seq<int>, x3short: seq<int>,
                     y0: seq<int>, y1: seq<int>, y2: seq<int>, y3short: seq<int>,
                     z0: seq<int>, z6short: seq<int>, R: int) returns (z: seq<int>)
    requires |x| == |y| >= 13 && 3 * s < |x| <= 4 * s
    requires y0 == y[..s] && y1 == y[s..2 * s] && y2 == y[2 * s..3 * s] && y3short == y[3 * s..]
    requires x0 == x[..s] && x1 == x[s..2 * s] && x2 == x[2 * s..3 * s] && x3short == x[3 * s..]
    requires z0 == Conv(x0, y0) && z6short == Conv(x3short, y3short)
    ensures z == Conv(x, y)
    decreases 2 * |x| - 1, 3
  {
    var x3 := x3short + Zeros(s - |x3short|);
    var y3 := y3short + Zeros(s - |y3short|);
    var z6 := z6short + Zeros(2 * s - 1 - |z6short|);
    ghost var c := Setup4(x, y, s);
    var z1, z2, z3, z4, z5 := KMul4x4Inner(x0, x1, x2, x3, y0, y1, y2, y3, z0, z6, R, c, |x|);
    z := Combine4(|x|, s, z0, z1, z2, z3, z4, z5, z6short);
  }

  lemma {:induction false} Setup4(x: seq<int>, y: seq<int>, s: nat) returns (c: seq<seq<int>>)
    requires |x| == |y| && 0 < s && 3 * s < |x| <= 4 * s
    ensures IsProduct(c, [x[..s], x[s..2 * s], x[2 * s..3 * s], x[3 * s..] + Zeros(s - |x[3 * s..]|)],
                         [y[..s], y[s..2 * s], y[2 * s..3 * s], y[3 * s..] + Zeros(s - |y[3 * s..]|)], s)
    ensures |c| == 7 && c[0] == Conv(x[..s], y[..s])
    ensures |c[1]| == |c[2]| == |c[3]| == |c[4]| == |c[6]| == 2 * s - 1
    ensures var z6 := Conv(x[3 * s..], y[3 * s..]);
            |z6| <= 2 * s - 1 && z6 + Zeros(2 * s - 1 - |z6|) == c[6]
    ensures c[6] == Conv(x[3 * s..] + Zeros(s - |x[3 * s..]|), y[3 * s..] + Zeros(s - |y[3 * s..]|))
    ensures var (n, z6) := (|x|, Conv(x[3 * s..], y[3 * s..]));
            && 5 * s + |Strip(c[5])| <= 2 * n - 1 && 6 * s + |z6| == 2 * n - 1
            && Placed4(n, s, c[0], c[1], c[2], c[3], c[4], Strip(c[5]), z6) == Conv(x, y)
  {
    var (x3, y3) := (x[3 * s..] + Zeros(s - |x[3 * s..]|), y[3 * s..] + Zeros(s - |y[3 * s..]|));
    var (xs, ys) := ([x[..s], x[s..2 * s], x[2 * s..3 * s], x3], [y[..s], y[s..2 * s], y[2 * s..3 * s], y3]);
    PaddedProduct(x[3 * s..], y[3 * s..], s - |x[3 * s..]|);
    c := MakeProduct(xs, ys, s);
    PieceEnds(c, xs, ys, s);
    Finish4(x, y, xs, ys, c, s, Conv(x[3 * s..], y[3 * s..]));
  }

  /** The part of kmul4x4l that multiplies the values at 1, -1, 2, -2, 3 and interpolates. */
  method KMul4x4Inner(x0: seq<int>, x1: seq<int>, x2: seq<int>, x3: seq<int>,
                      y0: seq<int>, y1: seq<int>, y2: seq<int>, y3: seq<int>,
                      z0: seq<int>, z6: seq<int>, R: int, ghost c: seq<seq<int>>, ghost n: nat)
    returns (z1: seq<int>, z2: seq<int>, z3: seq<int>, z4: seq<int>, z5: seq<int>)
    requires 0 < |x0| < n && IsProduct(c, [x0, x1, x2, x3], [y0, y1, y2, y3], |x0|)
    requires |x3| == |y3| == |x0| == |y0| && z0 == Conv(x0, y0) && z6 == Conv(x3, y3)
    ensures z1 == c[1] && z2 == c[2] && z3 == c[3] && z4 == c[4] && z5 == c[5]
    decreases 2 * n - 1, 2
  {
    Sampled4(x0, x1, x2, x3, y0, y1, y2, y3, c);
    var xeven, xodd, yeven, yodd := Add(x0, x2), Add(x1, x3), Add(y0, y2), Add(y1, y3);
    var p1 := KMult(Add(xeven, xodd), Add(yeven, yodd), R);
    var p2 := KMult(Sub(xeven, xodd), Sub(yeven, yodd), R);
    xeven, xodd, yeven, yodd := LComb2a(x0, 4, x2), LComb2(2, x1, 8, x3), LComb2a(y0, 4, y2), LComb2(2, y1, 8, y3);
    var p3 := KMult(Add(xeven, xodd), Add(yeven, yodd), R);
    var p4 := KMult(Sub(xeven, xodd), Sub(yeven, yodd), R);
    var p5 := KMult(LComb4a(x0, 3, x1, 9, x2, 27, x3), LComb4a(y0, 3, y1, 9, y2, 27, y3), R);
    z1, z2, z3, z4, z5 := Interpolate4(z0, z6, p1, p2, p3, p4, p5, R, c, 2 * |x0| - 1);
  }

  /** The values that kmul4x4l computes are those of the product of the pieces. */
  lemma {:induction false} Sampled4(x0: seq<int>, x1: seq<int>, x2: seq<int>, x3: seq<int>,
                                    y0: seq<int>, y1: seq<int>, y2: seq<int>, y3: seq<int>, c: seq<seq<int>>)
    requires IsProduct(c, [x0, x1, x2, x3], [y0, y1, y2, y3], |x0|)
    ensures |x1| == |x2| == |x3| == |y0| == |y1| == |y2| == |y3| == |x0| > 0
    ensures |c| == 7 && Pieces(c, 2 * |x0| - 1)
    ensures c[0] == Conv(x0, y0) && c[6] == Conv(x3, y3)
    ensures Conv(Add(Add(x0, x2), Add(x1, x3)), Add(Add(y0, y2), Add(y1, y3))) == Eval(c, 1, 2 * |x0| - 1)
    ensures Conv(Sub(Add(x0, x2), Add(x1, x3)), Sub(Add(y0, y2), Add(y1, y3))) == Eval(c, -1, 2 * |x0| - 1)
    ensures Conv(Add(LComb2a(x0, 4, x2), LComb2(2, x1, 8, x3)), Add(LComb2a(y0, 4, y2), LComb2(2, y1, 8, y3)))
         == Eval(c, 2, 2 * |x0| - 1)
    ensures Conv(Sub(LComb2a(x0, 4, x2), LComb2(2, x1, 8, x3)), Sub(LComb2a(y0, 4, y2), LComb2(2, y1, 8, y3)))
         == Eval(c, -2, 2 * |x0| - 1)
    ensures Conv(LComb4a(x0, 3, x1, 9, x2, 27, x3), LComb4a(y0, 3, y1, 9, y2, 27, y3)) == Eval(c, 3, 2 * |x0| - 1)
  {
    var (xs, ys, s) := ([x0, x1, x2, x3], [y0, y1, y2, y3], |x0|);
    PiecesOf(xs, s); PiecesOf(ys, s);
    PieceEnds(c, xs, ys, s);
    EvalFour(xs, s);
    EvalFour(ys, s);
    PieceProduct(c, xs, ys, s, 1); PieceProduct(c, xs, ys, s, -1); PieceProduct(c, xs, ys, s, 2);
    PieceProduct(c, xs, ys, s, -2); PieceProduct(c, xs, ys, s, 3);
  }

  lemma {:induction false} Finish4(x: seq<int>, y: seq<int>, xs: seq<seq<int>>, ys: seq<seq<int>>,
                                   c: seq<seq<int>>, s: nat, z6: seq<int>)
    requires |x| == |y| && 0 < s && 3 * s < |x| <= 4 * s
    requires xs == [x[..s], x[s..2 * s], x[2 * s..3 * s], x[3 * s..] + Zeros(s - |x[3 * s..]|)]
    requires ys == [y[..s], y[s..2 * s], y[2 * s..3 * s], y[3 * s..] + Zeros(s - |y[3 * s..]|)]
    requires IsProduct(c, xs, ys, s)
    requires 6 * s + |z6| == 2 * |x| - 1 && z6 + Zeros(2 * s - 1 - |z6|) == c[6]
    ensures var n := |x|;
            && 5 * s + |Strip(c[5])| <= 2 * n - 1
            && Placed4(n, s, c[0], c[1], c[2], c[3], c[4], Strip(c[5]), z6) == Conv(x, y)
  {
    var n := |x|;
    NextToLast(c, xs, ys, s, 4 * s - n);
    var z := Placed4(n, s, c[0], c[1], c[2], c[3], c[4], Strip(c[5]), z6);
    forall b | b >= 2 ensures Val(z, b) == Spread(Vals(c, b), b, s, 0) {
      PlaceStripped7(n, s, c, z6, b);
    }
    CutFour(x, s);
    CutFour(y, s);
    Assemble(z, x, y, c, xs, ys, s);
  }

  /** One more chunk of the longer operand has been multiplied and added in. */
  lemma {:induction false} ChunkStep(x: seq<int>, y: seq<int>, ptr: nat, end: nat,
                                     z: seq<int>, temp: seq<int>, z': seq<int>)
    requires y != [] && ptr < end <= |x|
    requires temp == Conv(x[ptr..end], y)
    requires ptr <= |z| <= ptr + |y| - 1
    requires ptr == 0 ==> z == Zeros(|z|)
    requires ptr > 0 ==> z == Conv(x[..ptr], y)
    requires z' == z[..ptr] + Add(z[ptr..], temp[..|z| - ptr]) + temp[|z| - ptr..]
    ensures z' == Conv(x[..end], y)
  {
    var k := |z| - ptr;
    var w := z + Zeros(|temp| - k);
    assert z' == AddAt(w, ptr, temp) by {
      assert w[ptr..ptr + |temp|] == z[ptr..] + Zeros(|temp| - k);
      assert w[..ptr] == z[..ptr] && w[ptr + |temp|..] == [];
      AddPadded(temp, z[ptr..]);
    }
    forall b | b >= 2 ensures Val(z', b) == Val(x[..end], b) * Val(y, b) {
      ValPad(z, |temp| - k, b);
      ValAddAt(w, ptr, temp, b);
      ValConv(x[ptr..end], y, b);
      assert Val(z, b) == Val(x[..ptr], b) * Val(y, b) by {
        if ptr == 0 { ValZeros(|z|, b); } else { ValConv(x[..ptr], y, b); }
      }
      ChunkVal(x, ptr, end, b, Val(y, b));
    }
    ConvUnique(z', x[..end], y);
  }

  lemma {:induction false} AddPadded(temp: seq<int>, u: seq<int>)
    requires |u| <= |temp|
    ensures Add(temp, u + Zeros(|temp| - |u|)) == Add(u, temp[..|u|]) + temp[|u|..]
  {}

  lemma {:induction false} ChunkVal(x: seq<int>, ptr: nat, end: nat, b: int, w: int)
    requires ptr <= end <= |x|
    ensures Val(x[..end], b) * w == Val(x[..ptr], b) * w + Pow(b, ptr) * (Val(x[ptr..end], b) * w)
  {
    assert x[..end] == x[..ptr] + x[ptr..end];
    ValAppend(x[..ptr], x[ptr..end], b);
    var (p, u, v) := (Pow(b, ptr), Val(x[..ptr], b), Val(x[ptr..end], b));
    Assoc(p, v, w);
    Distrib(w, u, p * v);
  }

  /** The 2xN, 3xN and 4xN multiplications: x in chunks of len(y) terms, overlaps added. */
  method KMultNarrow(x: seq<int>, y: seq<int>, R: int) returns (z: seq<int>)
    requires 2 <= |y| <= 4 && |y| < |x|
    ensures z == Conv(x, y)
    decreases |x| + |y|, 0
  {
    z := Zeros(|y| - 1);
    var ptr := 0;
    while ptr < |x|
      invariant 0 <= ptr && (ptr == 0 ==> z == Zeros(|y| - 1))
      invariant ptr > 0 ==> z == Conv(x[..Min(ptr, |x|)], y)
      decreases |x| - ptr
    {
      var end := Min(ptr + |y|, |x|);
      var temp := KMult(x[ptr..end], y, R);
      ghost var z0 := z;
      // The first len(y) - 1 terms overlap the end of z.
      z := z[..ptr] + Add(z[ptr..], temp[..|y| - 1]) + temp[|y| - 1..];
      ChunkStep(x, y, ptr, end, z0, temp, z);
      ptr := ptr + |y|;
    }
    assert x[..|x|] == x;
  }

  function Min(a: int, b: int): int {
    if a < b then a else b
  }

  /** Unequal lengths: the longer list in chunks as long as the shorter one. */
  method KMultChunks(x: seq<int>, y: seq<int>, R: int) returns (z: seq<int>)
    requires 1 <= |y| < |x|
    ensures z == Conv(x, y)
    decreases |x| + |y|, 0
  {
    z := [];
    var ptr := 0;
    while ptr < |x|
      invariant 0 <= ptr && (ptr == 0 ==> z == [])
      invariant ptr > 0 ==> z == Conv(x[..Min(ptr, |x|)], y)
      decreases |x| - ptr
    {
      var end := Min(ptr + |y|, |x|);
      var temp := KMult(x[ptr..end], y, R);
      ghost var z0 := z;
      z := z[..ptr] + Add(temp[..|z| - ptr], z[ptr..]) + temp[|z| - ptr..];
      assert Add(temp[..|z0| - ptr], z0[ptr..]) == Add(z0[ptr..], temp[..|z0| - ptr]);
      ChunkStep(x, y, ptr, end, z0, temp, z);
      ptr := ptr + |y|;
    }
    assert x[..|x|] == x;
  }

  /** Recursive Toom-Cook multiplication of two lists: the schoolbook product. */
  method KMult(x: seq<int>, y: seq<int>, R: int) returns (z: seq<int>)
    requires x != [] && y != []
    ensures z == Conv(x, y)
    decreases |x| + |y|, 1
  {
    var x, y := x, y;
    if |x| < |y| {
      ConvComm(x, y);
      x, y := y, x;
    }
    if |y| == 1 {
      ConvComm(x, y);
      ConvSingle(y[0], x);
      assert y == [y[0]];
      return Scale(y[0], x);
    }
    if |y| <= 4 {
      if |x| == |y| {
        return if |y| == 2 then KMul2x2s(x, y) else if |y| == 3 then KMul3x3s(x, y) else KMul4x4s(x, y);
      }
      z := KMultNarrow(x, y, R);
      return;
    }
    if |x| == |y| {
      if |x| < 8 {
        z := KMul2x2l(x, y, R);
      } else if |x| == 8 {
        z := KMul8x8l(x, y);
      } else if |x| <= 12 {
        z := KMul3x3l(x, y, R);
      } else {
        z := KMul4x4l(x, y, R);
      }
    } else {
      z := KMultChunks(x, y, R);
    }
  }
}
