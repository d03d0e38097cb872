/**
  Nussbaumer convolution: the negacyclic product computed by a fast Fourier transform over
  Z[t]/(t^r + 1), in place on a list of rows.

  A row stands for its value at B modulo B^r + 1; since a row of r terms is determined by
  these residues for all B, whatever holds for the residues at every B holds for the rows.
*/
module Nussbaumer {
  import opened Arith
  import opened Poly
  import opened Modular
  import opened ToomCook

  // ----- multiplication by a power of t in Z[t]/(t^r + 1) -----

  /** q mod m, never negative (q %= 2 * r in the source), by repeated addition or subtraction. */
  function Residue(q: int, m: nat): (s: nat)
    requires m > 0
    ensures s < m
    decreases if q < 0 then m - q else q
  {
    if q < 0 then Residue(q + m, m) else if q < m then q else Residue(q - m, m)
  }

  lemma {:induction false} ResidueIsMod(q: int, m: nat)
    requires m > 0
    ensures Residue(q, m) == q % m
    decreases if q < 0 then m - q else q
  {
    if q < 0 {
      ResidueIsMod(q + m, m);
      ModAddMultiple(q, m, 1);
    } else if q >= m {
      ResidueIsMod(q - m, m);
      ModAddMultiple(q, m, -1);
    } else {
      DivUnique(q, m, 0, q);
    }
  }

  lemma {:induction false} ResidueSum(p: int, q: int, m: nat)
    requires m > 0
    ensures Residue(p + q, m) == Residue(p, m) + Residue(q, m)
         || Residue(p + q, m) + m == Residue(p, m) + Residue(q, m)
  {
    ResidueIsMod(p, m);
    ResidueIsMod(q, m);
    ResidueIsMod(p + q, m);
    ModSum(p, q, m);
  }

  function Twist(row: seq<int>, r: nat, q: int): (res: seq<int>)
    requires |row| == r > 0
    ensures |res| == r
  {
    TwistBy(row, r, Residue(q, 2 * r))
  }

  function TwistBy(row: seq<int>, r: nat, q: nat): (res: seq<int>)
    requires |row| == r > 0 && q < 2 * r
    ensures |res| == r
  {
    if q == 0 then row
    else if q < r then
      var v := r - q;
      Minus(row[v..]) + row[..v]
    else
      var v := 2 * r - q;
      row[v..] + Minus(row[..v])
  }

  ghost function Mod(b: int, r: nat): int {
    Pow(b, r) + 1
  }

  /** Twisting by q multiplies by t^q. */
  lemma {:induction false} TwistVal(row: seq<int>, r: nat, q: int, b: int)
    requires |row| == r > 0
    ensures Cong(Val(Twist(row, r, q), b), Pow(b, Residue(q, 2 * r)) * Val(row, b), Mod(b, r))
  {
    var q' := Residue(q, 2 * r);
    if q' == 0 {
      CongRefl(Val(row, b), Mod(b, r));
    } else if q' < r {
      TwistShort(row, r, q', b);
    } else {
      TwistTurned(row, r, q' - r, b);
    }
  }

  /** Twisting by r + e negates the twist by e. */
  lemma {:induction false} TwistTurned(row: seq<int>, r: nat, e: nat, b: int)
    requires |row| == r && e < r
    ensures Cong(Val(row[r - e..] + Minus(row[..r - e]), b), Pow(b, r + e) * Val(row, b), Mod(b, r))
  {
    var (hi, lo) := (row[r - e..], row[..r - e]);
    var other := Minus(hi) + lo;
    assert hi + Minus(lo) == Minus(other);
    ValMinus(other, b);
    if e == 0 {
      assert other == row;
      CongRefl(Val(row, b), Mod(b, r));
    } else {
      TwistShort(row, r, e, b);
    }
    TwistLong(Val(other, b), Val(row, b), Pow(b, e), b, r);
    PowAdd(b, r, e);
  }

  lemma {:induction false} TwistShort(row: seq<int>, r: nat, q: nat, b: int)
    requires |row| == r && 0 < q < r
    ensures Cong(Val(Minus(row[r - q..]) + row[..r - q], b), Pow(b, q) * Val(row, b), Mod(b, r))
  {
    var v := r - q;
    ValAppend(Minus(row[v..]), row[..v], b);
    ValMinus(row[v..], b);
    ValSplit(row, v, b);
    PowAdd(b, q, v);
    TwistedSum(Val(row[..v], b), Val(row[v..], b), Pow(b, q), Pow(b, v));
  }

  lemma {:induction false} TwistedSum(lo: int, hi: int, p: int, s: int)
    ensures Cong(-hi + p * lo, p * (lo + s * hi), p * s + 1)
  {
    Distrib(p, lo, s * hi);
    Assoc(p, s, hi);
    Distrib(hi, p * s, 1);
    CongIntro(-hi + p * lo, p * (lo + s * hi), -hi, p * s + 1);
  }

  lemma {:induction false} TwistLong(o: int, v: int, p: int, b: int, r: nat)
    requires Cong(o, p * v, Mod(b, r))
    ensures Cong(-o, (Pow(b, r) * p) * v, Mod(b, r))
  {
    var (n, s) := (Mod(b, r), Pow(b, r));
    CongScale(-1, o, p * v, n);
    Assoc(s, p, v);
    Distrib(p * v, s, 1);
    CongIntro(-(p * v), s * (p * v), -(p * v), n);
    CongTrans(-o, -(p * v), s * (p * v), n);
  }

  /** Twisting has period 2r. */
  lemma {:induction false} TwistPeriod(row: seq<int>, r: nat, q: int)
    requires |row| == r > 0
    ensures Twist(row, r, q + 2 * r) == Twist(row, r, q)
  {
    ResidueShift(q, 2 * r);
  }

  lemma {:induction false} ResidueShift(q: int, m: nat)
    requires m > 0
    ensures Residue(q + m, m) == Residue(q, m)
  {}

  /** Twisting is linear. */
  lemma {:induction false} TwistLinear(x: seq<int>, y: seq<int>, n: int, r: nat, q: int)
    requires |x| == |y| == r > 0
    ensures Twist(Add(x, y), r, q) == Add(Twist(x, r, q), Twist(y, r, q))
    ensures Twist(Scale(n, x), r, q) == Scale(n, Twist(x, r, q))
  {
    var (xy, nx) := (Add(x, y), Scale(n, x));
    var (sum, scaled) := (Add(Twist(x, r, q), Twist(y, r, q)), Scale(n, Twist(x, r, q)));
    forall i | 0 <= i < r ensures Twist(xy, r, q)[i] == sum[i] && Twist(nx, r, q)[i] == scaled[i] {
      var (k, minus) := TwistAt(r, q, i);
      TwistTerm(x, r, q, i);
      TwistTerm(y, r, q, i);
      TwistTerm(xy, r, q, i);
      TwistTerm(nx, r, q, i);
      assert minus ==> n * -x[k] == -(n * x[k]);
    }
  }

  /** Where term i of a twisted row comes from, and whether it is negated. */
  ghost function TwistAt(r: nat, q: int, i: nat): (from: (nat, bool))
    requires i < r
    ensures from.0 < r
  {
    var q' := Residue(q, 2 * r);
    if q' == 0 then (i, false)
    else if q' < r then if i < q' then (r - q' + i, true) else (i - q', false)
    else if i < q' - r then (2 * r - q' + i, false) else (i - (q' - r), true)
  }

  lemma {:induction false} TwistTerm(x: seq<int>, r: nat, q: int, i: nat)
    requires |x| == r && i < r
    ensures var (k, minus) := TwistAt(r, q, i); Twist(x, r, q)[i] == if minus then -x[k] else x[k]
  {}

  /** Twisting is additive in q; in particular -q undoes q. */
  lemma {:induction false} TwistAdd(row: seq<int>, r: nat, p: int, q: int)
    requires |row| == r > 0
    ensures Twist(Twist(row, r, p), r, q) == Twist(row, r, p + q)
  {
    forall b | b >= 2
      ensures Cong(Val(Twist(Twist(row, r, p), r, q), b), Val(Twist(row, r, p + q), b), Mod(b, r))
    {
      TwistTwice(row, r, p, q, b);
    }
    NegUnique(Twist(Twist(row, r, p), r, q), Twist(row, r, p + q));
  }

  lemma {:induction false} TwistTwice(row: seq<int>, r: nat, p: int, q: int, b: int)
    requires |row| == r > 0
    ensures Cong(Val(Twist(Twist(row, r, p), r, q), b), Val(Twist(row, r, p + q), b), Mod(b, r))
  {
    var once := Twist(row, r, p);
    TwistVal(row, r, p, b);
    TwistVal(once, r, q, b);
    TwistVal(row, r, p + q, b);
    TwistPowers(r, p, q, b);
    TwistChain(Val(Twist(once, r, q), b), Val(once, b), Val(row, b), Val(Twist(row, r, p + q), b),
               Pow(b, Residue(q, 2 * r)), Pow(b, Residue(p, 2 * r)), Pow(b, Residue(p + q, 2 * r)), Mod(b, r));
  }

  lemma {:induction false} TwistPowers(r: nat, p: int, q: int, b: int)
    requires r > 0
    ensures Cong(Pow(b, Residue(q, 2 * r)) * Pow(b, Residue(p, 2 * r)), Pow(b, Residue(p + q, 2 * r)), Mod(b, r))
  {
    var (p', q', s') := (Residue(p, 2 * r), Residue(q, 2 * r), Residue(p + q, 2 * r));
    ResidueSum(p, q, 2 * r);
    PowPeriod(b, r, q' + p', s');
    PowAdd(b, q', p');
  }

  lemma {:induction false} TwistChain(both: int, w: int, v: int, once: int, q: int, p: int, s: int, n: int)
    requires Cong(both, q * w, n) && Cong(w, p * v, n) && Cong(once, s * v, n) && Cong(q * p, s, n)
    ensures Cong(both, once, n)
  {
    CongScale(q, w, p * v, n);
    CongTrans(both, q * w, q * (p * v), n);
    Assoc(q, p, v);
    CongScale(v, q * p, s, n);
    CongSym(once, s * v, n);
    CongTrans(both, (q * p) * v, s * v, n);
    CongTrans(both, s * v, once, n);
  }

  /** t^(2r) = 1. */
  lemma {:induction false} PowPeriod(b: int, r: nat, e: nat, f: nat)
    requires e == f || e == f + 2 * r
    ensures Cong(Pow(b, e), Pow(b, f), Mod(b, r))
  {
    var n := Mod(b, r);
    CongRefl(Pow(b, f), n);
    if e == f + 2 * r {
      PowAdd(b, f, 2 * r);
      PowAdd(b, r, r);
      var (p, s) := (Pow(b, r), Pow(b, f));
      assert p * p == 1 + (p - 1) * (p + 1);
      CongIntro(p * p, 1, p - 1, n);
      CongScale(s, p * p, 1, n);
    }
  }

  // ----- one stage of the transforms, on all rows at once -----

  /** The offset of index p in its block of length len. */
  function Off(p: nat, len: nat): (j: nat)
    requires len > 0
    ensures j < len && j <= p
  {
    if p < len then p else Off(p - len, len)
  }

  /** r // k, by repeated subtraction. */
  function Quot(r: nat, k: nat): nat
    requires k > 0
  {
    if r < k then 0 else 1 + Quot(r - k, k)
  }

  lemma {:induction false} QuotExact(r: nat, k: nat)
    requires k > 0
    ensures Off(r, k) == 0 ==> k * Quot(r, k) == r
    ensures Quot(r, k) == r / k
  {
    if r < k {
      DivUnique(r, k, 0, r);
    } else {
      QuotExact(r - k, k);
      Distrib(k, Quot(r - k, k), 1);
      DivUnique(r, k, (r - k) / k + 1, (r - k) % k);
    }
  }

  /** Two indices of one block have the same start, and blocks fit into a multiple of len. */
  lemma {:induction false} OffBlock(p: nat, len: nat, size: nat)
    requires len > 0 && p < size && Off(size, len) == 0
    ensures p - Off(p, len) + len <= size
  {
    if p >= len { OffBlock(p - len, len, size - len); }
  }

  lemma {:induction false} OffAdd(p: nat, j: nat, len: nat)
    requires len > 0 && Off(p, len) + j < len
    ensures Off(p + j, len) == Off(p, len) + j
  {
    if p >= len { OffAdd(p - len, j, len); }
  }

  lemma {:induction false} OffUnique(p: nat, q: nat, len: nat)
    requires len > 0 && Off(p, len) == Off(q, len) && q <= p < q + len
    ensures p == q
  {
    if q >= len { OffUnique(p - len, q - len, len); }
  }

  lemma {:induction false} OffHalf(p: nat, k: nat)
    requires k > 0
    ensures Off(p, k) == if Off(p, 2 * k) < k then Off(p, 2 * k) else Off(p, 2 * k) - k
  {
    if p >= 2 * k {
      OffHalf(p - 2 * k, k);
      assert Off(p, k) == Off(p - k, k) == Off(p - k - k, k);
    }
  }

  lemma {:induction false} OffSub(p: nat, j: nat, len: nat)
    requires len > 0 && Off(p, len) >= j
    ensures p >= j && Off(p - j, len) == Off(p, len) - j
  {
    if p >= len { OffSub(p - len, j, len); }
  }

  /** The lower index of the pair that index p belongs to. */
  ghost function Lower(p: nat, k: nat): nat
    requires k > 0
  {
    if Off(p, 2 * k) < k then p else p - k
  }

  lemma {:induction false} OffLow(p: nat, k: nat)
    requires k > 0
    ensures var i := Lower(p, k); Off(i, 2 * k) < k && (p == i || p == i + k)
  {
    if Off(p, 2 * k) >= k { OffSub(p, k, 2 * k); }
  }

  /** Both rows of a pair are there. */
  lemma {:induction false} PairFits(p: nat, k: nat, size: nat)
    requires k > 0 && p < size && Off(size, 2 * k) == 0
    ensures Lower(p, k) + k < size
  {
    OffBlock(p, 2 * k, size);
  }

  /**
    Butterflies of distance k: in each block of 2k rows, row j < k and row j + k are replaced
    by their sum and by their difference twisted by j * v.
  */
  function Stage(a: seq<seq<int>>, k: nat, v: int, r: nat): (res: seq<seq<int>>)
    requires k > 0 && r > 0 && Pieces(a, r)
    ensures |res| == |a| && Pieces(res, r)
  {
    seq(|a|, p requires 0 <= p < |a| => StageRow(a, k, v, r, p))
  }

  /** The running twist u after j steps of v. */
  function Steps(j: int, v: int): int
    decreases if j < 0 then -j else j
  {
    if j == 0 then 0 else if j > 0 then Steps(j - 1, v) + v else Steps(j + 1, v) - v
  }

  lemma {:induction false} StepsIsProduct(j: nat, v: int)
    ensures Steps(j, v) == j * v
  {
    if j > 0 {
      StepsIsProduct(j - 1, v);
      Distrib(v, j - 1, 1);
    }
  }

  function StageRow(a: seq<seq<int>>, k: nat, v: int, r: nat, p: nat): (row: seq<int>)
    requires k > 0 && r > 0 && Pieces(a, r) && p < |a|
    ensures |row| == r
  {
    var j := Off(p, 2 * k);
    if j < k then
      if p + k < |a| then Add(a[p], a[p + k]) else a[p]
    else
      Twist(Sub(a[p - k], a[p]), r, Steps(Off(p - k, 2 * k), v))
  }

  /** The inverse butterflies: first twist the upper row by -j * v, then sum and difference. */
  function InvStage(c: seq<seq<int>>, k: nat, v: int, r: nat): (res: seq<seq<int>>)
    requires k > 0 && r > 0 && Pieces(c, r)
    ensures |res| == |c| && Pieces(res, r)
  {
    seq(|c|, p requires 0 <= p < |c| => InvStageRow(c, k, v, r, p))
  }

  function InvStageRow(c: seq<seq<int>>, k: nat, v: int, r: nat, p: nat): (row: seq<int>)
    requires k > 0 && r > 0 && Pieces(c, r) && p < |c|
    ensures |row| == r
  {
    var j := Off(p, 2 * k);
    if j < k then
      if p + k < |c| then Add(c[p], Twist(c[p + k], r, -Steps(j, v))) else c[p]
    else
      Sub(c[p - k], Twist(c[p], r, -Steps(Off(p - k, 2 * k), v)))
  }

  lemma {:induction false} ForwardPairRows(a: seq<seq<int>>, k: nat, v: int, r: nat, i: nat, u: int)
    requires k > 0 && r > 0 && Pieces(a, r) && i + k < |a| && Off(i, 2 * k) < k && u == Steps(Off(i, 2 * k), v)
    ensures StageRow(a, k, v, r, i) == Add(a[i], a[i + k])
    ensures StageRow(a, k, v, r, i + k) == Twist(Sub(a[i], a[i + k]), r, u)
  {
    OffAdd(i, k, 2 * k);
  }

  lemma {:induction false} InverseSumRow(c: seq<seq<int>>, k: nat, v: int, r: nat, i: nat)
    requires k > 0 && r > 0 && Pieces(c, r) && i + k < |c| && Off(i, 2 * k) < k
    ensures InvStageRow(c, k, v, r, i) == Add(c[i], Twist(c[i + k], r, -Steps(Off(i, 2 * k), v)))
  {}

  lemma {:induction false} InverseDiffRow(c: seq<seq<int>>, k: nat, v: int, r: nat, i: nat)
    requires k > 0 && r > 0 && Pieces(c, r) && i + k < |c| && Off(i, 2 * k) < k
    ensures InvStageRow(c, k, v, r, i + k) == Sub(c[i], Twist(c[i + k], r, -Steps(Off(i, 2 * k), v)))
  {
    OffAdd(i, k, 2 * k);
  }

  /** The rows of a pair after one inverse stage, by the running twist u. */
  lemma {:induction false} InversePairRows(c: seq<seq<int>>, k: nat, v: int, r: nat, i: nat, u: int)
    requires k > 0 && r > 0 && Pieces(c, r) && i + k < |c| && Off(i, 2 * k) < k && u == -Steps(Off(i, 2 * k), v)
    ensures InvStageRow(c, k, v, r, i) == Add(c[i], Twist(c[i + k], r, u))
    ensures InvStageRow(c, k, v, r, i + k) == Sub(c[i], Twist(c[i + k], r, u))
  {
    InverseSumRow(c, k, v, r, i);
    InverseDiffRow(c, k, v, r, i);
  }

  /** The forward stages with distances k, k/2, ..., 1. */
  ghost function Forward(a: seq<seq<int>>, k: nat, r: nat): (res: seq<seq<int>>)
    requires r > 0 && Pieces(a, r)
    ensures |res| == |a| && Pieces(res, r)
    decreases k
  {
    if k == 0 then a else Forward(Stage(a, k, Quot(r, k), r), k / 2, r)
  }

  /** The inverse stages with distances 1, 2, ..., k. */
  ghost function Backward(c: seq<seq<int>>, k: nat, r: nat): (res: seq<seq<int>>)
    requires r > 0 && Pieces(c, r)
    ensures |res| == |c| && Pieces(res, r)
    decreases k
  {
    if k == 0 then c else InvStage(Backward(c, k / 2, r), k, Quot(r, k), r)
  }

  // ----- the same stages on residues -----

  ghost function StageZ(z: seq<int>, k: nat, v: nat, b: int): (res: seq<int>)
    requires k > 0
    ensures |res| == |z|
  {
    seq(|z|, p requires 0 <= p < |z| => StageZAt(z, k, v, b, p))
  }

  ghost function StageZAt(z: seq<int>, k: nat, v: nat, b: int, p: nat): int
    requires k > 0 && p < |z|
  {
    var j := Off(p, 2 * k);
    if j < k then
      if p + k < |z| then z[p] + z[p + k] else z[p]
    else
      Pow(Pow(b, v), j - k) * (z[p - k] - z[p])
  }

  lemma {:induction false} StagePairZ(z: seq<int>, k: nat, v: nat, b: int, i: nat)
    requires k > 0 && i + k < |z| && Off(i, 2 * k) < k
    ensures StageZAt(z, k, v, b, i) == z[i] + z[i + k]
    ensures StageZAt(z, k, v, b, i + k) == Pow(Pow(b, v), Off(i, 2 * k)) * (z[i] - z[i + k])
  {
    OffAdd(i, k, 2 * k);
  }

  ghost function ForwardZ(z: seq<int>, k: nat, r: nat, b: int): (res: seq<int>)
    ensures |res| == |z|
    decreases k
  {
    if k == 0 then z else ForwardZ(StageZ(z, k, Quot(r, k), b), k / 2, r, b)
  }

  /** k is a distance of the transform: a power of two that divides r, and blocks fit. */
  ghost predicate Distance(k: nat, r: nat, size: nat) {
    k > 0 ==> PowerOfTwo(k) && Off(r, k) == 0 && Off(size, 2 * k) == 0
  }

  lemma {:induction false} NextDistance(k: nat, r: nat, size: nat)
    requires k > 0 && Distance(k, r, size)
    ensures Distance(k / 2, r, size) && k * Quot(r, k) == r
    ensures if k == 1 then k / 2 == 0 else 2 * (k / 2) == k
  {
    QuotExact(r, k);
    OffHalf(size, k);
    if k > 1 { OffHalf(r, k / 2); }
  }

  /** The residues of a stage of rows. */
  lemma {:induction false} StageVals(a: seq<seq<int>>, z: seq<int>, k: nat, v: nat, r: nat, b: int)
    requires k > 0 && r > 0 && Pieces(a, r) && k * v == r && Off(|a|, 2 * k) == 0
    requires CongSeq(Vals(a, b), z, Mod(b, r))
    ensures CongSeq(Vals(Stage(a, k, v, r), b), StageZ(z, k, v, b), Mod(b, r))
  {
    forall p | 0 <= p < |a|
      ensures Cong(Vals(Stage(a, k, v, r), b)[p], StageZ(z, k, v, b)[p], Mod(b, r))
    {
      StageValAt(a, z, k, v, r, b, p);
    }
  }

  lemma {:induction false} StageValAt(a: seq<seq<int>>, z: seq<int>, k: nat, v: nat, r: nat, b: int, p: nat)
    requires k > 0 && r > 0 && Pieces(a, r) && k * v == r && p < |a| && Off(|a|, 2 * k) == 0
    requires CongSeq(Vals(a, b), z, Mod(b, r))
    ensures Cong(Val(StageRow(a, k, v, r, p), b), StageZAt(z, k, v, b, p), Mod(b, r))
  {
    var i := Lower(p, k);
    OffLow(p, k);
    PairFits(p, k, |a|);
    if p == i { SumRowVal(a, z, k, v, r, b, i); } else { TwistRowVal(a, z, k, v, r, b, i); }
  }

  lemma {:induction false} SumRowVal(a: seq<seq<int>>, z: seq<int>, k: nat, v: nat, r: nat, b: int, i: nat)
    requires k > 0 && r > 0 && Pieces(a, r) && i + k < |a| && Off(i, 2 * k) < k
    requires CongSeq(Vals(a, b), z, Mod(b, r))
    ensures Cong(Val(StageRow(a, k, v, r, i), b), StageZAt(z, k, v, b, i), Mod(b, r))
  {
    RowVal(a, z, Mod(b, r), b, i);
    RowVal(a, z, Mod(b, r), b, i + k);
    ValAdd(a[i], a[i + k], b);
    CongAdd(Val(a[i], b), z[i], Val(a[i + k], b), z[i + k], Mod(b, r));
  }

  lemma {:induction false} TwistRowVal(a: seq<seq<int>>, z: seq<int>, k: nat, v: nat, r: nat, b: int, i: nat)
    requires k > 0 && r > 0 && k * v == r && Pieces(a, r) && i + k < |a| && Off(i, 2 * k) < k
    requires CongSeq(Vals(a, b), z, Mod(b, r))
    ensures Cong(Val(StageRow(a, k, v, r, i + k), b), StageZAt(z, k, v, b, i + k), Mod(b, r))
  {
    var j := Off(i, 2 * k);
    ForwardPairRows(a, k, v, r, i, Steps(j, v));
    StagePairZ(z, k, v, b, i);
    RowVal(a, z, Mod(b, r), b, i);
    RowVal(a, z, Mod(b, r), b, i + k);
    TwistDiff(a[i], a[i + k], z[i], z[i + k], k, v, r, b, j);
  }

  lemma {:induction false} RowVal(a: seq<seq<int>>, z: seq<int>, n: int, b: int, p: nat)
    requires p < |a| && CongSeq(Vals(a, b), z, n)
    ensures p < |z| && Cong(Val(a[p], b), z[p], n)
  {
    assert Vals(a, b)[p] == Val(a[p], b);
  }

  lemma {:induction false} TwistDiff(x: seq<int>, y: seq<int>, u: int, w: int,
                                     k: nat, v: nat, r: nat, b: int, j: nat)
    requires |x| == |y| == r > 0 && k * v == r && j < k
    requires Cong(Val(x, b), u, Mod(b, r)) && Cong(Val(y, b), w, Mod(b, r))
    ensures Cong(Val(Twist(Sub(x, y), r, Steps(j, v)), b), Pow(Pow(b, v), j) * (u - w), Mod(b, r))
  {
    var (n, d, q) := (Mod(b, r), Sub(x, y), Steps(j, v));
    ValSub(x, y, b);
    CongSub(Val(x, b), u, Val(y, b), w, n);
    TwistVal(d, r, q, b);
    SmallTwist(j, k, v, r);
    StepsPow(b, j, v);
    CongScale(Pow(b, q), Val(d, b), u - w, n);
    CongTrans(Val(Twist(d, r, q), b), Pow(b, q) * Val(d, b), Pow(b, q) * (u - w), n);
  }

  lemma {:induction false} SmallTwist(j: nat, k: nat, v: nat, r: nat)
    requires k * v == r > 0 && j < k
    ensures 0 <= Steps(j, v) < r && Residue(Steps(j, v), 2 * r) == Steps(j, v)
  {
    StepsIsProduct(j, v);
    MulMono(v, 0, j);
    MulMono(v, j, k - 1);
    DistribSub(v, k, 1);
  }

  lemma {:induction false} StepsPow(b: int, j: nat, v: nat)
    ensures Steps(j, v) >= 0 && Pow(b, Steps(j, v)) == Pow(Pow(b, v), j)
  {
    StepsIsProduct(j, v);
    MulMono(v, 0, j);
    PowMul'(b, v, j);
  }

  lemma {:induction false} ForwardVals(a: seq<seq<int>>, z: seq<int>, k: nat, r: nat, b: int)
    requires r > 0 && Pieces(a, r) && Distance(k, r, |a|)
    requires CongSeq(Vals(a, b), z, Mod(b, r))
    ensures CongSeq(Vals(Forward(a, k, r), b), ForwardZ(z, k, r, b), Mod(b, r))
    decreases k
  {
    if k > 0 {
      NextDistance(k, r, |a|);
      StageVals(a, z, k, Quot(r, k), r, b);
      ForwardVals(Stage(a, k, Quot(r, k), r), StageZ(z, k, Quot(r, k), b), k / 2, r, b);
    }
  }

  // ----- the forward transform evaluates a polynomial at roots of unity -----

  ghost function BlockLen(k: nat): nat {
    if k == 0 then 1 else 2 * k
  }

  /** The point at which entry i of the transform is the value of its block. */
  ghost function Root(k: nat, i: nat, r: nat, b: int): int
    decreases k
  {
    if k == 0 then 1
    else if Off(i, 2 * k) < k then Root(k / 2, i, r, b)
    else Pow(b, Quot(r, k)) * Root(k / 2, i, r, b)
  }

  lemma {:induction false} RootPower(k: nat, i: nat, r: nat, b: int, size: nat)
    requires Distance(k, r, size)
    ensures Cong(Pow(Root(k, i, r, b), BlockLen(k)), 1, Mod(b, r))
    ensures k > 0 ==> Cong(Pow(Root(k, i, r, b), k), if Off(i, 2 * k) < k then 1 else -1, Mod(b, r))
    decreases k
  {
    var n := Mod(b, r);
    if k == 0 {
      CongRefl(1, n);
    } else {
      NextDistance(k, r, size);
      RootPower(k / 2, i, r, b, size);
      var (g, h) := (Root(k, i, r, b), Root(k / 2, i, r, b));
      if Off(i, 2 * k) < k {
        CongSquare(g, k, 1, n);
      } else {
        NegativePower(h, k, Quot(r, k), r, b);
        CongSquare(g, k, -1, n);
      }
    }
  }

  /** If h^k = 1 and beta = b^v with k v = r, then (beta h)^k = -1. */
  lemma {:induction false} NegativePower(h: int, k: nat, v: nat, r: nat, b: int)
    requires k * v == r && Cong(Pow(h, k), 1, Mod(b, r))
    ensures Cong(Pow(Pow(b, v) * h, k), -1, Mod(b, r))
  {
    var (n, beta) := (Mod(b, r), Pow(b, v));
    PowMulBase(beta, h, k);
    PowMul(b, v, k);
    CongIntro(Pow(beta, k), -1, 1, n);
    CongMul(Pow(beta, k), -1, Pow(h, k), 1, n);
  }

  lemma {:induction false} CongSquare(g: int, k: nat, s: int, n: int)
    requires Cong(Pow(g, k), s, n)
    ensures Cong(Pow(g, 2 * k), s * s, n)
  {
    PowAdd(g, k, k);
    CongMul(Pow(g, k), s, Pow(g, k), s, n);
  }

  ghost function Block(z: seq<int>, len: nat, i: nat): (s: seq<int>)
    requires len > 0 && i < |z| && Off(|z|, len) == 0
    ensures |s| == len
  {
    OffBlock(i, len, |z|);
    z[i - Off(i, len)..i - Off(i, len) + len]
  }

  /** d with entry q multiplied by beta^(e + q). */
  ghost function Geo(d: seq<int>, beta: int, e: nat): (g: seq<int>)
    ensures |g| == |d|
  {
    seq(|d|, q requires 0 <= q < |d| => Pow(beta, e + q) * d[q])
  }

  lemma {:induction false} ValGeo(d: seq<int>, beta: int, e: nat, g: int)
    ensures Val(Geo(d, beta, e), g) == Pow(beta, e) * Val(d, beta * g)
  {
    if d != [] {
      assert Geo(d, beta, e)[1..] == Geo(d[1..], beta, e + 1);
      ValGeo(d[1..], beta, e + 1, g);
      var (p, v) := (Pow(beta, e), Val(d[1..], beta * g));
      Swap4(beta, p, g, v);
      Swap4(beta, g, p, v);
      Assoc(beta, p, v);
      Assoc(g, beta * p, v);
      Distrib(p, d[0], (beta * g) * v);
      Assoc(beta * g, p, v);
      Assoc(p, beta * g, v);
    }
  }

  /** The two halves of a stage of residues, block by block. */
  lemma {:induction false} StageBlock(z: seq<int>, k: nat, v: nat, b: int, i: nat)
    requires k > 0 && i < |z| && Off(|z|, 2 * k) == 0 && Off(|z|, k) == 0
    ensures var s := Block(z, 2 * k, i);
            Block(StageZ(z, k, v, b), k, i) ==
              if Off(i, 2 * k) < k then Add(s[..k], s[k..]) else Geo(Sub(s[..k], s[k..]), Pow(b, v), 0)
  {
    var (s, t) := (Block(z, 2 * k, i), Block(StageZ(z, k, v, b), k, i));
    var (sum, geo) := (Add(s[..k], s[k..]), Geo(Sub(s[..k], s[k..]), Pow(b, v), 0));
    if Off(i, 2 * k) < k {
      forall q | 0 <= q < k ensures t[q] == sum[q] { StageBlockAt(z, k, v, b, i, q); }
    } else {
      forall q | 0 <= q < k ensures t[q] == geo[q] { StageBlockAt(z, k, v, b, i, q); }
    }
  }

  lemma {:induction false} StageBlockAt(z: seq<int>, k: nat, v: nat, b: int, i: nat, q: nat)
    requires k > 0 && i < |z| && Off(|z|, 2 * k) == 0 && Off(|z|, k) == 0 && q < k
    ensures var (s, t) := (Block(z, 2 * k, i), Block(StageZ(z, k, v, b), k, i));
            t[q] == if Off(i, 2 * k) < k then s[q] + s[k + q] else Pow(Pow(b, v), q) * (s[q] - s[k + q])
  {
    var start := i - Off(i, 2 * k);
    OffStart(i, 2 * k);
    OffBlock(i, 2 * k, |z|);
    OffBlock(i, k, |z|);
    OffHalf(i, k);
    StagePair(z, k, v, b, start, q);
  }

  lemma {:induction false} StagePair(z: seq<int>, k: nat, v: nat, b: int, start: nat, q: nat)
    requires k > 0 && q < k && Off(start, 2 * k) == 0 && start + 2 * k <= |z|
    ensures StageZ(z, k, v, b)[start + q] == z[start + q] + z[start + k + q]
    ensures StageZ(z, k, v, b)[start + k + q] == Pow(Pow(b, v), q) * (z[start + q] - z[start + k + q])
  {
    OffAdd(start, q, 2 * k);
    OffAdd(start, k + q, 2 * k);
  }

  lemma {:induction false} OffStart(i: nat, len: nat)
    requires len > 0
    ensures Off(i - Off(i, len), len) == 0
  {
    if i >= len { OffStart(i - len, len); }
  }

  /** Entry i of the forward transform is the value of its block at the root that belongs to i. */
  lemma {:induction false} ForwardEvaluates(z: seq<int>, k: nat, r: nat, b: int, i: nat)
    requires Distance(k, r, |z|) && i < |z| && Off(|z|, BlockLen(k)) == 0
    ensures Cong(ForwardZ(z, k, r, b)[i], Val(Block(z, BlockLen(k), i), Root(k, i, r, b)), Mod(b, r))
    decreases k
  {
    var n := Mod(b, r);
    if k == 0 {
      assert Block(z, 1, i) == [z[i]];
      ValOne(z[i], 1);
      CongRefl(z[i], n);
    } else {
      NextDistance(k, r, |z|);
      OffHalf(|z|, k);
      var (h, v, s) := (k / 2, Quot(r, k), Block(z, 2 * k, i));
      ForwardEvaluates(StageZ(z, k, v, b), h, r, b, i);
      StageBlock(z, k, v, b, i);
      RootPower(k, i, r, b, |z|);
      RootPower(h, i, r, b, |z|);
      HalfValue(s, k, Pow(b, v), Root(h, i, r, b), Root(k, i, r, b), Off(i, 2 * k) < k, n);
      CongTrans(ForwardZ(z, k, r, b)[i], Val(Block(StageZ(z, k, v, b), k, i), Root(h, i, r, b)),
                Val(s, Root(k, i, r, b)), n);
    }
  }

  lemma {:induction false} HalfValue(s: seq<int>, k: nat, beta: int, h: int, g: int, lower: bool, n: int)
    requires |s| == 2 * k && g == (if lower then h else beta * h)
    requires Cong(Pow(g, k), if lower then 1 else -1, n)
    ensures var t := if lower then Add(s[..k], s[k..]) else Geo(Sub(s[..k], s[k..]), beta, 0);
            Cong(Val(t, h), Val(s, g), n)
  {
    var (lo, hi, sign) := (Val(s[..k], g), Val(s[k..], g), if lower then 1 else -1);
    ValSplit(s, k, g);
    FoldSign(lo, hi, Pow(g, k), sign, n);
    if lower {
      ValAdd(s[..k], s[k..], g);
    } else {
      ValGeo(Sub(s[..k], s[k..]), beta, 0, h);
      ValSub(s[..k], s[k..], g);
    }
  }

  lemma {:induction false} FoldSign(lo: int, hi: int, p: int, sign: int, n: int)
    requires Cong(p, sign, n)
    ensures Cong(lo + hi * sign, lo + p * hi, n)
  {
    CongScale(hi, p, sign, n);
    CongRefl(lo, n);
    CongAdd(lo, lo, hi * p, hi * sign, n);
    CongSym(lo + hi * p, lo + hi * sign, n);
  }

  // ----- the inverse stages undo the forward stages, up to a factor of two each -----

  lemma {:induction false} UndoStage(c: seq<seq<int>>, z: seq<int>, l: int, k: nat, v: nat, r: nat, b: int)
    requires k > 0 && r > 0 && Pieces(c, r) && k * v == r && Off(|c|, 2 * k) == 0 && |z| == |c|
    requires CongSeq(Vals(c, b), Scale(l, StageZ(z, k, v, b)), Mod(b, r))
    ensures CongSeq(Vals(InvStage(c, k, v, r), b), Scale(2 * l, z), Mod(b, r))
  {
    forall p | 0 <= p < |c|
      ensures Cong(Vals(InvStage(c, k, v, r), b)[p], Scale(2 * l, z)[p], Mod(b, r))
    {
      UndoStageAt(c, z, l, k, v, r, b, p);
    }
  }

  lemma {:induction false} UndoStageAt(c: seq<seq<int>>, z: seq<int>, l: int, k: nat, v: nat, r: nat, b: int, p: nat)
    requires k > 0 && r > 0 && Pieces(c, r) && k * v == r && Off(|c|, 2 * k) == 0 && |z| == |c| && p < |c|
    requires CongSeq(Vals(c, b), Scale(l, StageZ(z, k, v, b)), Mod(b, r))
    ensures Cong(Val(InvStageRow(c, k, v, r, p), b), 2 * l * z[p], Mod(b, r))
  {
    var i := Lower(p, k);
    OffLow(p, k);
    PairFits(p, k, |c|);
    if p == i { UndoLow(c, z, l, k, v, r, b, i); } else { UndoHigh(c, z, l, k, v, r, b, i); }
  }

  lemma {:induction false} UndoLow(c: seq<seq<int>>, z: seq<int>, l: int, k: nat, v: nat, r: nat, b: int, i: nat)
    requires k > 0 && r > 0 && Pieces(c, r) && k * v == r && |z| == |c| && i + k < |c| && Off(i, 2 * k) < k
    requires CongSeq(Vals(c, b), Scale(l, StageZ(z, k, v, b)), Mod(b, r))
    ensures Cong(Val(InvStageRow(c, k, v, r, i), b), 2 * l * z[i], Mod(b, r))
  {
    InverseSumRow(c, k, v, r, i);
    UndoneSum(InvStageRow(c, k, v, r, i), c, z, l, k, v, r, b, i, Off(i, 2 * k));
  }

  lemma {:induction false} UndoneSum(row: seq<int>, c: seq<seq<int>>, z: seq<int>, l: int, k: nat, v: nat, r: nat, b: int,
                                     i: nat, j: nat)
    requires k > 0 && r > 0 && Pieces(c, r) && k * v == r && |z| == |c| && i + k < |c| && j == Off(i, 2 * k) < k
    requires CongSeq(Vals(c, b), Scale(l, StageZ(z, k, v, b)), Mod(b, r))
    requires row == Add(c[i], Twist(c[i + k], r, -Steps(j, v)))
    ensures Cong(Val(row, b), 2 * l * z[i], Mod(b, r))
  {
    UndoPairAt(c, z, l, k, v, r, b, i, j);
  }

  lemma {:induction false} UndoHigh(c: seq<seq<int>>, z: seq<int>, l: int, k: nat, v: nat, r: nat, b: int, i: nat)
    requires k > 0 && r > 0 && Pieces(c, r) && k * v == r && |z| == |c| && i + k < |c| && Off(i, 2 * k) < k
    requires CongSeq(Vals(c, b), Scale(l, StageZ(z, k, v, b)), Mod(b, r))
    ensures Cong(Val(InvStageRow(c, k, v, r, i + k), b), 2 * l * z[i + k], Mod(b, r))
  {
    InverseDiffRow(c, k, v, r, i);
    UndoneDifference(InvStageRow(c, k, v, r, i + k), c, z, l, k, v, r, b, i, Off(i, 2 * k));
  }

  lemma {:induction false} UndoneDifference(row: seq<int>, c: seq<seq<int>>, z: seq<int>, l: int, k: nat, v: nat, r: nat, b: int,
                                     i: nat, j: nat)
    requires k > 0 && r > 0 && Pieces(c, r) && k * v == r && |z| == |c| && i + k < |c| && j == Off(i, 2 * k) < k
    requires CongSeq(Vals(c, b), Scale(l, StageZ(z, k, v, b)), Mod(b, r))
    requires row == Sub(c[i], Twist(c[i + k], r, -Steps(j, v)))
    ensures Cong(Val(row, b), 2 * l * z[i + k], Mod(b, r))
  {
    UndoPairAt(c, z, l, k, v, r, b, i, j);
  }

  lemma {:induction false} UndoPairAt(c: seq<seq<int>>, z: seq<int>, l: int, k: nat, v: nat, r: nat, b: int,
                                      i: nat, j: nat)
    requires k > 0 && r > 0 && Pieces(c, r) && k * v == r && |z| == |c| && i + k < |c| && j == Off(i, 2 * k) < k
    requires CongSeq(Vals(c, b), Scale(l, StageZ(z, k, v, b)), Mod(b, r))
    ensures Cong(Val(Add(c[i], Twist(c[i + k], r, -Steps(j, v))), b), 2 * l * z[i], Mod(b, r))
    ensures Cong(Val(Sub(c[i], Twist(c[i + k], r, -Steps(j, v))), b), 2 * l * z[i + k], Mod(b, r))
  {
    ScaledRow(c, z, l, k, v, r, b, i);
    ScaledRow(c, z, l, k, v, r, b, i + k);
    StagePairZ(z, k, v, b, i);
    UndoPair(c[i], c[i + k], z[i], z[i + k], l, k, v, r, b, j);
  }

  lemma {:induction false} ScaledRow(c: seq<seq<int>>, z: seq<int>, l: int, k: nat, v: nat, r: nat, b: int, p: nat)
    requires k > 0 && r > 0 && Pieces(c, r) && |z| == |c| && p < |c|
    requires CongSeq(Vals(c, b), Scale(l, StageZ(z, k, v, b)), Mod(b, r))
    ensures Cong(Val(c[p], b), l * StageZAt(z, k, v, b, p), Mod(b, r))
  {
    RowVal(c, Scale(l, StageZ(z, k, v, b)), Mod(b, r), b, p);
  }

  lemma {:induction false} UndoPair(lo: seq<int>, hi: seq<int>, x: int, y: int, l: int,
                                    k: nat, v: nat, r: nat, b: int, j: nat)
    requires |lo| == |hi| == r > 0 && k * v == r && j < k
    requires Cong(Val(lo, b), l * (x + y), Mod(b, r))
    requires Cong(Val(hi, b), l * (Pow(Pow(b, v), j) * (x - y)), Mod(b, r))
    ensures Cong(Val(Add(lo, Twist(hi, r, -Steps(j, v))), b), 2 * l * x, Mod(b, r))
    ensures Cong(Val(Sub(lo, Twist(hi, r, -Steps(j, v))), b), 2 * l * y, Mod(b, r))
  {
    var (n, u, t) := (Mod(b, r), Steps(j, v), Twist(hi, r, -Steps(j, v)));
    Untwist(hi, l * (x - y), k, v, r, b, j) by {
      var p := Pow(Pow(b, v), j);
      Assoc(l, p, x - y);
      Assoc(p, l, x - y);
    }
    ValAdd(lo, t, b);
    ValSub(lo, t, b);
    CongAdd(Val(lo, b), l * (x + y), Val(t, b), l * (x - y), n);
    CongSub(Val(lo, b), l * (x + y), Val(t, b), l * (x - y), n);
    SumAndDifference(l, x, y);
  }

  lemma {:induction false} SumAndDifference(l: int, x: int, y: int)
    ensures l * (x + y) + l * (x - y) == 2 * l * x && l * (x + y) - l * (x - y) == 2 * l * y
  {
    Distrib(l, x, y);
    DistribSub(l, x, y);
  }

  lemma {:induction false} Untwist(hi: seq<int>, w: int, k: nat, v: nat, r: nat, b: int, j: nat)
    requires |hi| == r > 0 && k * v == r && j < k
    requires Cong(Val(hi, b), Pow(Pow(b, v), j) * w, Mod(b, r))
    ensures Cong(Val(Twist(hi, r, -Steps(j, v)), b), w, Mod(b, r))
  {
    var (n, u) := (Mod(b, r), Steps(j, v));
    SmallTwist(j, k, v, r);
    StepsPow(b, j, v);
    var q := Residue(-u, 2 * r);
    ResidueSum(u, -u, 2 * r);
    PowPeriod(b, r, q + u, 0);
    PowAdd(b, q, u);
    TwistVal(hi, r, -u, b);
    var t := Val(Twist(hi, r, -u), b);
    CongScale(Pow(b, q), Val(hi, b), Pow(b, u) * w, n);
    CongTrans(t, Pow(b, q) * Val(hi, b), Pow(b, q) * (Pow(b, u) * w), n);
    Assoc(Pow(b, q), Pow(b, u), w);
    CongScale(w, Pow(b, q + u), 1, n);
    CongTrans(t, Pow(b, q + u) * w, w, n);
  }

  /** The inverse transform of the forward transform of z is BlockLen(k) times z. */
  lemma {:induction false} Undo(c: seq<seq<int>>, z: seq<int>, k: nat, r: nat, b: int)
    requires r > 0 && Pieces(c, r) && |c| == |z| && Distance(k, r, |z|)
    requires CongSeq(Vals(c, b), ForwardZ(z, k, r, b), Mod(b, r))
    ensures CongSeq(Vals(Backward(c, k, r), b), Scale(BlockLen(k), z), Mod(b, r))
    decreases k
  {
    if k == 0 {
      assert Scale(1, z) == z;
    } else {
      NextDistance(k, r, |z|);
      var v := Quot(r, k);
      Undo(c, StageZ(z, k, v, b), k / 2, r, b);
      UndoStage(Backward(c, k / 2, r), z, k, k, v, r, b);
    }
  }

  // ----- cutting a list into rows and back -----

  lemma {:induction false} IndexBound(j: nat, g: nat, m: nat, r: nat)
    requires j < m && g < r
    ensures j + g * m < r * m
  {
    MulMono(m, g + 1, r);
    Distrib(m, g, 1);
  }

  /** Row j < m holds every m-th term from term j on; m rows of zeros follow. */
  function MakePoly(a: seq<int>, r: nat, m: nat): (res: seq<seq<int>>)
    requires |a| == r * m
    ensures |res| == 2 * m && Pieces(res, r)
  {
    seq(m, j requires 0 <= j < m => Stride(a, r, m, j)) + seq(m, _ => Zeros(r))
  }

  function Stride(a: seq<int>, r: nat, m: nat, j: nat): (row: seq<int>)
    requires |a| == r * m && j < m
    ensures |row| == r
  {
    seq(r, g requires 0 <= g < r => (IndexBound(j, g, m, r); a[j + g * m]))
  }

  function Heads(c: seq<seq<int>>, m: nat, r: nat, i: nat): (h: seq<int>)
    requires m <= |c| && Pieces(c, r) && i < r
    ensures |h| == m
  {
    seq(m, j requires 0 <= j < m => c[j][i])
  }

  /** The first i columns of the first m rows, one after the other. */
  ghost function Cols(c: seq<seq<int>>, m: nat, r: nat, i: nat): (d: seq<int>)
    requires m <= |c| && Pieces(c, r) && i <= r
    ensures |d| == i * m
  {
    if i == 0 then [] else
      Distrib(m, i - 1, 1);
      Cols(c, m, r, i - 1) + Heads(c, m, r, i - 1)
  }

  method UnPoly(c: seq<seq<int>>, r: nat, m: nat) returns (res: seq<int>)
    requires m <= |c| && Pieces(c, r)
    ensures res == Cols(c, m, r, r)
  {
    res := [];
    for i := 0 to r
      invariant res == Cols(c, m, r, i)
    {
      ghost var before := res;
      for j := 0 to m
        invariant res == before + Heads(c, m, r, i)[..j]
      {
        res := res + [c[j][i]];
      }
    }
  }

  lemma {:induction false} HeadsMakePoly(a: seq<int>, r: nat, m: nat, g: nat)
    requires |a| == r * m && g < r
    ensures 0 <= g * m && g * m + m <= |a| && Heads(MakePoly(a, r, m), m, r, g) == a[g * m..g * m + m]
  {
    MulMono(m, g + 1, r);
    Distrib(m, g, 1);
    MulMono(m, 0, g);
    var (h, part) := (Heads(MakePoly(a, r, m), m, r, g), a[g * m..g * m + m]);
    forall j | 0 <= j < m ensures h[j] == part[j] {
      assert MakePoly(a, r, m)[j] == Stride(a, r, m, j);
    }
  }

  /** unpoly undoes makepoly. */
  lemma {:induction false} UnPolyMakePoly(a: seq<int>, r: nat, m: nat, i: nat)
    requires |a| == r * m && i <= r
    ensures i * m <= |a| && Cols(MakePoly(a, r, m), m, r, i) == a[..i * m]
  {
    MulMono(m, i, r);
    if i > 0 {
      var n := (i - 1) * m;
      UnPolyMakePoly(a, r, m, i - 1);
      HeadsMakePoly(a, r, m, i - 1);
      Distrib(m, i - 1, 1);
      assert a[..n + m] == a[..n] + a[n..n + m];
    }
  }

  /** At t, the columns have the value of the rows: each row at t^m, and these values at t. */
  lemma {:induction false} ColsVal(c: seq<seq<int>>, m: nat, r: nat, i: nat, t: int)
    requires m <= |c| && Pieces(c, r) && i <= r
    ensures Val(Cols(c, m, r, i), t) == Val(Vals(Prefixes(c, m, r, i), Pow(t, m)), t)
  {
    var b := Pow(t, m);
    if i == 0 {
      assert Vals(Prefixes(c, m, r, 0), b) == Zeros(m);
      ValZeros(m, t);
    } else {
      var (w, h, p) := (Vals(Prefixes(c, m, r, i - 1), b), Heads(c, m, r, i - 1), Pow(b, i - 1));
      ColsVal(c, m, r, i - 1, t);
      ValAppend(Cols(c, m, r, i - 1), h, t);
      PowMul'(t, m, i - 1);
      PrefixesStep(c, m, r, i, b);
      ValAdd(w, Scale(p, h), t);
      ValScale(p, h, t);
    }
  }

  lemma {:induction false} PrefixesStep(c: seq<seq<int>>, m: nat, r: nat, i: nat, b: int)
    requires m <= |c| && Pieces(c, r) && 0 < i <= r
    ensures Vals(Prefixes(c, m, r, i), b)
         == Add(Vals(Prefixes(c, m, r, i - 1), b), Scale(Pow(b, i - 1), Heads(c, m, r, i - 1)))
  {
    forall j | 0 <= j < m
      ensures Vals(Prefixes(c, m, r, i), b)[j]
           == Vals(Prefixes(c, m, r, i - 1), b)[j] + Pow(b, i - 1) * Heads(c, m, r, i - 1)[j]
    {
      PrefixVal(c[j], i, b);
    }
  }

  ghost function Prefixes(c: seq<seq<int>>, m: nat, r: nat, i: nat): (l: seq<seq<int>>)
    requires m <= |c| && Pieces(c, r) && i <= r
    ensures |l| == m
  {
    seq(m, j requires 0 <= j < m => c[j][..i])
  }

  lemma {:induction false} PrefixVal(row: seq<int>, i: nat, b: int)
    requires 0 < i <= |row|
    ensures Val(row[..i], b) == Val(row[..i - 1], b) + Pow(b, i - 1) * row[i - 1]
  {
    ValSplit(row[..i], i - 1, b);
    assert row[..i][..i - 1] == row[..i - 1] && row[..i][i - 1..] == [row[i - 1]];
    ValOne(row[i - 1], b);
  }

  lemma {:induction false} RowsVal(c: seq<seq<int>>, m: nat, r: nat, t: int)
    requires m <= |c| && Pieces(c, r)
    ensures Val(Cols(c, m, r, r), t) == Val(Vals(c[..m], Pow(t, m)), t)
  {
    ColsVal(c, m, r, r, t);
    forall j | 0 <= j < m ensures c[j][..r] == c[j] {}
    assert Prefixes(c, m, r, r) == c[..m];
  }

  // ----- the transform computes the product -----

  ghost function Pointwise(a: seq<seq<int>>, b: seq<seq<int>>, r: nat): (c: seq<seq<int>>)
    requires r > 0 && |a| == |b| && Pieces(a, r) && Pieces(b, r)
    ensures |c| == |a| && Pieces(c, r)
  {
    seq(|a|, i requires 0 <= i < |a| => NegConv(a[i], b[i]))
  }

  /** y^m = t^m: row k + m is twisted by one and added to row k; the last row stays. */
  ghost function Folded(c: seq<seq<int>>, m: nat, r: nat): (f: seq<seq<int>>)
    requires r > 0 && |c| == 2 * m && Pieces(c, r)
    ensures |f| == m && Pieces(f, r)
  {
    seq(m, k requires 0 <= k < m => FoldedRow(c, m, r, k))
  }

  ghost function FoldedRow(c: seq<seq<int>>, m: nat, r: nat, k: nat): (row: seq<int>)
    requires r > 0 && |c| == 2 * m && Pieces(c, r) && k < m
    ensures |row| == r
  {
    if k < m - 1 then Add(c[k], Twist(c[k + m], r, 1)) else c[k]
  }

  lemma {:induction false} MakePolyVals(x: seq<int>, r: nat, m: nat, t: int) returns (a: seq<int>)
    requires |x| == r * m
    ensures |a| == m && Vals(MakePoly(x, r, m), Pow(t, m)) == a + Zeros(m) && Val(a, t) == Val(x, t)
  {
    var (c, b) := (MakePoly(x, r, m), Pow(t, m));
    a := Vals(c[..m], b);
    forall j | m <= j < 2 * m ensures Vals(c, b)[j] == 0 { ValZeros(r, b); }
    RowsVal(c, m, r, t);
    UnPolyMakePoly(x, r, m, r);
    assert x[..r * m] == x;
  }

  /** Entry i of the forward transform of padded a is the value of a at the i-th root. */
  lemma {:induction false} PaddedForward(rows: seq<seq<int>>, a: seq<int>, m: nat, r: nat, b: int, i: nat)
    requires r > 0 && m > 0 && Pieces(rows, r) && |rows| == 2 * m && |a| == m && i < 2 * m
    requires Distance(m, r, 2 * m) && Vals(rows, b) == a + Zeros(m)
    ensures Cong(Val(Forward(rows, m, r)[i], b), Val(a, Root(m, i, r, b)), Mod(b, r))
  {
    var (z, n) := (a + Zeros(m), Mod(b, r));
    forall p | 0 <= p < |z| ensures Cong(z[p], z[p], n) { CongRefl(z[p], n); }
    ForwardVals(rows, z, m, r, b);
    RowVal(Forward(rows, m, r), ForwardZ(z, m, r, b), n, b, i);
    WholeForward(z, m, r, b, i);
    ValPad(a, m, Root(m, i, r, b));
    CongTrans(Val(Forward(rows, m, r)[i], b), ForwardZ(z, m, r, b)[i], Val(a, Root(m, i, r, b)), n);
  }

  lemma {:induction false} WholeForward(z: seq<int>, m: nat, r: nat, b: int, i: nat)
    requires m > 0 && |z| == 2 * m && Distance(m, r, 2 * m) && i < 2 * m
    ensures Cong(ForwardZ(z, m, r, b)[i], Val(z, Root(m, i, r, b)), Mod(b, r))
  {
    ForwardEvaluates(z, m, r, b, i);
    assert Block(z, 2 * m, i) == z;
  }

  /** The pointwise products are the forward transform of the schoolbook product. */
  lemma {:induction false} PointwiseForward(ra: seq<seq<int>>, rb: seq<seq<int>>, a: seq<int>, d: seq<int>,
                                            m: nat, r: nat, b: int)
    requires r > 0 && m > 0 && Pieces(ra, r) && Pieces(rb, r) && |ra| == |rb| == 2 * m && |a| == |d| == m
    requires Distance(m, r, 2 * m) && Vals(ra, b) == a + Zeros(m) && Vals(rb, b) == d + Zeros(m)
    ensures CongSeq(Vals(Pointwise(Forward(ra, m, r), Forward(rb, m, r), r), b),
                    ForwardZ(Conv(a, d) + Zeros(1), m, r, b), Mod(b, r))
  {
    var (fa, fb) := (Forward(ra, m, r), Forward(rb, m, r));
    var (c, n) := (Conv(a, d) + Zeros(1), Mod(b, r));
    forall i | 0 <= i < 2 * m
      ensures Cong(Vals(Pointwise(fa, fb, r), b)[i], ForwardZ(c, m, r, b)[i], n)
    {
      var g := Root(m, i, r, b);
      PaddedForward(ra, a, m, r, b, i);
      PaddedForward(rb, d, m, r, b, i);
      NegConvVal(fa[i], fb[i], b);
      CongMul(Val(fa[i], b), Val(a, g), Val(fb[i], b), Val(d, g), n);
      CongTrans(Val(NegConv(fa[i], fb[i]), b), Val(fa[i], b) * Val(fb[i], b), Val(a, g) * Val(d, g), n);
      ValConv(a, d, g);
      ValPad(Conv(a, d), 1, g);
      WholeForward(c, m, r, b, i);
      CongSym(ForwardZ(c, m, r, b)[i], Val(c, g), n);
      CongTrans(Val(NegConv(fa[i], fb[i]), b), Val(c, g), ForwardZ(c, m, r, b)[i], n);
    }
  }

  lemma {:induction false} FoldedVals(c: seq<seq<int>>, z: seq<int>, l: int, m: nat, r: nat, b: int)
    requires r > 0 && m > 0 && |c| == |z| == 2 * m && Pieces(c, r) && z[2 * m - 1] == 0
    requires CongSeq(Vals(c, b), Scale(l, z), Mod(b, r))
    ensures CongSeq(Vals(Folded(c, m, r), b), Scale(l, Add(z[..m], Scale(b, z[m..]))), Mod(b, r))
  {
    var (n, f, w) := (Mod(b, r), Folded(c, m, r), Scale(l, Add(z[..m], Scale(b, z[m..]))));
    forall k | 0 <= k < m ensures Cong(Vals(f, b)[k], w[k], n) {
      RowVal(c, Scale(l, z), n, b, k);
      assert w[k] == l * (z[k] + b * z[k + m]);
      if k < m - 1 {
        RowVal(c, Scale(l, z), n, b, k + m);
        FoldPair(c[k], c[k + m], z[k], z[k + m], l, r, b);
      }
    }
  }

  lemma {:induction false} FoldPair(lo: seq<int>, hi: seq<int>, x: int, y: int, l: int, r: nat, b: int)
    requires |lo| == |hi| == r > 0
    requires Cong(Val(lo, b), l * x, Mod(b, r)) && Cong(Val(hi, b), l * y, Mod(b, r))
    ensures Cong(Val(Add(lo, Twist(hi, r, 1)), b), l * (x + b * y), Mod(b, r))
  {
    var (n, t) := (Mod(b, r), Twist(hi, r, 1));
    ValAdd(lo, t, b);
    TwistVal(hi, r, 1, b);
    assert Pow(b, 1) == b * Pow(b, 0) == b;
    CongScale(b, Val(hi, b), l * y, n);
    CongTrans(Val(t, b), b * Val(hi, b), b * (l * y), n);
    CongAdd(Val(lo, b), l * x, Val(t, b), b * (l * y), n);
    Assoc(b, l, y);
    Assoc(l, b, y);
    Distrib(l, x, b * y);
  }

  /** The whole computation, before the final shift. */
  ghost function Transformed(x: seq<int>, y: seq<int>, m: nat, r: nat): (d: seq<int>)
    requires r > 0 && m > 0 && |x| == |y| == r * m
    ensures |d| == r * m
  {
    var (a, b) := (MakePoly(x, r, m), MakePoly(y, r, m));
    var c := Pointwise(Forward(a, m, r), Forward(b, m, r), r);
    Cols(Folded(Backward(c, m, r), m, r), m, r, r)
  }

  lemma {:induction false} TransformedVal(x: seq<int>, y: seq<int>, m: nat, r: nat, t: int)
    requires r > 0 && m > 0 && |x| == |y| == r * m && Distance(m, r, 2 * m)
    ensures Cong(Val(Transformed(x, y, m, r), t), (2 * m) * (Val(x, t) * Val(y, t)), Pow(t, r * m) + 1)
  {
    var (ra, rb) := (MakePoly(x, r, m), MakePoly(y, r, m));
    var a := MakePolyVals(x, r, m, t);
    var d := MakePolyVals(y, r, m, t);
    RowsToProduct(ra, rb, a, d, m, r, t);
    PowMul'(t, m, r);
  }

  /** The transform of rows whose values at t^m are a and d has at t the value 2m a(t) d(t). */
  lemma {:induction false} RowsToProduct(ra: seq<seq<int>>, rb: seq<seq<int>>, a: seq<int>, d: seq<int>,
                                         m: nat, r: nat, t: int)
    requires r > 0 && m > 0 && Pieces(ra, r) && Pieces(rb, r) && |ra| == |rb| == 2 * m && |a| == |d| == m
    requires Distance(m, r, 2 * m) && Vals(ra, Pow(t, m)) == a + Zeros(m) && Vals(rb, Pow(t, m)) == d + Zeros(m)
    ensures var c := Pointwise(Forward(ra, m, r), Forward(rb, m, r), r);
            Cong(Val(Cols(Folded(Backward(c, m, r), m, r), m, r, r), t), (2 * m) * (Val(a, t) * Val(d, t)),
                 Mod(Pow(t, m), r))
  {
    var (b, z) := (Pow(t, m), Conv(a, d) + Zeros(1));
    var c := Pointwise(Forward(ra, m, r), Forward(rb, m, r), r);
    PointwiseForward(ra, rb, a, d, m, r, b);
    Undo(c, z, m, r, b);
    var back := Backward(c, m, r);
    FoldedVals(back, z, 2 * m, m, r, b);
    var (f, w) := (Folded(back, m, r), Scale(2 * m, Add(z[..m], Scale(b, z[m..]))));
    RowsVal(f, m, r, t);
    assert f[..m] == f;
    CongVal(Vals(f, b), w, t, Mod(b, r));
    FoldedProduct(a, d, m, t);
  }

  lemma {:induction false} FoldedProduct(a: seq<int>, d: seq<int>, m: nat, t: int)
    requires |a| == |d| == m > 0
    ensures var z := Conv(a, d) + Zeros(1);
            Val(Scale(2 * m, Add(z[..m], Scale(Pow(t, m), z[m..]))), t) == (2 * m) * (Val(a, t) * Val(d, t))
  {
    var (z, b) := (Conv(a, d) + Zeros(1), Pow(t, m));
    ValScale(2 * m, Add(z[..m], Scale(b, z[m..])), t);
    ValAdd(z[..m], Scale(b, z[m..]), t);
    ValScale(b, z[m..], t);
    ValSplit(z, m, t);
    ValPad(Conv(a, d), 1, t);
    ValConv(a, d, t);
  }

  /** Nussbaumer's transform computes 2m times the negacyclic product. */
  lemma {:induction false} TransformedIsProduct(x: seq<int>, y: seq<int>, m: nat, r: nat)
    requires r > 0 && m > 0 && |x| == |y| == r * m > 0 && Distance(m, r, 2 * m)
    ensures Transformed(x, y, m, r) == Scale(2 * m, NegConv(x, y))
  {
    var (d, p) := (Transformed(x, y, m, r), Scale(2 * m, NegConv(x, y)));
    forall t | t >= 2 ensures Cong(Val(d, t), Val(p, t), Pow(t, |d|) + 1) {
      var (n, v) := (Pow(t, r * m) + 1, Val(x, t) * Val(y, t));
      TransformedVal(x, y, m, r, t);
      ValScale(2 * m, NegConv(x, y), t);
      NegConvVal(x, y, t);
      CongScale(2 * m, Val(NegConv(x, y), t), v, n);
      CongSym(Val(p, t), (2 * m) * v, n);
      CongTrans(Val(d, t), (2 * m) * v, Val(p, t), n);
    }
    NegUnique(d, p);
  }

  // ----- the in-place stages -----

  /** Replaces two rows by their sum and their difference. */
  method Butterfly(a: array<seq<int>>, s: nat, t: nat, r: nat)
    requires s < a.Length && t < a.Length && s != t && |a[s]| == |a[t]| == r
    modifies a
    ensures a[s] == old(Add(a[s], a[t])) && a[t] == old(Sub(a[s], a[t]))
    ensures forall p :: 0 <= p < a.Length && p != s && p != t ==> a[p] == old(a[p])
  {
    for g := 0 to r
      invariant |a[s]| == |a[t]| == r
      invariant forall h :: 0 <= h < g ==> a[s][h] == old(a[s][h] + a[t][h]) && a[t][h] == old(a[s][h] - a[t][h])
      invariant forall h :: g <= h < r ==> a[s][h] == old(a[s][h]) && a[t][h] == old(a[t][h])
      invariant forall p :: 0 <= p < a.Length && p != s && p != t ==> a[p] == old(a[p])
    {
      var (lo, hi) := (a[s][g], a[t][g]);
      a[s] := a[s][g := lo + hi];
      a[t] := a[t][g := lo - hi];
    }
    assert a[s] == old(Add(a[s], a[t])) && a[t] == old(Sub(a[s], a[t]));
  }

  /** The pairs that have been handled when the loops are at j and i. */
  ghost predicate Done(p: nat, k: nat, j: nat, i: nat)
    requires k > 0
  {
    var q := Lower(p, k);
    Off(q, 2 * k) < j || (Off(q, 2 * k) == j && q < i)
  }

  lemma {:induction false} DoneStep(p: nat, k: nat, j: nat, i: nat)
    requires k > 0 && j < k && Off(i, 2 * k) == j
    ensures Off(i + 2 * k, 2 * k) == j && Lower(i, k) == i && Lower(i + k, k) == i
    ensures Done(p, k, j, i + 2 * k) <==> Done(p, k, j, i) || p == i || p == i + k
    ensures !Done(i, k, j, i) && !Done(i + k, k, j, i)
  {
    OffAdd(i, k, 2 * k);
    var q := Lower(p, k);
    if Off(q, 2 * k) == j && i <= q < i + 2 * k {
      OffUnique(q, i, 2 * k);
    }
  }

  lemma {:induction false} DoneNext(p: nat, k: nat, j: nat, i: nat, size: nat)
    requires k > 0 && j < k && p < size <= i
    ensures Done(p, k, j, i) <==> Done(p, k, j + 1, j + 1)
  {
    var q := Lower(p, k);
    assert q <= p;
    OffLow(p, k);
    if Off(q, 2 * k) == j + 1 { assert q >= j + 1; }
  }

  /** The pairs that are done hold the rows of the stage, the others are untouched. */
  ghost predicate StageDone(cur: seq<seq<int>>, a: seq<seq<int>>, k: nat, v: int, r: nat, j: nat, i: nat)
    requires k > 0 && r > 0 && Pieces(a, r)
  {
    |cur| == |a| && forall p :: 0 <= p < |a| ==>
      cur[p] == if Done(p, k, j, i) then StageRow(a, k, v, r, p) else a[p]
  }

  /** One butterfly and one twist of the forward stage. */
  method ForwardPair(a: array<seq<int>>, ghost a0: seq<seq<int>>, k: nat, v: int, r: nat, j: nat, i: nat, u: int)
    requires k > 0 && r > 0 && Pieces(a0, r) && |a0| == a.Length && Off(a.Length, 2 * k) == 0
    requires j < k && i < a.Length && Off(i, 2 * k) == j && u == Steps(j, v)
    requires StageDone(a[..], a0, k, v, r, j, i)
    modifies a
    ensures StageDone(a[..], a0, k, v, r, j, i + 2 * k)
  {
    OffBlock(i, 2 * k, a.Length);
    DoneStep(i, k, j, i);
    DoneStep(i + k, k, j, i);
    OffAdd(i, k, 2 * k);
    assert a[..][i] == a0[i] && a[..][i + k] == a0[i + k];
    Butterfly(a, i, i + k, r);
    a[i + k] := Twist(a[i + k], r, u);
    ForwardPairRows(a0, k, v, r, i, u);
    StageDoneStep(old(a[..]), a[..], a0, k, v, r, j, i);
  }

  lemma {:induction false} StageDoneStep(cur: seq<seq<int>>, next: seq<seq<int>>, a: seq<seq<int>>, k: nat, v: int, r: nat,
                                       j: nat, i: nat)
    requires k > 0 && r > 0 && Pieces(a, r) && j < k && Off(i, 2 * k) == j && i + k < |a|
    requires StageDone(cur, a, k, v, r, j, i) && |next| == |a|
    requires next[i] == StageRow(a, k, v, r, i) && next[i + k] == StageRow(a, k, v, r, i + k)
    requires forall p :: 0 <= p < |a| && p != i && p != i + k ==> next[p] == cur[p]
    ensures StageDone(next, a, k, v, r, j, i + 2 * k)
  {
    forall p | 0 <= p < |a|
      ensures next[p] == if Done(p, k, j, i + 2 * k) then StageRow(a, k, v, r, p) else a[p]
    {
      DoneStep(p, k, j, i);
    }
  }

  lemma {:induction false} StageNext(cur: seq<seq<int>>, a: seq<seq<int>>, k: nat, v: int, r: nat, j: nat, i: nat)
    requires k > 0 && r > 0 && Pieces(a, r) && j < k && |a| <= i && StageDone(cur, a, k, v, r, j, i)
    ensures StageDone(cur, a, k, v, r, j + 1, j + 1)
    ensures j + 1 == k ==> cur == Stage(a, k, v, r)
  {
    forall p | 0 <= p < |a|
      ensures Done(p, k, j, i) <==> Done(p, k, j + 1, j + 1)
      ensures j + 1 == k ==> Done(p, k, k, k)
    {
      DoneNext(p, k, j, i, |a|);
      OffLow(p, k);
    }
  }

  /** The inner loop: the pairs at offset j of all blocks. */
  method ForwardStageRow(a: array<seq<int>>, ghost a0: seq<seq<int>>, k: nat, v: int, r: nat, j: nat, u: int)
    returns (ghost i: nat)
    requires k > 0 && r > 0 && Pieces(a0, r) && |a0| == a.Length && Off(a.Length, 2 * k) == 0
    requires j < k && u == Steps(j, v) && StageDone(a[..], a0, k, v, r, j, j)
    modifies a
    ensures i >= a.Length && StageDone(a[..], a0, k, v, r, j, i)
  {
    var i' := j;
    while i' < a.Length
      invariant i' >= j && Off(i', 2 * k) == j && StageDone(a[..], a0, k, v, r, j, i')
    {
      ForwardPair(a, a0, k, v, r, j, i', u);
      DoneStep(i', k, j, i');
      i' := i' + 2 * k;
    }
    i := i';
  }

  /** One forward stage on the rows of a. */
  method ForwardStage(a: array<seq<int>>, k: nat, v: int, r: nat)
    requires k > 0 && r > 0 && Pieces(a[..], r) && Off(a.Length, 2 * k) == 0
    modifies a
    ensures a[..] == Stage(old(a[..]), k, v, r)
  {
    ghost var a0 := a[..];
    var u := 0;
    for j := 0 to k
      invariant u == Steps(j, v) && StageDone(a[..], a0, k, v, r, j, j)
      invariant j == k ==> a[..] == Stage(a0, k, v, r)
    {
      ghost var i := ForwardStageRow(a, a0, k, v, r, j, u);
      StageNext(a[..], a0, k, v, r, j, i);
      assert Steps(j + 1, v) == Steps(j, v) + v;
      u := u + v;
    }
  }

  ghost predicate InvStageDone(cur: seq<seq<int>>, c: seq<seq<int>>, k: nat, v: int, r: nat, j: nat, i: nat)
    requires k > 0 && r > 0 && Pieces(c, r)
  {
    |cur| == |c| && forall p :: 0 <= p < |c| ==>
      cur[p] == if Done(p, k, j, i) then InvStageRow(c, k, v, r, p) else c[p]
  }

  method TwistThenButterfly(c: array<seq<int>>, s: nat, t: nat, r: nat, u: int)
    requires s < c.Length && t < c.Length && s != t && |c[s]| == |c[t]| == r > 0
    modifies c
    ensures c[s] == old(Add(c[s], Twist(c[t], r, u))) && c[t] == old(Sub(c[s], Twist(c[t], r, u)))
    ensures forall p :: 0 <= p < c.Length && p != s && p != t ==> c[p] == old(c[p])
  {
    c[t] := Twist(c[t], r, u);
    Butterfly(c, s, t, r);
  }

  /** One twist by -j * v (u is the running multiple of the negative step) and one butterfly. */
  method InversePair(c: array<seq<int>>, ghost c0: seq<seq<int>>, k: nat, ghost v: int, r: nat, j: nat, i: nat, u: int)
    requires k > 0 && r > 0 && Pieces(c0, r) && |c0| == c.Length && Off(c.Length, 2 * k) == 0
    requires j < k && i < c.Length && Off(i, 2 * k) == j && u == -Steps(j, v)
    requires InvStageDone(c[..], c0, k, v, r, j, i)
    modifies c
    ensures InvStageDone(c[..], c0, k, v, r, j, i + 2 * k)
  {
    PairUntouched(c[..], c0, k, v, r, j, i);
    TwistThenButterfly(c, i, i + k, r, u);
    InversePairRows(c0, k, v, r, i, u);
    InvStageDoneStep(old(c[..]), c[..], c0, k, v, r, j, i);
  }

  /** The pair at i has not been touched yet. */
  lemma {:induction false} PairUntouched(cur: seq<seq<int>>, c0: seq<seq<int>>, k: nat, v: int, r: nat, j: nat, i: nat)
    requires k > 0 && r > 0 && Pieces(c0, r) && Off(|c0|, 2 * k) == 0 && j < k && i < |c0| && Off(i, 2 * k) == j
    requires InvStageDone(cur, c0, k, v, r, j, i)
    ensures i + k < |c0| && cur[i] == c0[i] && cur[i + k] == c0[i + k]
  {
    OffBlock(i, 2 * k, |c0|);
    DoneStep(i, k, j, i);
    DoneStep(i + k, k, j, i);
    OffAdd(i, k, 2 * k);
  }

  lemma {:induction false} InvStageDoneStep(cur: seq<seq<int>>, next: seq<seq<int>>, a: seq<seq<int>>, k: nat, v: int, r: nat,
                                       j: nat, i: nat)
    requires k > 0 && r > 0 && Pieces(a, r) && j < k && Off(i, 2 * k) == j && i + k < |a|
    requires InvStageDone(cur, a, k, v, r, j, i) && |next| == |a|
    requires next[i] == InvStageRow(a, k, v, r, i) && next[i + k] == InvStageRow(a, k, v, r, i + k)
    requires forall p :: 0 <= p < |a| && p != i && p != i + k ==> next[p] == cur[p]
    ensures InvStageDone(next, a, k, v, r, j, i + 2 * k)
  {
    forall p | 0 <= p < |a|
      ensures next[p] == if Done(p, k, j, i + 2 * k) then InvStageRow(a, k, v, r, p) else a[p]
    {
      DoneStep(p, k, j, i);
    }
  }

  lemma {:induction false} InvStageNext(cur: seq<seq<int>>, c: seq<seq<int>>, k: nat, v: int, r: nat, j: nat, i: nat)
    requires k > 0 && r > 0 && Pieces(c, r) && j < k && |c| <= i && InvStageDone(cur, c, k, v, r, j, i)
    ensures InvStageDone(cur, c, k, v, r, j + 1, j + 1)
    ensures j + 1 == k ==> cur == InvStage(c, k, v, r)
  {
    forall p | 0 <= p < |c|
      ensures Done(p, k, j, i) <==> Done(p, k, j + 1, j + 1)
      ensures j + 1 == k ==> Done(p, k, k, k)
    {
      DoneNext(p, k, j, i, |c|);
      OffLow(p, k);
    }
  }

  /** The inner loop: the pairs at offset j of all blocks. */
  method InverseStageRow(c: array<seq<int>>, ghost c0: seq<seq<int>>, k: nat, ghost v: int, r: nat, j: nat, u: int)
    returns (ghost i: nat)
    requires k > 0 && r > 0 && Pieces(c0, r) && |c0| == c.Length && Off(c.Length, 2 * k) == 0
    requires j < k && u == -Steps(j, v) && InvStageDone(c[..], c0, k, v, r, j, j)
    modifies c
    ensures i >= c.Length && InvStageDone(c[..], c0, k, v, r, j, i)
  {
    var i' := j;
    while i' < c.Length
      invariant i' >= j && Off(i', 2 * k) == j && InvStageDone(c[..], c0, k, v, r, j, i')
    {
      InversePair(c, c0, k, v, r, j, i', u);
      DoneStep(i', k, j, i');
      i' := i' + 2 * k;
    }
    i := i';
  }

  /** One inverse stage on the rows of c; v is the negated step of the forward stage. */
  method InverseStage(c: array<seq<int>>, k: nat, v: int, ghost step: nat, r: nat)
    requires k > 0 && r > 0 && Pieces(c[..], r) && Off(c.Length, 2 * k) == 0 && v == 0 - step
    modifies c
    ensures c[..] == InvStage(old(c[..]), k, step, r)
  {
    ghost var c0 := c[..];
    var u := 0;
    for j := 0 to k
      invariant u == -Steps(j, step) && InvStageDone(c[..], c0, k, step, r, j, j)
      invariant j == k ==> c[..] == InvStage(c0, k, step, r)
    {
      ghost var i := InverseStageRow(c, c0, k, step, r, j, u);
      InvStageNext(c[..], c0, k, step, r, j, i);
      assert Steps(j + 1, step) == Steps(j, step) + step;
      u := u + v;
    }
  }

  // ----- sizes -----

  lemma {:induction false} OffMultiple(len: nat, q: nat)
    requires len > 0
    ensures Off(len * q, len) == 0
  {
    if q > 0 {
      Distrib(len, q - 1, 1);
      MulMono(len, 0, q - 1);
      OffMultiple(len, q - 1);
    }
  }

  /** n = 2^p is cut into m = 2^h rows of r = 2^(h + t) terms, where p = 2h + t. */
  lemma {:induction false} Sizes(h: nat, t: nat)
    requires Pow(2, h + h + t) > 8 && t <= 1
    ensures Pow(2, h) > 0 && Pow(2, t) > 0 && PowerOfTwo(Pow(2, h + t))
    ensures Pow(2, h + h + t) == Pow(2, h) * Pow(2, h + t) && Pow(2, h + t) == Pow(2, h) * Pow(2, t)
    ensures Pow(2, h + t) < Pow(2, h + h + t)
  {
    assert Pow(2, 0) == 1 && Pow(2, 1) == 2 * Pow(2, 0);
    PowPos(2, h);
    PowPos(2, t);
    PowAdd(2, h, h + t);
    PowAdd(2, h, t);
    PowIsPowerOfTwo(h + t);
    if h > 0 {
      PowPos(2, h - 1);
      MulMono(Pow(2, h + t), 2, Pow(2, h));
    }
  }

  // ----- the multiplication routines -----

  function ShiftRight(n: nat, xlst: seq<int>): (z: seq<int>)
    ensures |z| == |xlst|
  {
    PowPos(2, n);
    seq(|xlst|, i requires 0 <= i < |xlst| => xlst[i] / Pow(2, n))
  }

  /** Nothing is lost by the shift. */
  lemma {:induction false} ShiftExact(n: nat, w: seq<int>)
    ensures ShiftRight(n, Scale(Pow(2, n), w)) == w
  {
    PowPos(2, n);
    forall i | 0 <= i < |w| ensures (Pow(2, n) * w[i]) / Pow(2, n) == w[i] {
      DivUnique(Pow(2, n) * w[i], Pow(2, n), w[i], 0);
    }
  }

  method Fold(x: seq<int>, y: seq<int>, R: int) returns (temp: seq<int>)
    requires |x| == |y| > 0
    ensures temp == Conv(x, y)
  {
    if |x| == 8 {
      temp := KMul8x8l(x, y);
    } else if |x| == 4 {
      temp := KMul4x4s(x, y);
    } else {
      temp := KMult(x, y, R);
    }
  }

  /** The upper part of the full product is added to the lower one. */
  method CycLit(x: seq<int>, y: seq<int>, R: int) returns (res: seq<int>)
    requires |x| == |y| > 0
    ensures res == CycConv(x, y)
  {
    var n := |x|;
    var temp := Fold(x, y, R);
    res := temp[..n];
    res := Add(res[..n - 1], temp[n..]) + res[n - 1..];
    DotOutside(x, y, 2 * n - 1);
  }

  method NegLit(x: seq<int>, y: seq<int>, R: int) returns (res: seq<int>)
    requires |x| == |y| > 0
    ensures res == NegConv(x, y)
  {
    var n := |x|;
    var temp := Fold(x, y, R);
    res := temp[..n];
    res := Sub(res[..n - 1], temp[n..]) + res[n - 1..];
    DotOutside(x, y, 2 * n - 1);
  }

  method ToArray(rows: seq<seq<int>>) returns (a: array<seq<int>>)
    ensures fresh(a) && a[..] == rows
  {
    a := new seq<int>[|rows|](i requires 0 <= i < |rows| => rows[i]);
  }

  /** Adds one row to another. */
  method AddRow(c: array<seq<int>>, s: nat, t: nat, r: nat)
    requires s < c.Length && t < c.Length && s != t && |c[s]| == |c[t]| == r
    modifies c
    ensures c[s] == old(Add(c[s], c[t]))
    ensures forall p :: 0 <= p < c.Length && p != s ==> c[p] == old(c[p])
  {
    for g := 0 to r
      invariant |c[s]| == r
      invariant forall h :: 0 <= h < g ==> c[s][h] == old(c[s][h] + c[t][h])
      invariant forall h :: g <= h < r ==> c[s][h] == old(c[s][h])
      invariant forall p :: 0 <= p < c.Length && p != s ==> c[p] == old(c[p])
    {
      c[s] := c[s][g := c[s][g] + c[t][g]];
    }
    assert c[s] == old(Add(c[s], c[t]));
  }

  /** Row k - 1 is the last one that has been folded. */
  ghost predicate FoldedTo(cur: seq<seq<int>>, c: seq<seq<int>>, m: nat, r: nat, k: nat)
    requires r > 0 && |c| == 2 * m && Pieces(c, r)
  {
    |cur| == |c| && forall p :: 0 <= p < 2 * m ==>
      cur[p] == if p < k && p < m then FoldedRow(c, m, r, p)
                else if m <= p < k + m then Twist(c[p], r, 1) else c[p]
  }

  method FoldRows(c: array<seq<int>>, m: nat, r: nat)
    requires r > 0 && m > 0 && c.Length == 2 * m && Pieces(c[..], r)
    modifies c
    ensures Pieces(c[..], r) && c[..m] == Folded(old(c[..]), m, r)
  {
    ghost var c0 := c[..];
    for k := 0 to m - 1
      invariant FoldedTo(c[..], c0, m, r, k)
    {
      FoldOne(c, c0, m, r, k);
    }
    assert c[..][m - 1] == c0[m - 1];
  }

  method FoldOne(c: array<seq<int>>, ghost c0: seq<seq<int>>, m: nat, r: nat, k: nat)
    requires r > 0 && |c0| == c.Length == 2 * m && Pieces(c0, r) && k < m - 1
    requires FoldedTo(c[..], c0, m, r, k)
    modifies c
    ensures FoldedTo(c[..], c0, m, r, k + 1)
  {
    assert c[..][k] == c0[k] && c[..][k + m] == c0[k + m];
    c[k + m] := Twist(c[k + m], r, 1);
    AddRow(c, k, k + m, r);
    FoldedToStep(old(c[..]), c[..], c0, m, r, k);
  }

  lemma {:induction false} FoldedToStep(cur: seq<seq<int>>, next: seq<seq<int>>, c: seq<seq<int>>, m: nat, r: nat, k: nat)
    requires r > 0 && |c| == 2 * m && Pieces(c, r) && k < m - 1 && FoldedTo(cur, c, m, r, k) && |next| == |c|
    requires next[k] == FoldedRow(c, m, r, k) && next[k + m] == Twist(c[k + m], r, 1)
    requires forall p :: 0 <= p < 2 * m && p != k && p != k + m ==> next[p] == cur[p]
    ensures FoldedTo(next, c, m, r, k + 1)
  {}

  /** The step of the twists at distance k, and its negation. */
  method StepSize(wm: nat, k: nat) returns (v: nat)
    requires k > 0
    ensures v == Quot(wm, k)
  {
    QuotExact(wm, k);
    v := wm / k;
  }

  method NegStepSize(wm: nat, k: nat) returns (v: int, ghost step: nat)
    requires k > 0 && Off(wm, k) == 0
    ensures step == Quot(wm, k) && v == 0 - step
  {
    QuotExact(wm, k);
    step := Quot(wm, k);
    var neg: int := 0 - (wm as int);
    DivUnique(neg, k, 0 - Quot(wm, k), 0);
    v := neg / k;
  }

  /** Every power of two up to m is a distance of the transform. */
  lemma {:induction false} DistanceDown(j: nat, e: nat, r: nat)
    requires j <= e && Pow(2, e) > 0 && Off(r, Pow(2, e)) == 0
    ensures Pow(2, j) > 0 && Distance(Pow(2, j), r, 2 * Pow(2, e))
    decreases e - j
  {
    OffPower(j, e, r);
    OffPower(j + 1, e + 1, 2 * Pow(2, e));
    PowIsPowerOfTwo(j);
  }

  lemma {:induction false} OffPower(j: nat, e: nat, r: nat)
    requires j <= e && Pow(2, e) > 0 && Off(r, Pow(2, e)) == 0
    ensures Pow(2, j) > 0 && Off(r, Pow(2, j)) == 0
    decreases e
  {
    if j < e {
      PowPos(2, e - 1);
      OffHalf(r, Pow(2, e - 1));
      OffPower(j, e - 1, r);
    }
  }

  /** The forward stages; d = 1, ..., k = m, m/2, ..., 1 as long as k > 0. */
  method ForwardAll(a: array<seq<int>>, m: nat, wm: nat, r: nat, ghost e: nat)
    requires wm == r > 0 && m == Pow(2, e) > 0 && Off(r, m) == 0
    requires a.Length == 2 * m && Pieces(a[..], r)
    modifies a
    ensures Pieces(a[..], r) && a[..] == Forward(old(a[..]), m, r)
  {
    ghost var a0 := a[..];
    DistanceDown(e, e, r);
    var k := m;
    while k > 0
      invariant Distance(k, r, 2 * m) && Pieces(a[..], r) && Forward(a[..], k, r) == Forward(a0, m, r)
    {
      NextDistance(k, r, 2 * m);
      var v := StepSize(wm, k);
      ForwardStage(a, k, v, r);
      k := k / 2;
    }
  }

  /** The inverse stages with distances 1, 2, ..., m. */
  method InverseAll(c: array<seq<int>>, m: nat, wm: nat, r: nat, ghost e: nat)
    requires wm == r > 0 && m == Pow(2, e) > 0 && Off(r, m) == 0
    requires c.Length == 2 * m && Pieces(c[..], r)
    modifies c
    ensures Pieces(c[..], r) && c[..] == Backward(old(c[..]), m, r)
  {
    ghost var (c0, j) := (c[..], 0);
    var k := 1;
    PowMono(2, 0, e);
    while k < 2 * m
      invariant j <= e + 1 && k == Pow(2, j) > 0 && (k < 2 * m ==> j <= e) && (j > e ==> k == 2 * m)
      invariant Pieces(c[..], r) && c[..] == Backward(c0, k / 2, r)
      decreases e + 1 - j
    {
      InverseStep(c, c0, k, m, wm, r, j, e);
      j := j + 1;
      k := k * 2;
      HalfOfDouble(c0, k, r);
      PowMono(2, j, if j <= e then e else e + 1);
    }
    if j <= e { PowMono(2, j, e); }
    HalfOfDouble(c0, k, r);
  }

  lemma {:induction false} HalfOfDouble(c: seq<seq<int>>, k: nat, r: nat)
    requires r > 0 && Pieces(c, r)
    ensures forall h: nat :: k == 2 * h ==> Backward(c, k / 2, r) == Backward(c, h, r)
  {
    forall h: nat | k == 2 * h ensures k / 2 == h {}
  }

  method InverseStep(c: array<seq<int>>, ghost c0: seq<seq<int>>, k: nat, m: nat, wm: nat, r: nat,
                     ghost j: nat, ghost e: nat)
    requires wm == r > 0 && m == Pow(2, e) > 0 && Off(r, m) == 0 && j <= e && k == Pow(2, j) > 0
    requires |c0| == c.Length == 2 * m && Pieces(c0, r) && c[..] == Backward(c0, k / 2, r)
    modifies c
    ensures c[..] == Backward(c0, k, r)
  {
    DistanceDown(j, e, r);
    var v: int;
    ghost var step: nat;
    v, step := NegStepSize(wm, k);
    InverseStage(c, k, v, step, r);
  }

  /** Recursive negacyclic convolution. */
  method Neg(x: seq<int>, y: seq<int>, R: int) returns (z: seq<int>)
    requires |x| == |y| > 0
    requires |x| > 8 ==> PowerOfTwo(|x|)  // asserted by the source
    ensures z == NegConv(x, y)
    decreases |x|, 2
  {
    var n := |x|;
    if n <= 8 {
      z := NegLit(x, y, R);
      return;
    }
    var pow := Log2(n);
    assert Pow(2, pow) == n;
    var m, r, wm := RowSizes(n, pow);
    z := NegTransform(x, y, m, wm, r, R, pow / 2);
  }

  /** The number of rows, their length, and the step at distance one, for a length that is a power of two. */
  method RowSizes(n: nat, pow: nat) returns (m: nat, r: nat, wm: nat)
    requires n == Pow(2, pow) && n > 8
    ensures m == Pow(2, pow / 2) > 0 && r * m == n && 0 < r < n && PowerOfTwo(r)
    ensures wm == r && Off(r, m) == 0
  {
    ghost var (h, t) := (pow / 2, pow % 2);
    Sizes(h, t);
    m := Pow(2, pow / 2);
    r := DivideExactly(n, m, Pow(2, h + t));
    var w := DivideExactly(r, m, Pow(2, t));
    MulPos(Pow(2, t), m);
    wm := w * m;
    OffMultiple(m, w);
  }

  method DivideExactly(n: nat, m: nat, ghost q: nat) returns (d: nat)
    requires m > 0 && n == m * q
    ensures d == q
  {
    DivUnique(n, m, q, 0);
    d := n / m;
  }

  method NegTransform(x: seq<int>, y: seq<int>, m: nat, wm: nat, r: nat, R: int, e: nat) returns (z: seq<int>)
    requires |x| == |y| == r * m && 0 < r < |x| && PowerOfTwo(r) && m == Pow(2, e) && m > 0
    requires Off(r, m) == 0 && wm == r
    ensures z == NegConv(x, y)
    decreases |x|, 1, 0
  {
    var d := Transform(x, y, m, wm, r, R, e);
    DistanceDown(e, e, r);
    TransformedIsProduct(x, y, m, r);
    ShiftExact(1 + e, NegConv(x, y));
    z := ShiftRight(1 + e, d);
  }

  /** Forward transforms, recursion on the rows, inverse transform, and folding. */
  method Transform(x: seq<int>, y: seq<int>, m: nat, wm: nat, r: nat, R: int, ghost e: nat) returns (d: seq<int>)
    requires |x| == |y| == r * m && 0 < r < |x| && PowerOfTwo(r) && m == Pow(2, e) && m > 0
    requires Off(r, m) == 0 && wm == r
    ensures d == Transformed(x, y, m, r)
    decreases |x|, 0
  {
    var a := ToArray(MakePoly(x, r, m));
    var b := ToArray(MakePoly(y, r, m));
    ForwardAll(a, m, wm, r, e);
    ForwardAll(b, m, wm, r, e);
    var c := NegRows(a, b, r, R);
    InverseAll(c, m, wm, r, e);
    FoldRows(c, m, r);
    d := UnPoly(c[..], r, m);
    ColsFirst(c[..], m, r, r);
  }

  /** The negacyclic products of the rows of a and b. */
  method NegRows(a: array<seq<int>>, b: array<seq<int>>, r: nat, R: int) returns (c: array<seq<int>>)
    requires a.Length == b.Length && r > 0 && Pieces(a[..], r) && Pieces(b[..], r) && PowerOfTwo(r)
    ensures fresh(c) && c[..] == Pointwise(a[..], b[..], r)
    decreases r, 3
  {
    c := new seq<int>[a.Length];
    for i := 0 to a.Length
      invariant c[..i] == Pointwise(a[..], b[..], r)[..i]
    {
      assert |a[..][i]| == |b[..][i]| == r;
      c[i] := Neg(a[i], b[i], R);
    }
  }

  lemma {:induction false} ColsFirst(c: seq<seq<int>>, m: nat, r: nat, i: nat)
    requires m <= |c| && Pieces(c, r) && i <= r
    ensures Cols(c, m, r, i) == Cols(c[..m], m, r, i)
  {
    if i > 0 {
      ColsFirst(c, m, r, i - 1);
      assert Heads(c, m, r, i - 1) == Heads(c[..m], m, r, i - 1);
    }
  }
}
