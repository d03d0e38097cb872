/**
  kdiv: division whose products quotient digit * divisor digit are subtracted late and in
  blocks. Every quotient digit has a threshold, the lowest position of the dividend from which
  its products have already been subtracted; the schedule moves the thresholds down block by
  block until nothing is left, and no product is subtracted twice.
*/
module FastDivision {
  import opened Arith
  import opened Poly
  import opened Modular
  import opened Division
  import opened FastMultiply
  import opened Radix

  // ----- powers of two in the number of quotient digits -----

  /** The highest power of two that divides n. */
  function PowerIn(n: nat): (p: nat)
    ensures p >= 1
    ensures n >= 1 ==> p <= n
  {
    if n > 1 && n % 2 == 0 then 2 * PowerIn(n / 2) else 1
  }

  /** It is a power of two, and what is left of n is odd. */
  lemma {:induction false} PowerInMeans(n: nat) returns (m: nat)
    requires n >= 1
    ensures PowerOfTwo(PowerIn(n)) && n == PowerIn(n) * m && m % 2 == 1
  {
    if n > 1 && n % 2 == 0 {
      m := PowerInMeans(n / 2);
      assert (2 * PowerIn(n / 2)) / 2 == PowerIn(n / 2);
      Assoc(2, PowerIn(n / 2), m);
    } else {
      m := n;
    }
  }

  method First2Power(n: nat) returns (res: nat)
    ensures res == PowerIn(n)
    ensures n >= 1 ==> PowerOfTwo(res) && exists m :: m % 2 == 1 && n == res * m
  {
    if n >= 1 { ghost var m := PowerInMeans(n); }
    res := 1;
    var m := n;
    while m > 1 && m % 2 == 0
      invariant m >= 0 && res * PowerIn(m) == PowerIn(n)
    {
      Assoc(res, 2, PowerIn(m / 2));
      res, m := res * 2, m / 2;
    }
    assert res * 1 == res;
  }

  /** The powers of two that n * power is the sum of, in increasing order. */
  function PowersIn(n: nat, power: nat): seq<nat>
    decreases n
  {
    if n == 0 then [] else (if n % 2 == 1 then [power] else []) + PowersIn(n / 2, 2 * power)
  }

  method All2Power(n: nat) returns (res: seq<nat>)
    ensures res == PowersIn(n, 1)
    ensures Sum(res) == n && BitList(res, 1)
  {
    PowersInMeans(n, 1);
    res := [];
    var power, m := 1, n;
    while m != 0
      invariant m >= 0 && power >= 1 && res + PowersIn(m, power) == PowersIn(n, 1)
      decreases m
    {
      ghost var rest := PowersIn(m / 2, 2 * power);
      PrependBit(res, power, rest);
      if m % 2 == 1 {
        res := res + [power];
      }
      power, m := 2 * power, m / 2;
    }
    assert res + [] == res;
  }

  lemma {:induction false} PrependBit(res: seq<nat>, power: nat, rest: seq<nat>)
    ensures res + ([power] + rest) == (res + [power]) + rest
    ensures res + ([] + rest) == res + rest
  {
    assert [] + rest == rest;
  }

  ghost function Sum(s: seq<nat>): nat {
    if s == [] then 0 else s[0] + Sum(s[1..])
  }

  /** Powers of two, each larger than the one before, and none smaller than g. */
  ghost predicate BitList(blocks: seq<nat>, g: nat) {
    blocks == [] || (blocks[0] >= g && PowerOfTwo(blocks[0]) && BitList(blocks[1..], 2 * blocks[0]))
  }

  /** Different powers of two in increasing order, with the number as their sum. */
  lemma {:induction false} PowersInMeans(n: nat, power: nat)
    requires PowerOfTwo(power)
    ensures Sum(PowersIn(n, power)) == power * n && BitList(PowersIn(n, power), power)
    decreases n
  {
    if n != 0 {
      assert (2 * power) / 2 == power;
      PowersInMeans(n / 2, 2 * power);
      BitSum(n, power);
      PrependPower(power, PowersIn(n / 2, 2 * power));
    }
  }

  lemma {:induction false} PrependPower(p: nat, rest: seq<nat>)
    requires p >= 1 && PowerOfTwo(p) && BitList(rest, 2 * p)
    ensures BitList([p] + rest, p) && BitList([] + rest, p)
    ensures Sum([p] + rest) == p + Sum(rest) && Sum([] + rest) == Sum(rest)
  {
    assert ([p] + rest)[1..] == rest && [] + rest == rest;
  }

  ghost predicate AllBlocks(s: seq<nat>) {
    forall i :: 0 <= i < |s| ==> s[i] >= 8 && PowerOfTwo(s[i])
  }

  lemma {:induction false} PowersInSum(n: nat, power: nat)
    requires power >= 8 && PowerOfTwo(power)
    ensures AllBlocks(PowersIn(n, power)) && Sum(PowersIn(n, power)) == power * n
    decreases n
  {
    if n != 0 {
      PowersInSum(n / 2, 2 * power);
      BitSum(n, power);
      AddBlock(power, PowersIn(n / 2, 2 * power));
    }
  }

  lemma {:induction false} AddBlock(p: nat, rest: seq<nat>)
    requires p >= 8 && PowerOfTwo(p) && AllBlocks(rest)
    ensures AllBlocks([p] + rest) && Sum([p] + rest) == p + Sum(rest) && [] + rest == rest
  {
    assert ([p] + rest)[1..] == rest;
  }

  lemma {:induction false} BitSum(n: nat, power: nat)
    ensures power * n == (if n % 2 == 1 then power else 0) + (2 * power) * (n / 2)
  {
    var (h, b) := (n / 2, n % 2);
    Distrib(power, 2 * h, b);
    Assoc(power, 2, h);
  }

  /** all2power(8 * m): blocks of at least eight digits that add up to 8 * m. */
  lemma {:induction false} BlocksOfEight(m: nat)
    ensures AllBlocks(PowersIn(8 * m, 1)) && Sum(PowersIn(8 * m, 1)) == 8 * m
  {
    if m != 0 {
      assert (8 * m) / 2 == 4 * m && (4 * m) / 2 == 2 * m && (2 * m) / 2 == m;
      Double(4 * m, 1); Double(2 * m, 2); Double(m, 4);
    }
    assert PowerOfTwo(1) && PowerOfTwo(2) && PowerOfTwo(4) && PowerOfTwo(8);
    PowersInSum(m, 8);
  }

  lemma {:induction false} Double(n: nat, power: nat)
    requires n != 0
    ensures PowersIn(2 * n, power) == PowersIn(n, 2 * power)
  {
    assert (2 * n) / 2 == n;
  }

  lemma {:induction false} PowerInItself(p: nat)
    requires PowerOfTwo(p)
    ensures PowerIn(p) == p
  {
    if p > 1 { PowerInItself(p / 2); }
  }

  /** n is a multiple of the power of two g. */
  ghost predicate Multiple(n: nat, g: nat) {
    n == 0 || PowerIn(n) >= g
  }

  /** A counter of n digits, and what g more digits do to its lowest power of two. */
  lemma {:induction false} NextPower(n: nat, g: nat)
    requires PowerOfTwo(g) && Multiple(n, g)
    ensures n == 0 || PowerIn(n) > g ==> PowerIn(n + g) == g
    ensures n != 0 && PowerIn(n) == g ==> n >= g && PowerOfTwo(2 * g) && Multiple(n - g, 2 * g)
    ensures Multiple(n + g, g)
    decreases g
  {
    if n == 0 {
      PowerInItself(g);
    } else if g > 1 {
      NextPower(n / 2, g / 2);
      assert (2 * g) / 2 == g && (n + g) / 2 == n / 2 + g / 2;
      if PowerIn(n) == g { assert (n - g) / 2 == n / 2 - g / 2; }
    }
  }

  // ----- the schedule -----

  ghost function Fill(n: nat, D: int): (s: seq<int>)
    ensures |s| == n
  {
    seq(n, _ => D)
  }

  /**
    The thresholds of the pending digits, latest digit first, when the top of the dividend is c:
    a block of b digits that was finished when the top was c' has all its products from position
    c' - b upwards subtracted.
  */
  ghost function Thresholds(blocks: seq<nat>, c: int): (s: seq<int>)
    ensures |s| == Sum(blocks)
  {
    if blocks == [] then [] else Fill(blocks[0], c - blocks[0]) + Thresholds(blocks[1..], c + blocks[0])
  }

  /** The blocks after g more digits: binary addition of g to the number of digits. */
  ghost function Carry(blocks: seq<nat>, g: nat): (r: seq<nat>)
    ensures r != [] && Sum(r) == Sum(blocks) + g && r[0] >= g
  {
    if blocks != [] && blocks[0] == g then Carry(blocks[1..], 2 * g)
    else
      assert ([g] + blocks)[1..] == blocks;
      [g] + blocks
  }

  lemma {:induction false} CarryBits(blocks: seq<nat>, g: nat)
    requires PowerOfTwo(g) && BitList(blocks, g)
    ensures BitList(Carry(blocks, g), g)
  {
    if blocks != [] && blocks[0] == g {
      assert (2 * g) / 2 == g;
      CarryBits(blocks[1..], 2 * g);
    } else {
      assert ([g] + blocks)[1..] == blocks;
      if blocks != [] { Apart(g, blocks[0]); }
    }
  }

  lemma {:induction false} Apart(p: nat, q: nat)
    requires PowerOfTwo(p) && PowerOfTwo(q) && p < q
    ensures 2 * p <= q
  {
    if p > 1 { Apart(p / 2, q / 2); }
  }

  /**
    After g more digits with threshold c, all blocks that the carry joins have this threshold
    too: this is what makes one product per block possible.
  */
  lemma {:induction false} CarryThresholds(blocks: seq<nat>, c: int, g: nat)
    requires BitList(blocks, g)
    ensures var r := Carry(blocks, g);
            Fill(g, c) + Thresholds(blocks, c + g) == Fill(r[0], c) + Thresholds(r[1..], c + r[0])
  {
    if blocks != [] && blocks[0] == g {
      CarryThresholds(blocks[1..], c, 2 * g);
      JoinBlocks(g, c, Thresholds(blocks[1..], c + 2 * g));
    } else {
      assert ([g] + blocks)[1..] == blocks;
    }
  }

  lemma {:induction false} JoinBlocks(g: nat, c: int, older: seq<int>)
    ensures Fill(g, c) + (Fill(g, c) + older) == Fill(2 * g, c) + older
  {}

  /** The latest block is the lowest power of two in the number of digits. */
  lemma {:induction false} LatestBlock(blocks: seq<nat>, g: nat)
    requires PowerOfTwo(g) && BitList(blocks, g)
    ensures Multiple(Sum(blocks), g)
    ensures blocks != [] ==> PowerIn(Sum(blocks)) == blocks[0]
  {
    if blocks != [] {
      assert (2 * blocks[0]) / 2 == blocks[0];
      LatestBlock(blocks[1..], 2 * blocks[0]);
      NextPower(Sum(blocks[1..]), blocks[0]);
    }
  }

  // ----- what is still to be subtracted -----

  /** The value of the terms of y below position k. */
  ghost function Low(y: seq<int>, k: int, R: int): int {
    Val(y[..if k < 0 then 0 else if k > |y| then |y| else k], R)
  }

  /**
    The products that are still to be subtracted, when the digits rq (latest first) are aligned
    with the divisor from position s on, and digit i has threshold pend[i].
  */
  ghost function Unsubtracted(rq: seq<int>, pend: seq<int>, y: seq<int>, s: int, R: int): int
    requires |rq| == |pend|
  {
    if rq == [] then 0
    else rq[0] * Low(y, pend[0] - s, R) + R * Unsubtracted(rq[1..], pend[1..], y, s + 1, R)
  }

  lemma {:induction false} LowSplit(y: seq<int>, j: int, k: int, R: int)
    requires 0 <= j <= k <= |y|
    ensures Low(y, k, R) == Low(y, j, R) + Pow(R, j) * Val(y[j..k], R)
  {
    ValSplit(y[..k], j, R);
    assert y[..k][..j] == y[..j] && y[..k][j..] == y[j..k];
  }

  lemma {:induction false} LowAll(y: seq<int>, k: int, R: int)
    ensures k >= |y| ==> Low(y, k, R) == Val(y, R)
    ensures k <= 0 ==> Low(y, k, R) == 0
  {
    assert y[..|y|] == y;
  }

  /** With one common threshold, the unsubtracted products are the low terms of the convolution. */
  lemma {:induction false} UnsubtractedLow(rq: seq<int>, y: seq<int>, D: int, s: int, R: int)
    requires rq != [] && y != []
    ensures Unsubtracted(rq, Fill(|rq|, D), y, s, R) == Low(Conv(rq, y), D - s, R)
  {
    var k := D - s;
    if |rq| == 1 {
      ConvSingle(rq[0], y);
      assert rq == [rq[0]];
      LowScale(rq[0], y, k, R);
      assert Unsubtracted(rq[1..], Fill(1, D)[1..], y, s + 1, R) == 0;
    } else {
      var rest := Conv(rq[1..], y);
      UnsubtractedLow(rq[1..], y, D, s + 1, R);
      assert Fill(|rq|, D)[1..] == Fill(|rq| - 1, D);
      ConvCons(rq, y);
      LowAdd(Scale(rq[0], y) + Zeros(|rq| - 1), [0] + rest, k, R);
      LowPad(Scale(rq[0], y), |rq| - 1, k, R);
      LowScale(rq[0], y, k, R);
      LowShift(rest, k, R);
    }
  }

  lemma {:induction false} LowAdd(x: seq<int>, y: seq<int>, k: int, R: int)
    requires |x| == |y|
    ensures Low(Add(x, y), k, R) == Low(x, k, R) + Low(y, k, R)
  {
    var j := if k < 0 then 0 else if k > |x| then |x| else k;
    assert Add(x, y)[..j] == Add(x[..j], y[..j]);
    ValAdd(x[..j], y[..j], R);
  }

  lemma {:induction false} LowScale(n: int, x: seq<int>, k: int, R: int)
    ensures Low(Scale(n, x), k, R) == n * Low(x, k, R)
  {
    var j := if k < 0 then 0 else if k > |x| then |x| else k;
    assert Scale(n, x)[..j] == Scale(n, x[..j]);
    ValScale(n, x[..j], R);
  }

  lemma {:induction false} LowPad(x: seq<int>, n: nat, k: int, R: int)
    ensures Low(x + Zeros(n), k, R) == Low(x, k, R)
  {
    if k <= |x| {
      assert k >= 0 ==> (x + Zeros(n))[..k] == x[..k];
      LowAll(x, k, R);
      LowAll(x + Zeros(n), k, R);
    } else {
      var j := if k > |x| + n then n else k - |x|;
      assert (x + Zeros(n))[..|x| + j] == x + Zeros(j);
      ValPad(x, j, R);
      LowAll(x, k, R);
    }
  }

  lemma {:induction false} LowShift(x: seq<int>, k: int, R: int)
    ensures Low([0] + x, k, R) == R * Low(x, k - 1, R)
  {
    if k <= 0 {
      LowAll([0] + x, k, R);
      LowAll(x, k - 1, R);
    } else {
      var j := if k > |x| + 1 then |x| else k - 1;
      assert ([0] + x)[..j + 1] == [0] + x[..j];
      assert ([0] + x[..j])[1..] == x[..j];
    }
  }

  lemma {:induction false} UnsubtractedSplit(rq: seq<int>, pend: seq<int>, y: seq<int>, s: int, R: int, b: nat)
    requires |rq| == |pend| && b <= |rq|
    ensures Unsubtracted(rq, pend, y, s, R) ==
      Unsubtracted(rq[..b], pend[..b], y, s, R) + Pow(R, b) * Unsubtracted(rq[b..], pend[b..], y, s + b, R)
  {
    if b == 0 {
      assert rq[0..] == rq && pend[0..] == pend;
    } else {
      UnsubtractedSplit(rq[1..], pend[1..], y, s + 1, R, b - 1);
      assert rq[1..][b - 1..] == rq[b..] && pend[1..][b - 1..] == pend[b..];
      assert rq[..b][1..] == rq[1..][..b - 1] && pend[..b][1..] == pend[1..][..b - 1];
      var u, v := Unsubtracted(rq[..b][1..], pend[..b][1..], y, s + 1, R), Unsubtracted(rq[b..], pend[b..], y, s + b, R);
      Distrib(R, u, Pow(R, b - 1) * v);
      Assoc(R, Pow(R, b - 1), v);
    }
  }

  // ----- steps of the division -----

  /**
    The state of kdiv: x is what is left in r plus the quotient digits found so far times the
    divisor, less the products of the latest |pend| digits that are still to be subtracted.
  */
  ghost predicate Deferred(x: seq<int>, y: seq<int>, r: seq<int>, q: seq<int>, pend: seq<int>, R: int) {
    && |r| + 1 >= |y| && |pend| <= |q|
    && var s := |r| + 1 - |y|;
       Val(x, R) == Val(r, R) + Pow(R, s) *
         (Val(Reverse(q), R) * Val(y, R) - Unsubtracted(Reverse(q)[..|pend|], pend, y, s, R))
  }

  /**
    A quotient digit d, whatever it is: its products with the top terms of the divisor, from
    position |r| - n upwards, are subtracted and the top of r is folded.
  */
  lemma {:induction false} DigitStep(x: seq<int>, y: seq<int>, r: seq<int>, q: seq<int>, pend: seq<int>,
                                     d: int, n: nat, m: nat, R: int)
    requires |r| >= |y| >= 2 && n >= 2 && m == (if n < |y| then n else |y|) && Deferred(x, y, r, q, pend, R)
    ensures Deferred(x, y, FoldTop(AddAt(r, |r| - m, Scale(-d, y[|y| - m..])), R), q + [d], [|r| - n] + pend, R)
  {
    ReverseAppend(q, d);
    DigitValue(Reverse(q), pend, y, r, d, n, m, R);
    assert |[|r| - n] + pend| == |pend| + 1;
  }

  lemma {:induction false} DigitValue(rq: seq<int>, pend: seq<int>, y: seq<int>, r: seq<int>,
                                      d: int, n: nat, m: nat, R: int)
    requires |r| >= |y| >= 2 && n >= 2 && m == (if n < |y| then n else |y|) && |pend| <= |rq|
    ensures var (s, r') := (|r| - |y|, FoldTop(AddAt(r, |r| - m, Scale(-d, y[|y| - m..])), R));
            var (rq', pend') := ([d] + rq, [|r| - n] + pend);
            Val(r, R) + Pow(R, s + 1) * (Val(rq, R) * Val(y, R) - Unsubtracted(rq[..|pend|], pend, y, s + 1, R))
              == Val(r', R) + Pow(R, s) * (Val(rq', R) * Val(y, R) - Unsubtracted(rq'[..|pend| + 1], pend', y, s, R))
  {
    var s := |r| - |y|;
    SubtractTop(r, s, d, y, m, R);
    FoldTopVal(AddAt(r, |r| - m, Scale(-d, y[|y| - m..])), R);
    assert Val([d] + rq, R) == d + R * Val(rq, R) by { assert ([d] + rq)[1..] == rq; }
    assert Pow(R, s + 1) == R * Pow(R, s);
    NewDigit(rq, pend, d, |r| - n, y, s, R);
    TopSplit(y, |y| - n, |y| - m, R);
    DigitSum(Val(r, R), Pow(R, s), Pow(R, |y| - m), d, Val(rq, R), Val(y, R), Val(y[|y| - m..], R),
             Low(y, |y| - n, R), Unsubtracted(rq[..|pend|], pend, y, s + 1, R), R);
  }

  lemma {:induction false} SubtractTop(r: seq<int>, s: nat, d: int, y: seq<int>, m: nat, R: int)
    requires m <= |y| && |r| == s + |y|
    ensures Val(AddAt(r, |r| - m, Scale(-d, y[|y| - m..])), R)
         == Val(r, R) + (Pow(R, s) * Pow(R, |y| - m)) * (-d * Val(y[|y| - m..], R))
  {
    ValAddAt(r, |r| - m, Scale(-d, y[|y| - m..]), R);
    ValScale(-d, y[|y| - m..], R);
    PowAdd(R, s, |y| - m);
  }

  lemma {:induction false} NewDigit(rq: seq<int>, pend: seq<int>, d: int, D: int, y: seq<int>, s: int, R: int)
    requires |pend| <= |rq|
    ensures Unsubtracted(([d] + rq)[..|pend| + 1], [D] + pend, y, s, R)
         == d * Low(y, D - s, R) + R * Unsubtracted(rq[..|pend|], pend, y, s + 1, R)
  {
    assert ([d] + rq)[..|pend| + 1] == [d] + rq[..|pend|];
    assert ([d] + rq[..|pend|])[1..] == rq[..|pend|] && ([D] + pend)[1..] == pend;
  }

  lemma {:induction false} TopSplit(y: seq<int>, k: int, j: nat, R: int)
    requires j <= |y| && j == (if k < 0 then 0 else k)
    ensures Val(y, R) == Low(y, k, R) + Pow(R, j) * Val(y[j..], R)
  {
    ValSplit(y, j, R);
  }

  lemma {:induction false} DigitSum(r: int, p: int, t: int, d: int, q: int, y: int, top: int, low: int, u: int, R: int)
    requires y == low + t * top
    ensures r + (R * p) * (q * y - u) == (r + (p * t) * (-d * top)) + p * ((d + R * q) * y - (d * low + R * u))
  {
    Assoc(p, t, -d * top);
    Distrib(d, low, t * top);
    assert t * (-d * top) == -(d * (t * top));
    Distrib(y, d, R * q);
    Assoc(R, q, y);
    DistribSub(R, q * y, u);
    var e := q * y - u;
    assert (d + R * q) * y - (d * low + R * u) == d * (t * top) + R * e;
    Distrib(p, d * (t * top), R * e);
    Assoc(p, R, e);
    assert p * t * (-d * top) == -(p * (d * (t * top)));
  }

  /** The terms of the convolution that lowering the threshold of a block from |y| - 2 takes care of. */
  lemma {:induction false} LowerBlock(rq: seq<int>, pend: seq<int>, y: seq<int>, c: int, s: int, b: nat, T: nat, h: nat, R: int)
    requires |y| >= 3 && 1 <= b <= |pend| == |rq| && T <= |y| - 2 && (h == T || (h > T && T == |y| - 2))
    requires c == s + |y| - 2 && pend[..b] == Fill(b, c)
    ensures Unsubtracted(rq, pend, y, s, R) == Unsubtracted(rq, Fill(b, c - h) + pend[b..], y, s, R)
      + Pow(R, |y| - 2 - T) * Val(Conv(rq[..b], y)[|y| - 2 - T..|y| - 2], R)
  {
    var pend' := Fill(b, c - h) + pend[b..];
    assert pend'[..b] == Fill(b, c - h) && pend'[b..] == pend[b..];
    UnsubtractedSplit(rq, pend, y, s, R, b);
    UnsubtractedSplit(rq, pend', y, s, R, b);
    UnsubtractedLow(rq[..b], y, c, s, R);
    UnsubtractedLow(rq[..b], y, c - h, s, R);
    LowSplit(Conv(rq[..b], y), |y| - 2 - T, |y| - 2, R);
  }

  /**
    One product for the latest b digits: terms |y| - 2 - T up to |y| - 3 of the convolution are
    subtracted just below the top of r.
  */
  lemma {:induction false} BlockStep(x: seq<int>, y: seq<int>, r: seq<int>, q: seq<int>, pend: seq<int>,
                                     b: nat, T: nat, h: nat, R: int)
    requires |y| >= 3 && 1 <= b <= |pend| && T <= |y| - 2 && (h == T || (h > T && T == |y| - 2))
    requires Deferred(x, y, r, q, pend, R) && pend[..b] == Fill(b, |r| - 1)
    ensures var tsub := Conv(Reverse(q)[..b], y)[|y| - 2 - T..|y| - 2];
            Deferred(x, y, AddAt(r, |r| - 1 - T, Minus(tsub)), q, Fill(b, |r| - 1 - h) + pend[b..], R)
  {
    var rqn := Reverse(q)[..|pend|];
    assert rqn[..b] == Reverse(q)[..b];
    BlockValue(rqn, Val(Reverse(q), R) * Val(y, R), pend, y, r, b, T, h, R);
    assert |Fill(b, |r| - 1 - h) + pend[b..]| == |pend|;
  }

  lemma {:induction false} BlockValue(rqn: seq<int>, qy: int, pend: seq<int>, y: seq<int>, r: seq<int>,
                                      b: nat, T: nat, h: nat, R: int)
    requires |y| >= 3 && 1 <= b <= |pend| == |rqn| && T <= |y| - 2 && (h == T || (h > T && T == |y| - 2))
    requires |r| + 1 >= |y| && pend[..b] == Fill(b, |r| - 1)
    ensures var tsub := Conv(rqn[..b], y)[|y| - 2 - T..|y| - 2];
            var (s, pend') := (|r| + 1 - |y|, Fill(b, |r| - 1 - h) + pend[b..]);
            Val(r, R) + Pow(R, s) * (qy - Unsubtracted(rqn, pend, y, s, R))
              == Val(AddAt(r, |r| - 1 - T, Minus(tsub)), R) + Pow(R, s) * (qy - Unsubtracted(rqn, pend', y, s, R))
  {
    var (s, k) := (|r| + 1 - |y|, |y| - 2 - T);
    var tsub := Conv(rqn[..b], y)[k..k + T];
    LowerBlock(rqn, pend, y, |r| - 1, s, b, T, h, R);
    SubtractMiddle(r, s, k, tsub, R);
    BlockSum(Val(r, R), Pow(R, s), Pow(R, k), Val(tsub, R), qy,
             Unsubtracted(rqn, pend, y, s, R), Unsubtracted(rqn, Fill(b, |r| - 1 - h) + pend[b..], y, s, R));
  }

  lemma {:induction false} SubtractMiddle(r: seq<int>, s: nat, k: nat, t: seq<int>, R: int)
    requires s + k + |t| <= |r|
    ensures Val(AddAt(r, s + k, Minus(t)), R) == Val(r, R) + (Pow(R, s) * Pow(R, k)) * -Val(t, R)
  {
    ValAddAt(r, s + k, Minus(t), R);
    ValMinus(t, R);
    PowAdd(R, s, k);
  }

  lemma {:induction false} BlockSum(r: int, p: int, t: int, v: int, qy: int, u0: int, u: int)
    requires u0 == u + t * v
    ensures r + p * (qy - u0) == r + (p * t) * -v + p * (qy - u)
  {
    Assoc(p, t, v);
    Assoc(p, t, -v);
    DistribSub(p, qy - u, t * v);
  }

  /** Once the latest digits are completely subtracted, they are no longer pending. */
  lemma {:induction false} Settle(x: seq<int>, y: seq<int>, r: seq<int>, q: seq<int>, b: nat, D: int, R: int)
    requires 1 <= b && y != [] && Deferred(x, y, r, q, Fill(b, D), R) && D <= |r| + 1 - |y|
    ensures Deferred(x, y, r, q, [], R)
  {
    var rq := Reverse(q);
    UnsubtractedLow(rq[..b], y, D, |r| + 1 - |y|, R);
  }

  lemma {:induction false} DotSlice(x: seq<int>, y: seq<int>, lo: nat, hi: nat, k: int)
    requires lo <= hi <= |y| && k < hi && (lo == 0 || k >= lo + |x| - 1)
    ensures DotAt(x, y, k) == DotAt(x, y[lo..hi], k - lo)
  {
    if x != [] { DotSlice(x[1..], y, lo, hi, k - 1); }
  }

  /** The middle terms of a convolution need only the terms of y in reach. */
  lemma {:induction false} ConvSlice(x: seq<int>, y: seq<int>, lo: nat, hi: nat, i: nat, j: nat)
    requires x != [] && lo < hi <= |y| && i <= j <= hi && (lo == 0 || i >= lo + |x| - 1) && lo <= i
    ensures Conv(x, y)[i..j] == Conv(x, y[lo..hi])[i - lo..j - lo]
  {
    var (left, right) := (Conv(x, y)[i..j], Conv(x, y[lo..hi])[i - lo..j - lo]);
    forall m | 0 <= m < j - i ensures left[m] == right[m] {
      DotSlice(x, y, lo, hi, i + m);
    }
  }

  // ----- kdiv -----

  /** The next quotient digit, with just enough products to guess the ones after it. */
  method NextDigit(x: seq<int>, y: seq<int>, r0: seq<int>, q0: seq<int>, yguess: int, n: nat, R: int,
                   ghost pend: seq<int>) returns (r: seq<int>, q: seq<int>)
    requires R >= 2 && |r0| >= |y| >= 3 && n >= 2 && yguess >= 1 && Deferred(x, y, r0, q0, pend, R)
    ensures |r| == |r0| - 1 && |q| == |q0| + 1 && Deferred(x, y, r, q, [|r0| - n] + pend, R)
  {
    var rguess := ToLong(r0[|r0| - 2..], R);
    var qdigit, _ := DivMod(rguess, yguess);
    var m := if n < |y| then n else |y|;
    q := q0 + [qdigit];
    r := SubtractAndFold(r0, |r0| - m, qdigit, y[|y| - m..], R);
    DigitStep(x, y, r0, q0, pend, qdigit, n, m, R);
  }

  lemma {:induction false} FillStep(i: nat, D: int, pend: seq<int>)
    requires i >= 1
    ensures [D] + (Fill(i - 1, D) + pend) == Fill(i, D) + pend
  {}

  lemma {:induction false} FillNone(D: int, pend: seq<int>)
    ensures Fill(0, D) + pend == pend
  {}

  method DigitSteps(x: seq<int>, y: seq<int>, r0: seq<int>, q0: seq<int>, yguess: int, step: nat, R: int,
                    ghost pend: seq<int>) returns (r: seq<int>, q: seq<int>)
    requires R >= 2 && |y| >= 3 && yguess >= 1 && |r0| + 1 >= |y| + step && Deferred(x, y, r0, q0, pend, R)
    ensures |r| == |r0| - step && |q| == |q0| + step
    ensures Deferred(x, y, r, q, Fill(step, |r| - 1) + pend, R)
  {
    r, q := r0, q0;
    ghost var D := |r0| - 1 - step;
    FillNone(D, pend);
    for i := 1 to step + 1
      invariant |r| == |r0| - (i - 1) && |q| == |q0| + (i - 1)
      invariant Deferred(x, y, r, q, Fill(i - 1, D) + pend, R)
    {
      FillStep(i, D, pend);
      r, q := NextDigit(x, y, r, q, yguess, step + 2 - i, R, Fill(i - 1, D) + pend);
    }
  }

  /** Subtracts a list from the terms directly below the top one. */
  method SubtractBelowTop(r: seq<int>, tsub: seq<int>) returns (r': seq<int>)
    requires |tsub| + 1 <= |r|
    ensures r' == AddAt(r, |r| - 1 - |tsub|, Minus(tsub))
  {
    var lo, hi := |r| - 1 - |tsub|, |r| - 1;
    r' := r[..lo] + Sub(r[lo..hi], tsub) + r[hi..];
    assert Sub(r[lo..hi], tsub) == Add(Minus(tsub), r[lo..hi]);
  }

  lemma {:induction false} ReverseTail(q: seq<int>, b: nat)
    requires b <= |q|
    ensures Reverse(q[|q| - b..]) == Reverse(q)[..b]
  {
    if b == |q| {
      assert q[0..] == q && Reverse(q)[..b] == Reverse(q);
    } else {
      ReverseTail(q[1..], b);
      assert q[1..][|q| - 1 - b..] == q[|q| - b..];
    }
  }

  /** The full product of the latest b digits completes them. */
  method FullBlock(x: seq<int>, y: seq<int>, r0: seq<int>, q: seq<int>, b: nat, R: int, threshold: nat) returns (r: seq<int>)
    requires |y| >= 3 && 1 <= b <= |q| && threshold >= 1
    requires Deferred(x, y, r0, q, Fill(b, |r0| - 1), R)
    ensures |r| == |r0| && Deferred(x, y, r, q, [], R)
  {
    var qtemp := Reverse(q[|q| - b..]);
    ReverseTail(q, b);
    var tsub := FastMult(qtemp, y, R, threshold);
    tsub := tsub[..|tsub| - b - 1];
    r := SubtractBelowTop(r0, tsub);
    ghost var pend := Fill(b, |r0| - 1);
    assert pend[..b] == pend && Fill(b, |r0| + 1 - |y|) + pend[b..] == Fill(b, |r0| + 1 - |y|);
    BlockStep(x, y, r0, q, pend, b, |y| - 2, |y| - 2, R);
    Settle(x, y, r, q, b, |r0| + 1 - |y|, R);
  }

  lemma {:induction false} MiddleTerms(qtemp: seq<int>, y: seq<int>, lo: nat, T: nat)
    requires |y| >= 3 && qtemp != [] && (lo == 0 || lo + 2 * |qtemp| + 1 == |y|)
    requires T == (if |qtemp| < |y| - 2 then |qtemp| else |y| - 2)
    ensures Conv(qtemp, y[lo..|y| - 1])[|y| - 2 - T - lo..|y| - 2 - lo] == Conv(qtemp, y)[|y| - 2 - T..|y| - 2]
  {
    ConvSlice(qtemp, y, lo, |y| - 1, |y| - 2 - T, |y| - 2);
  }

  /** The middle terms of the product of the block with its own length twice in leading divisor terms. */
  method MiddleProduct(qtemp: seq<int>, y: seq<int>, R: int, threshold: nat) returns (tsub: seq<int>)
    requires |y| >= 3 && |qtemp| >= 2 && threshold >= 1
    ensures |tsub| == (if |qtemp| < |y| - 2 then |qtemp| else |y| - 2)
    ensures tsub == Conv(qtemp, y)[|y| - 2 - |tsub|..|y| - 2]
  {
    var b, n := |qtemp|, |y|;
    var lo := if 2 * b + 1 <= n then n - (2 * b + 1) else 0;
    var product := FastMult(qtemp, y[lo..n - 1], R, threshold);
    var from := if 2 * b <= |product| then |product| - 2 * b else 0;
    ghost var T := if b < n - 2 then b else n - 2;
    SliceBounds(b, n, lo, |product|, from, T);
    tsub := product[from..|product| - b];
    MiddleTerms(qtemp, y, lo, T);
  }

  lemma {:induction false} SliceBounds(b: nat, n: nat, lo: nat, p: nat, from: nat, T: nat)
    requires n >= 3 && b >= 2 && lo == (if 2 * b + 1 <= n then n - (2 * b + 1) else 0)
    requires p == b + (n - 1 - lo) - 1 && from == (if 2 * b <= p then p - 2 * b else 0)
    requires T == (if b < n - 2 then b else n - 2)
    ensures from == n - 2 - T - lo && p - b == n - 2 - lo && from <= p - b
  {}

  /** A product of the latest b digits with 2 * b terms of the divisor lowers their threshold by b. */
  method PartialBlock(x: seq<int>, y: seq<int>, r0: seq<int>, q: seq<int>, b: nat, R: int, threshold: nat,
                      ghost pend: seq<int>) returns (r: seq<int>)
    requires |y| >= 3 && 8 <= b <= |pend| <= |q| && threshold >= 1
    requires Deferred(x, y, r0, q, pend, R) && pend[..b] == Fill(b, |r0| - 1)
    ensures |r| == |r0| && Deferred(x, y, r, q, Fill(b, |r| - 1 - b) + pend[b..], R)
  {
    var qtemp := Reverse(q[|q| - b..]);
    ReverseTail(q, b);
    var tsub := MiddleProduct(qtemp, y, R, threshold);
    r := SubtractBelowTop(r0, tsub);
    BlockStep(x, y, r0, q, pend, b, |tsub|, b, R);
  }

  /**
    Where the division stands: powers lists the sizes of the full products to come. Until the
    first of them is reached, the digits that count towards it are pending in blocks.
  */
  ghost predicate Plan(powers: seq<nat>, step: nat, counter: nat, left: nat, blocks: seq<nat>) {
    && left + counter == Sum(powers) && Sum(blocks) == counter && BitList(blocks, 8)
    && if step < 8 then step >= 1 && blocks == [] && powers != [] && powers[0] == step && AllBlocks(powers[1..])
       else step == 8 && AllBlocks(powers) && if powers == [] then counter == 0 else counter < powers[0]
  }

  lemma {:induction false} MultipleOfEight(n: nat)
    requires Multiple(n, 8)
    ensures n % 8 == 0
  {
    if n != 0 {
      assert PowerIn(n) == 2 * PowerIn(n / 2);
      assert PowerIn(n / 2) == 2 * PowerIn(n / 2 / 2);
      assert n / 2 / 2 == 2 * (n / 2 / 2 / 2);
    }
  }

  /** Eight more digits do not pass the next full product, and reach it just when they join all blocks. */
  lemma {:induction false} CounterReaches(p: nat, blocks: seq<nat>)
    requires PowerOfTwo(p) && p >= 8 && BitList(blocks, 8) && Sum(blocks) < p
    ensures Sum(blocks) + 8 <= p && BitList(Carry(blocks, 8), 8)
    ensures Carry(blocks, 8)[0] == PowerIn(Sum(blocks) + 8)
    ensures Carry(blocks, 8)[0] == p <==> Sum(blocks) + 8 == p
  {
    assert PowerOfTwo(4) && PowerOfTwo(8);
    CarryBits(blocks, 8);
    LatestBlock(blocks, 8);
    LatestBlock(Carry(blocks, 8), 8);
    PowerInItself(p);
    MultipleOfEight(Sum(blocks));
    MultipleOfEight(p);
    EightApart(Sum(blocks), p);
  }

  lemma {:induction false} EightApart(a: int, b: int)
    requires a % 8 == 0 && b % 8 == 0 && a < b
    ensures a + 8 <= b
  {}

  /**
    The latest b digits have all their products from c upwards subtracted, and now their product
    is due: a full one, after which nothing is pending, if b is the next size listed, and otherwise
    one that leaves them with threshold c - b.
  */
  ghost predicate Due(powers: seq<nat>, b: nat, counter: nat, left: nat, pend: seq<int>, c: int, blocks: seq<nat>) {
    && powers != [] && |pend| == counter && 1 <= b <= counter
    && if b == powers[0] then pend == Fill(b, c) && Plan(powers[1..], 8, 0, left, [])
       else b >= 8 && pend[..b] == Fill(b, c) && Fill(b, c - b) + pend[b..] == Thresholds(blocks, c)
            && Plan(powers, 8, counter, left, blocks)
  }

  lemma {:induction false} NoneLeft(blocks: seq<nat>)
    requires Sum(blocks) == 0 && (blocks == [] || blocks[0] >= 1)
    ensures blocks == []
  {}

  lemma {:induction false} PlanNonempty(powers: seq<nat>, step: nat, counter: nat, left: nat, blocks: seq<nat>)
    requires Plan(powers, step, counter, left, blocks)
    ensures left != 0 <==> powers != []
    ensures left == 0 ==> blocks == []
  {
    if left == 0 { NoneLeft(blocks); }
  }

  lemma {:induction false} FullRound(powers: seq<nat>, step: nat, counter: nat, left: nat, blocks: seq<nat>, c: int)
    requires Plan(powers, step, counter, left, blocks) && left != 0 && step < 8
    ensures left >= step
    ensures Due(powers, step, counter + step, left - step, Fill(step, c - step) + Thresholds(blocks, c), c - step, blocks)
  {
    assert Fill(step, c - step) + [] == Fill(step, c - step);
  }

  lemma {:induction false} BlockRound(powers: seq<nat>, counter: nat, left: nat, blocks: seq<nat>, c: int, b: nat)
    requires Plan(powers, 8, counter, left, blocks) && left != 0 && b == PowerIn(counter + 8)
    ensures left >= 8
    ensures Due(powers, b, counter + 8, left - 8, Fill(8, c - 8) + Thresholds(blocks, c), c - 8, Carry(blocks, 8))
  {
    PlanNonempty(powers, 8, counter, left, blocks);
    CounterReaches(powers[0], blocks);
    LatestAligned(blocks, c);
    if b == powers[0] {
      NoneLeft(Carry(blocks, 8)[1..]);
      PlanDone(powers, counter, left, blocks);
    } else {
      PlanContinues(powers, counter, left, blocks);
    }
  }

  lemma {:induction false} PlanDone(powers: seq<nat>, counter: nat, left: nat, blocks: seq<nat>)
    requires Plan(powers, 8, counter, left, blocks) && powers != [] && counter + 8 == powers[0]
    ensures left >= 8 && Plan(powers[1..], 8, 0, left - 8, [])
  {}

  lemma {:induction false} PlanContinues(powers: seq<nat>, counter: nat, left: nat, blocks: seq<nat>)
    requires Plan(powers, 8, counter, left, blocks) && powers != [] && counter + 8 < powers[0]
    requires BitList(Carry(blocks, 8), 8)
    ensures left >= 8 && Plan(powers, 8, counter + 8, left - 8, Carry(blocks, 8))
  {}

  lemma {:induction false} LatestAligned(blocks: seq<nat>, c: int)
    requires BitList(blocks, 8)
    ensures var (r, pend) := (Carry(blocks, 8), Fill(8, c - 8) + Thresholds(blocks, c));
            && 8 <= r[0] <= |pend| && pend[..r[0]] == Fill(r[0], c - 8)
            && Fill(r[0], c - 8 - r[0]) + pend[r[0]..] == Thresholds(r, c - 8)
            && (r[1..] == [] ==> pend == Fill(r[0], c - 8))
  {
    CarryThresholds(blocks, c - 8, 8);
    var r := Carry(blocks, 8);
    Prefix(Fill(8, c - 8) + Thresholds(blocks, c), Fill(r[0], c - 8), Thresholds(r[1..], c - 8 + r[0]));
  }

  lemma {:induction false} Prefix(s: seq<int>, t: seq<int>, u: seq<int>)
    requires s == t + u
    ensures s[..|t|] == t && s[|t|..] == u && (u == [] ==> s == t)
  {}

  /** The size of the block that is multiplied once the next step digits are there. */
  ghost function BlockSize(step: nat, counter: nat): nat {
    if step < 8 then step else PowerIn(counter + step)
  }

  lemma {:induction false} RoundDue(powers: seq<nat>, step: nat, counter: nat, left: nat, blocks: seq<nat>, c: int)
    returns (blocks': seq<nat>)
    requires Plan(powers, step, counter, left, blocks) && left != 0
    ensures 1 <= step <= left
    ensures Due(powers, BlockSize(step, counter), counter + step, left - step,
                Fill(step, c - step) + Thresholds(blocks, c), c - step, blocks')
  {
    if step < 8 {
      FullRound(powers, step, counter, left, blocks, c);
      blocks' := blocks;
    } else {
      BlockRound(powers, counter, left, blocks, c, PowerIn(counter + 8));
      blocks' := Carry(blocks, 8);
    }
  }

  /** The product that is due: a full one settles its block, a partial one lowers it. */
  method Complete(x: seq<int>, y: seq<int>, r0: seq<int>, q: seq<int>, bsize: nat, powers0: seq<nat>, counter0: nat,
                  R: int, threshold: nat, ghost left: nat, ghost pend: seq<int>, ghost blocks0: seq<nat>)
    returns (r: seq<int>, powers: seq<nat>, counter: nat, ghost blocks: seq<nat>)
    requires |y| >= 3 && threshold >= 1 && Deferred(x, y, r0, q, pend, R)
    requires Due(powers0, bsize, counter0, left, pend, |r0| - 1, blocks0)
    ensures |r| == |r0| && Deferred(x, y, r, q, Thresholds(blocks, |r| - 1), R) && Plan(powers, 8, counter, left, blocks)
  {
    if bsize == powers0[0] {
      r := FullBlock(x, y, r0, q, bsize, R, threshold);
      counter, powers, blocks := 0, powers0[1..], [];
    } else {
      r := PartialBlock(x, y, r0, q, bsize, R, threshold, pend);
      counter, powers, blocks := counter0, powers0, blocks0;
    }
  }

  /** The next quotient digits, and the number of digits whose product is then due. */
  method NextDigits(x: seq<int>, y: seq<int>, r0: seq<int>, q0: seq<int>, yguess: int, stepsize: nat, qcounter: nat,
                    R: int, ghost powers: seq<nat>, ghost left: nat, ghost blocks0: seq<nat>)
    returns (r: seq<int>, q: seq<int>, bsize: nat, ghost pend: seq<int>, ghost blocks: seq<nat>)
    requires R >= 2 && |y| >= 3 && yguess >= 1 && left != 0 && |r0| == |y| - 1 + left
    requires Deferred(x, y, r0, q0, Thresholds(blocks0, |r0| - 1), R) && Plan(powers, stepsize, qcounter, left, blocks0)
    ensures 1 <= stepsize <= left && |r| == |r0| - stepsize && |q| == |q0| + stepsize
    ensures Deferred(x, y, r, q, pend, R)
    ensures Due(powers, bsize, qcounter + stepsize, left - stepsize, pend, |r| - 1, blocks)
  {
    ghost var older := Thresholds(blocks0, |r0| - 1);
    blocks := RoundDue(powers, stepsize, qcounter, left, blocks0, |r0| - 1);
    r, q := DigitSteps(x, y, r0, q0, yguess, stepsize, R, older);
    pend := Fill(stepsize, |r| - 1) + older;
    if stepsize < 8 {
      bsize := stepsize;
    } else {
      bsize := First2Power(qcounter + stepsize);
    }
  }

  /** The main loop: all quotient digits, with all their products subtracted. */
  method DivideInBlocks(x: seq<int>, y: seq<int>, r0: seq<int>, R: int, threshold: nat) returns (q: seq<int>, r: seq<int>)
    requires R >= 2 && Canonical(y, R) && |r0| >= |y| >= 3 && threshold >= 1 && Val(x, R) == Val(r0, R)
    ensures |r| == |y| - 1 && q != [] && LongDivision(x, y, r, q, R)
  {
    var yguess := ToLong(y[|y| - 2..], R);
    GuessPositive(y, R);
    r, q := r0, [];
    var qleft := |r| - |y| + 1;
    var powerlist: seq<nat>, stepsize: nat := MakePlan(qleft);
    var qcounter: nat := 0;
    ghost var blocks: seq<nat> := [];
    NothingYet(x, y, r, R);
    while qleft != 0
      invariant qleft >= 0 && |r| == |y| - 1 + qleft && (q == [] ==> qleft > 0)
      invariant Deferred(x, y, r, q, Thresholds(blocks, |r| - 1), R)
      invariant Plan(powerlist, stepsize, qcounter, qleft, blocks)
    {
      var bsize: nat;
      ghost var pend;
      r, q, bsize, pend, blocks := NextDigits(x, y, r, q, yguess, stepsize, qcounter, R, powerlist, qleft, blocks);
      qleft, qcounter, stepsize := qleft - stepsize, qcounter + stepsize, 8;
      r, powerlist, qcounter, blocks :=
        Complete(x, y, r, q, bsize, powerlist, qcounter, R, threshold, qleft, pend, blocks);
    }
    PlanNonempty(powerlist, stepsize, qcounter, qleft, blocks);
    AllSubtracted(x, y, r, q, R);
  }

  lemma {:induction false} GuessPositive(y: seq<int>, R: int)
    requires R >= 2 && Canonical(y, R) && |y| >= 3
    ensures Val(y[|y| - 2..], R) >= 1
  {
    DivisorTop(y, R, 2);
    PowPos(R, 1);
  }

  method MakePlan(qleft: nat) returns (powerlist: seq<nat>, stepsize: nat)
    requires qleft >= 1
    ensures Plan(powerlist, stepsize, 0, qleft, [])
  {
    var qmain, qpartial := qleft / 8, qleft % 8;
    powerlist := All2Power(qmain * 8);
    BlocksOfEight(qmain);
    stepsize := 8;
    if qpartial != 0 {
      assert ([qpartial] + powerlist)[1..] == powerlist;
      powerlist := [qpartial] + powerlist;
      stepsize := qpartial;
    }
  }

  lemma {:induction false} NothingYet(x: seq<int>, y: seq<int>, r: seq<int>, R: int)
    requires |r| + 1 >= |y| && Val(x, R) == Val(r, R)
    ensures Deferred(x, y, r, [], [], R)
  {
    assert Val(Reverse([]), R) == 0;
    assert Unsubtracted(Reverse([])[..0], [], y, |r| + 1 - |y|, R) == 0;
    var p := Pow(R, |r| + 1 - |y|);
    assert p * (0 * Val(y, R) - 0) == 0;
  }

  lemma {:induction false} AllSubtracted(x: seq<int>, y: seq<int>, r: seq<int>, q: seq<int>, R: int)
    requires Deferred(x, y, r, q, [], R)
    ensures LongDivision(x, y, r, q, R)
  {
    assert Unsubtracted(Reverse(q)[..0], [], y, |r| + 1 - |y|, R) == 0;
  }

  /** Division without rescaling. */
  method BlockDivision(x: seq<int>, y: seq<int>, R: int, threshold: nat) returns (q: seq<int>, r: seq<int>)
    requires R >= 2 && Canonical(x, R) && Canonical(y, R) && |x| >= |y| >= 3 && threshold >= 1
    ensures IsDivision(x, y, q, r, R)
  {
    q, r := DivideInBlocks(x, y, x, R, threshold);
    q, r := FinishDivision(x, y, r, q, R);
  }

  /** At most twice as many base digits per term leaves at least half of the terms. */
  lemma {:induction false} HalfTheTerms(y: seq<int>, y': seq<int>, power: nat, newpower: nat, base: int)
    requires base >= 2 && 1 <= power <= newpower <= 2 * power && |y| >= 7
    requires Canonical(y, Pow(base, power)) && Canonical(y', Pow(base, newpower))
    requires Val(y, Pow(base, power)) == Val(y', Pow(base, newpower))
    ensures |y'| >= 3
  {
    SquareRadix(base, power);
    SquareRadix(base, newpower);
    CanonicalVal(y, Pow(base, power));
    DigitsVal(y', Pow(base, newpower));
    PowMul(base, power, |y| - 1);
    PowMul(base, newpower, |y'|);
    if |y'| < 3 {
      MulMono(newpower, |y'|, 2);
      MulMono(power, 6, |y| - 1);
      PowMono(base, newpower * |y'|, power * (|y| - 1));
      assert false;
    }
  }

  const DIV_CUTOFF := 1000 * 100

  /**
    newpower is the number of base digits per term that the tuning heuristic picks when the
    numbers are large; any choice between power and 2 * power gives the same result.
  */
  method KDiv(x: seq<int>, y: seq<int>, power: nat, base: int, newpower: nat, threshold: nat)
    returns (q: seq<int>, r: seq<int>)
    requires base >= 2 && 1 <= power <= newpower <= 2 * power && threshold >= 1
    requires Canonical(x, Pow(base, power)) && Canonical(y, Pow(base, power)) && y != [0]
    ensures IsDivision(x, y, q, r, Pow(base, power))
  {
    var R := Pow(base, power);
    SquareRadix(base, power);
    if |y| > |x| || |y| <= 2 {
      q, r := ShortDivision(x, y, R);
    } else if |y| > 128 && |x| - |y| > 128 && |y| * (|x| - |y|) > DIV_CUTOFF {
      q, r := ScaledDivision(x, y, power, base, newpower, threshold);
    } else {
      q, r := BlockDivision(x, y, R, threshold);
    }
  }

  method ScaledDivision(x: seq<int>, y: seq<int>, power: nat, base: int, newpower: nat, threshold: nat)
    returns (q: seq<int>, r: seq<int>)
    requires base >= 2 && 1 <= power <= newpower <= 2 * power && threshold >= 1
    requires Canonical(x, Pow(base, power)) && Canonical(y, Pow(base, power)) && |x| > |y| >= 7
    ensures IsDivision(x, y, q, r, Pow(base, power))
  {
    var NEW := Pow(base, newpower);
    SquareRadix(base, power);
    SquareRadix(base, newpower);
    LongerIsLarger(y, x, Pow(base, power));
    var xnew := ChangeDigits(x, power, newpower, base);
    var ynew := ChangeDigits(y, power, newpower, base);
    HalfTheTerms(y, ynew, power, newpower, base);
    if |xnew| < |ynew| { LongerIsLarger(xnew, ynew, NEW); }
    q, r := BlockDivision(xnew, ynew, NEW, threshold);
    r := ChangeDigits(r, newpower, power, base);
    q := ChangeDigits(q, newpower, power, base);
  }

  /** The thresholds of fastdiv and the new radix are tuning: either routine, any legal radix. */
  method FastDiv(x: seq<int>, y: seq<int>, power: nat, base: int, threshold: nat) returns (q: seq<int>, r: seq<int>)
    requires base >= 2 && power >= 1 && threshold >= 1
    requires Canonical(x, Pow(base, power)) && Canonical(y, Pow(base, power)) && y != [0]
    ensures IsDivision(x, y, q, r, Pow(base, power))
  {
    SquareRadix(base, power);
    if |y| > |x| {
      q, r := ShortDivision(x, y, Pow(base, power));
      return;
    }
    var preferSmith: bool := *;
    if preferSmith {
      q, r := SmithDiv(x, y, Pow(base, power));
    } else {
      var newpower :| power <= newpower <= 2 * power;
      q, r := KDiv(x, y, power, base, newpower, threshold);
    }
  }
}
