/**
  Conversions between single numbers and digit lists, and between radices that are powers of
  one base.
*/
module Radix {
  import opened Arith
  import opened Poly
  import opened Division

  // ----- tolong2 -----

  /** Neighbouring terms joined in pairs: the terms for the squared radix. */
  function Pairs(x: seq<int>, R: int): (r: seq<int>)
    ensures |r| == (|x| + 1) / 2
  {
    if |x| <= 1 then x else [x[0] + R * x[1]] + Pairs(x[2..], R)
  }

  lemma {:induction false} PairsVal(x: seq<int>, R: int)
    ensures Val(Pairs(x, R), R * R) == Val(x, R)
  {
    if |x| >= 2 {
      PairsVal(x[2..], R);
      assert Pairs(x, R)[1..] == Pairs(x[2..], R);
      assert x[1..][1..] == x[2..];
      var v := Val(x[2..], R);
      Distrib(R, x[1], R * v);
      Assoc(R, R, v);
    } else if |x| == 1 {
      ValOne(x[0], R);
      ValOne(x[0], R * R);
      assert x == [x[0]];
    }
  }

  method JoinPairs(x: seq<int>, R: int) returns (temp: seq<int>)
    ensures temp == Pairs(x, R)
  {
    temp := [];
    var i := 0;
    assert x[0..] == x;
    while i < |x|
      invariant 0 <= i <= |x| && temp + Pairs(x[i..], R) == Pairs(x, R)
    {
      // x[i:i+2] stops at the end of the list.
      var j := if i + 2 <= |x| then i + 2 else |x|;
      var t := ToLong(x[i..j], R);
      PairIs(x, i, j, R);
      NextPair(temp, t, Pairs(x[j..], R));
      temp, i := temp + [t], j;
    }
    assert temp + [] == temp;
  }

  lemma {:induction false} NextPair(temp: seq<int>, t: int, rest: seq<int>)
    ensures temp + ([t] + rest) == (temp + [t]) + rest
  {}

  lemma {:induction false} PairIs(x: seq<int>, i: nat, j: nat, R: int)
    requires i < |x| && j == (if i + 2 <= |x| then i + 2 else |x|)
    ensures Pairs(x[i..], R) == [Val(x[i..j], R)] + Pairs(x[j..], R)
  {
    ValOne(x[i], R);
    if i + 2 <= |x| {
      assert x[i..j][1..] == [x[i + 1]] && x[i..][2..] == x[j..];
      ValOne(x[i + 1], R);
    } else {
      assert x[i..j] == [x[i]] == x[i..];
    }
  }

  /** Repeated squaring of the radix computes the same number as Horner's rule. */
  method ToLong2(x0: seq<int>, power0: nat, base: int) returns (n: int)
    requires x0 != []
    ensures n == Val(x0, Pow(base, power0))
  {
    var x, power := x0, power0;
    while |x| > 1
      invariant x != [] && power >= 0 && Val(x, Pow(base, power)) == Val(x0, Pow(base, power0))
      decreases |x|
    {
      PairsVal(x, Pow(base, power));
      PowAdd(base, power, power);
      x := JoinPairs(x, Pow(base, power));
      power := power * 2;
    }
    assert x == [x[0]];
    ValOne(x[0], Pow(base, power));
    n := x[0];
  }

  // ----- fromlong2: lists with the most significant number first -----

  /** No leading zero, except in [0]. */
  predicate Leading(s: seq<int>) {
    s != [] && (s[0] == 0 ==> s == [0])
  }

  ghost predicate Range(s: seq<int>, lo: nat, R: int) {
    forall i :: lo <= i < |s| ==> 0 <= s[i] < R
  }

  /** Replaces every number by its quotient and remainder by R. */
  method SplitAll(temp: seq<int>, R: int) returns (temp1: seq<int>)
    requires R >= 2 && temp != [] && temp[0] >= 0 && Range(temp, 1, R * R)
    ensures |temp1| == 2 * |temp| && Range(temp1, 1, R) && temp[0] == R * temp1[0] + temp1[1] && temp1[0] >= 0
    ensures Val(Reverse(temp1), R) == Val(Reverse(temp), R * R)
  {
    temp1 := [];
    for i := 0 to |temp|
      invariant |temp1| == 2 * i && Range(temp1, 1, R)
      invariant i > 0 ==> temp[0] == R * temp1[0] + temp1[1] && temp1[0] >= 0
      invariant Val(Reverse(temp1), R) == Val(Reverse(temp[..i]), R * R)
    {
      var hi, lo := DivMod(temp[i], R);
      if i > 0 { HighPart(temp[i], R, hi, lo); }
      assert temp[..i + 1] == temp[..i] + [temp[i]];
      ExtendVal(temp1, temp[..i], temp[i], hi, lo, R);
      temp1 := temp1 + [hi, lo];
    }
    assert temp[..|temp|] == temp;
  }

  lemma {:induction false} HighPart(v: int, R: int, hi: int, lo: int)
    requires R >= 1 && 0 <= v < R * R && v == R * hi + lo && 0 <= lo < R
    ensures 0 <= hi < R
  {
    if hi >= R { MulMono(R, R, hi); }
    if hi <= -1 { MulMono(R, hi, -1); }
  }

  lemma {:induction false} ExtendVal(s: seq<int>, t: seq<int>, v: int, hi: int, lo: int, R: int)
    requires v == R * hi + lo && Val(Reverse(s), R) == Val(Reverse(t), R * R)
    ensures Val(Reverse(s + [hi, lo]), R) == Val(Reverse(t + [v]), R * R)
  {
    assert s + [hi, lo] == (s + [hi]) + [lo];
    ReverseAppend(s, hi);
    ReverseAppend(s + [hi], lo);
    ReverseAppend(t, v);
    assert ([lo] + Reverse(s + [hi]))[1..] == Reverse(s + [hi]);
    assert ([hi] + Reverse(s))[1..] == Reverse(s);
    assert ([v] + Reverse(t))[1..] == Reverse(t);
    var n := Val(Reverse(s), R);
    Distrib(R, hi, R * n);
    Assoc(R, R, n);
  }

  /** The divisors: power, 2 * power, 4 * power, ... up to the first that reaches declen. */
  ghost predicate Doubling(list: seq<nat>, power: nat) {
    && list != [] && list[0] == power && (forall i :: 0 <= i < |list| ==> list[i] >= 1)
    && forall i :: 1 <= i < |list| ==> list[i] == 2 * list[i - 1]
  }

  ghost function TopLength(declen: nat, divlen: nat): nat
    requires divlen >= 1
    decreases declen - divlen
  {
    if divlen < declen then TopLength(declen, 2 * divlen) else divlen
  }

  lemma {:induction false} TopLengthReaches(declen: nat, divlen: nat)
    requires divlen >= 1
    ensures TopLength(declen, divlen) >= declen
    decreases declen - divlen
  {
    if divlen < declen { TopLengthReaches(declen, 2 * divlen); }
  }

  method DivLengths(power: nat, declen: nat) returns (list: seq<nat>)
    requires power >= 1
    ensures Doubling(list, power) && list[|list| - 1] == TopLength(declen, power)
  {
    var divlen := power;
    list := [divlen];
    while divlen < declen
      invariant divlen >= 1 && Doubling(list, power) && list[|list| - 1] == divlen
      invariant TopLength(declen, divlen) == TopLength(declen, power)
      decreases declen - divlen
    {
      divlen := divlen * 2;
      list := list + [divlen];
    }
  }

  /** One level: split every number by the radix R and drop a leading zero. */
  method SplitLevel(temp: seq<int>, R: int) returns (temp': seq<int>)
    requires R >= 2 && Leading(temp) && temp[0] >= 0 && Range(temp, 1, R * R)
    ensures Leading(temp') && temp'[0] >= 0 && Range(temp', 1, R)
    ensures Val(Reverse(temp'), R) == Val(Reverse(temp), R * R)
    ensures |temp'| <= 2 * |temp| && (temp[0] < R * R ==> temp'[0] < R)
  {
    temp' := SplitAll(temp, R);
    ghost var hi := temp'[0];
    if temp[0] < R * R { HighPart(temp[0], R, temp'[0], temp'[1]); }
    if temp'[0] == 0 {
      DropZero(temp', R);
      temp' := temp'[1..];
    }
  }

  lemma {:induction false} DropZero(s: seq<int>, R: int)
    requires s != [] && s[0] == 0
    ensures Val(Reverse(s[1..]), R) == Val(Reverse(s), R)
  {
    ValPad(Reverse(s[1..]), 1, R);
    assert Zeros(1) == [0];
  }

  lemma {:induction false} SquareRadix(base: int, L: nat)
    requires base >= 2 && L >= 1
    ensures Pow(base, 2 * L) == Pow(base, L) * Pow(base, L) && Pow(base, L) >= 2
  {
    PowAdd(base, L, L);
    PowMono(base, 1, L);
    assert Pow(base, 1) == base * Pow(base, 0);
  }

  /**
    Recursive halving. The estimate declen of the number of digits decides how often the divisor
    is doubled; the result always has the value x, and it is in normal form exactly when twice
    the largest divisor has enough digits for x.
  */
  method FromLong2(x: nat, power: nat, base: int, declen: nat) returns (terms: seq<int>)
    requires base >= 2 && power >= 1
    ensures Val(terms, Pow(base, power)) == x
    ensures Canonical(terms, Pow(base, power)) <==> x < Pow(base, 2 * TopLength(declen, power))
  {
    var powerlist := DivLengths(power, declen);
    ghost var top := TopLength(declen, power);
    var temp := [x];
    var k := |powerlist|;
    assert Reverse([x]) == [x];
    ValOne(x, Pow(base, 2 * top));
    ghost var L := 2 * top;
    while k > 0
      invariant 0 <= k <= |powerlist| && L == (if k == 0 then power else 2 * powerlist[k - 1])
      invariant Leading(temp) && temp[0] >= 0 && Range(temp, 1, Pow(base, L)) && Val(Reverse(temp), Pow(base, L)) == x
      invariant |temp| * L <= 2 * top && (x < Pow(base, 2 * top) ==> temp[0] < Pow(base, L))
    {
      k := k - 1;
      ghost var n := |temp|;
      SquareRadix(base, powerlist[k]);
      L := powerlist[k];
      temp := SplitLevel(temp, Pow(base, powerlist[k]));
      LengthHalves(|temp|, n, powerlist[k], top);
    }
    terms := Reverse(temp);
    IsCanonical(x, temp, power, base, top);
  }

  lemma {:induction false} LengthHalves(m: nat, n: nat, L: nat, top: nat)
    requires m <= 2 * n && n * (2 * L) <= 2 * top
    ensures m * L <= 2 * top
  {
    MulMono(L, m, 2 * n);
    assert n * (2 * L) == L * (2 * n);
  }

  lemma {:induction false} IsCanonical(x: nat, temp: seq<int>, power: nat, base: int, top: nat)
    requires base >= 2 && power >= 1 && Leading(temp) && temp[0] >= 0 && Range(temp, 1, Pow(base, power))
    requires Val(Reverse(temp), Pow(base, power)) == x && |temp| * power <= 2 * top
    requires x < Pow(base, 2 * top) ==> temp[0] < Pow(base, power)
    ensures Canonical(Reverse(temp), Pow(base, power)) <==> x < Pow(base, 2 * top)
  {
    var (R, terms) := (Pow(base, power), Reverse(temp));
    SquareRadix(base, power);
    ReverseIndex(temp);
    if x < Pow(base, 2 * top) {
      assert Range(temp, 0, R);
      assert terms[|terms| - 1] == temp[0];
      forall i | 0 <= i < |terms| ensures 0 <= terms[i] < R {
        assert terms[i] == temp[|temp| - 1 - i];
      }
    }
    if Canonical(terms, R) {
      DigitsVal(terms, R);
      PowMul'(base, power, |temp|);
      PowMono(base, |temp| * power, 2 * top);
    }
  }

  lemma {:induction false} ReverseIndex(s: seq<int>)
    ensures forall i :: 0 <= i < |s| ==> Reverse(s)[i] == s[|s| - 1 - i]
  {
    if s != [] { ReverseIndex(s[1..]); }
  }

  // ----- changedigits -----

  /** Moves the digits into terms of another power of the same base. */
  method ChangeDigits(x: seq<int>, oldpower: nat, newpower: nat, base: int) returns (result: seq<int>)
    requires base >= 2 && oldpower >= 1 && newpower >= 1 && Canonical(x, Pow(base, oldpower))
    ensures Canonical(result, Pow(base, newpower)) && Val(result, Pow(base, newpower)) == Val(x, Pow(base, oldpower))
  {
    if newpower == oldpower {
      return x;
    }
    result := [];
    var acc, acclen := 0, 0;
    for i := 0 to |x|
      invariant 0 <= acclen < newpower && Moved(result, acc, acclen, x[..i], oldpower, newpower, base)
    {
      assert x[..i + 1] == x[..i] + [x[i]];
      TakeTerm(result, acc, acclen, x[..i], x[i], oldpower, newpower, base);
      acc := acc + x[i] * Pow(base, acclen);
      acclen := acclen + oldpower;
      while acclen >= newpower
        invariant acclen >= 0 && Moved(result, acc, acclen, x[..i + 1], oldpower, newpower, base)
      {
        var d, newterm := DivModRadix(acc, newpower, base);
        GiveTerm(result, acc, acclen, d, newterm, x[..i + 1], oldpower, newpower, base);
        acc := d;
        result := result + [newterm];
        acclen := acclen - newpower;
      }
    }
    assert x[..|x|] == x;
    LastTerm(result, acc, acclen, x, oldpower, newpower, base);
    result := result + [acc];
    StripCanonical(result, Pow(base, newpower));
    result := StripZeros(result);
  }

  /** The digits of x are in result and, the last acclen of them, in acc. */
  ghost predicate Moved(result: seq<int>, acc: int, acclen: nat, x: seq<int>, oldpower: nat, newpower: nat, base: int) {
    && newpower * |result| + acclen == oldpower * |x|
    && Digits(result, Pow(base, newpower)) && 0 <= acc < Pow(base, acclen)
    && Val(result, Pow(base, newpower)) + Pow(Pow(base, newpower), |result|) * acc == Val(x, Pow(base, oldpower))
  }

  method DivModRadix(acc: nat, newpower: nat, base: int) returns (d: int, m: int)
    requires base >= 2 && newpower >= 1
    ensures acc == Pow(base, newpower) * d + m && 0 <= m < Pow(base, newpower) && d >= 0
  {
    SquareRadix(base, newpower);
    d, m := DivMod(acc, Pow(base, newpower));
  }

  lemma {:induction false} TakeTerm(result: seq<int>, acc: int, acclen: nat, x: seq<int>, term: int,
                                    oldpower: nat, newpower: nat, base: int)
    requires base >= 2 && oldpower >= 1 && newpower >= 1 && 0 <= term < Pow(base, oldpower)
    requires Moved(result, acc, acclen, x, oldpower, newpower, base)
    ensures Moved(result, acc + term * Pow(base, acclen), acclen + oldpower, x + [term], oldpower, newpower, base)
  {
    var (p, NEW, OLD) := (Pow(base, acclen), Pow(base, newpower), Pow(base, oldpower));
    Distrib(oldpower, |x|, 1);
    PowAdd(base, acclen, oldpower);
    PowPos(base, acclen);
    MulMono(p, term, OLD - 1);
    DistribSub(p, OLD, 1);
    MulMono(p, 0, term);
    ValAppend(x, [term], OLD);
    ValOne(term, OLD);
    PowMul(base, newpower, |result|);
    PowMul(base, oldpower, |x|);
    PowAdd(base, newpower * |result|, acclen);
    Distrib(Pow(NEW, |result|), acc, term * p);
    Assoc(Pow(NEW, |result|), p, term);
  }

  lemma {:induction false} GiveTerm(result: seq<int>, acc: int, acclen: nat, d: int, m: int, x: seq<int>,
                                    oldpower: nat, newpower: nat, base: int)
    requires base >= 2 && newpower >= 1 && acclen >= newpower
    requires acc == Pow(base, newpower) * d + m && 0 <= m < Pow(base, newpower) && d >= 0
    requires Moved(result, acc, acclen, x, oldpower, newpower, base)
    ensures Moved(result + [m], d, acclen - newpower, x, oldpower, newpower, base)
  {
    var NEW := Pow(base, newpower);
    AppendDigit(result, NEW, acc, d, m);
    Distrib(newpower, |result|, 1);
    PowAdd(base, newpower, acclen - newpower);
    if d >= Pow(base, acclen - newpower) { MulMono(NEW, Pow(base, acclen - newpower), d); }
  }

  lemma {:induction false} LastTerm(result: seq<int>, acc: int, acclen: nat, x: seq<int>,
                                    oldpower: nat, newpower: nat, base: int)
    requires base >= 2 && acclen < newpower && Moved(result, acc, acclen, x, oldpower, newpower, base)
    ensures Digits(result + [acc], Pow(base, newpower))
    ensures Val(result + [acc], Pow(base, newpower)) == Val(x, Pow(base, oldpower))
  {
    ValAppend(result, [acc], Pow(base, newpower));
    ValOne(acc, Pow(base, newpower));
    PowMono(base, acclen, newpower);
  }

  // ----- round trips -----

  /** A change of radix and the change back restore the terms. */
  method ThereAndBack(x: seq<int>, oldpower: nat, newpower: nat, base: int) returns (z: seq<int>)
    requires base >= 2 && oldpower >= 1 && newpower >= 1 && Canonical(x, Pow(base, oldpower))
    ensures z == x
  {
    var y := ChangeDigits(x, oldpower, newpower, base);
    z := ChangeDigits(y, newpower, oldpower, base);
    SquareRadix(base, oldpower);
    CanonicalUnique(z, x, Pow(base, oldpower));
  }

  /** From terms to a number and back to terms, by the slow conversion. */
  method TermsToNumberAndBack(x: seq<int>, power: nat, base: int) returns (z: seq<int>)
    requires base >= 2 && power >= 1 && Canonical(x, Pow(base, power))
    ensures z == x
  {
    SquareRadix(base, power);
    DigitsVal(x, Pow(base, power));
    var n := ToLong2(x, power, base);
    z := FromLong(n, Pow(base, power));
    CanonicalUnique(z, x, Pow(base, power));
  }

  /** From terms to a number and back by the fast conversion: restored exactly if the digit estimate suffices. */
  method TermsToNumberAndBack2(x: seq<int>, power: nat, base: int, declen: nat) returns (z: seq<int>)
    requires base >= 2 && power >= 1 && Canonical(x, Pow(base, power))
    ensures z == x <==> Val(x, Pow(base, power)) < Pow(base, 2 * TopLength(declen, power))
  {
    SquareRadix(base, power);
    DigitsVal(x, Pow(base, power));
    var n := ToLong2(x, power, base);
    z := FromLong2(n, power, base, declen);
    if Canonical(z, Pow(base, power)) { CanonicalUnique(z, x, Pow(base, power)); }
  }

  /** The fast conversion gives the list of the slow one exactly if the digit estimate suffices. */
  method BothConversions(n: nat, power: nat, base: int, declen: nat) returns (fast: seq<int>, slow: seq<int>)
    requires base >= 2 && power >= 1
    ensures fast == slow <==> n < Pow(base, 2 * TopLength(declen, power))
  {
    SquareRadix(base, power);
    fast := FromLong2(n, power, base, declen);
    slow := FromLong(n, Pow(base, power));
    if Canonical(fast, Pow(base, power)) { CanonicalUnique(fast, slow, Pow(base, power)); }
  }
}
