/** The class DecInt: signed integers of any size, as lists of decimal digit groups. */
module DecInts {
  import opened Arith
  import opened Poly
  import opened Modular
  import opened FastMultiply
  import opened Division
  import opened Radix
  import opened FastDivision
  import opened Wrappers

  const BASE := 10

  /** Below this number of terms products are computed by kmult (100 without gmpy). */
  const KMULT_THRESHOLD := 50

  // ----- the loops of _normalize -----

  /** Turns a carry of either sign into further terms; only the last of them may be negative. */
  method AppendCarry(x: seq<int>, carry0: int, R: int) returns (y: seq<int>)
    requires R >= 2 && x != [] && Digits(x, R)
    ensures y != [] && Digits(y[..|y| - 1], R) && -R < y[|y| - 1] < R
    ensures Val(y, R) == Val(x, R) + Pow(R, |x|) * carry0
  {
    var carry := carry0;
    y := x;
    while carry >= R || -carry >= R
      invariant y != [] && Digits(y, R) && Val(y, R) + Pow(R, |y|) * carry == Val(x, R) + Pow(R, |x|) * carry0
      decreases if carry < 0 then -carry else carry
    {
      var d, m := DivMod(carry, R);
      AppendDigit(y, R, carry, d, m);
      QuotientShrinks(carry, R, d, m);
      y, carry := y + [m], d;
    }
    if carry != 0 {
      AppendDigit(y, R, carry, 0, carry);
      y := y + [carry];
    }
  }

  lemma {:induction false} QuotientShrinks(n: int, R: int, d: int, m: int)
    requires R >= 2 && n == R * d + m && 0 <= m < R && (n >= R || -n >= R)
    ensures n > 0 ==> 0 <= d < n
    ensures n < 0 ==> n < d < 0
  {
    if n > 0 {
      if d >= n { MulMono(R, n, d); MulMono(n, 2, R); }
    } else {
      if d >= 0 { MulMono(R, 0, d); }
      if d <= n { MulMono(R, d, n); MulMono(-n, 2, R); }
    }
  }

  /** The radix complement: the digits of minus the value. */
  method Complement(x: seq<int>, R: int) returns (y: seq<int>)
    requires R >= 2 && -Pow(R, |x|) < Val(x, R) < 0
    ensures |y| == |x| && Digits(y, R) && Val(y, R) == -Val(x, R)
  {
    var borrow := 1;
    y := [];
    for i := 0 to |x|
      invariant |y| == i && Digits(y, R) && Val(y, R) + Pow(R, i) * borrow == Pow(R, i) - Val(x[..i], R)
    {
      var d, m := DivMod(R - 1 + borrow - x[i], R);
      ComplementStep(x, y, i, R, borrow, d, m);
      y, borrow := y + [m], d;
    }
    assert x[..|x|] == x;
    DigitsVal(y, R);
    LastBorrow(Val(y, R), Pow(R, |x|), borrow, -Val(x, R));
  }

  lemma {:induction false} ComplementStep(x: seq<int>, y: seq<int>, i: nat, R: int, borrow: int, d: int, m: int)
    requires |y| == i < |x| && R - 1 + borrow - x[i] == R * d + m
    requires Val(y, R) + Pow(R, i) * borrow == Pow(R, i) - Val(x[..i], R)
    ensures Val(y + [m], R) + Pow(R, i + 1) * d == Pow(R, i + 1) - Val(x[..i + 1], R)
  {
    AppendDigit(y, R, R - 1 + borrow - x[i], d, m);
    assert x[..i + 1] == x[..i] + [x[i]];
    ValAppend(x[..i], [x[i]], R);
    ValOne(x[i], R);
    ComplementSum(Pow(R, i), R, borrow, x[i]);
  }

  lemma {:induction false} ComplementSum(p: int, R: int, borrow: int, t: int)
    ensures p * (R - 1 + borrow - t) == R * p - p + p * borrow - p * t
  {}

  lemma {:induction false} LastBorrow(low: int, p: int, borrow: int, v: int)
    requires 0 <= low < p && low + p * borrow == p + v && 0 < v < p
    ensures low == v
  {
    if borrow >= 2 { MulMono(p, 2, borrow); }
    if borrow <= 0 { MulMono(p, borrow, 0); }
  }

  /** The value is negative exactly when the last term is. */
  lemma {:induction false} LastTermSign(y: seq<int>, R: int)
    requires R >= 2 && y != [] && Digits(y[..|y| - 1], R) && -R < y[|y| - 1] < R
    ensures -Pow(R, |y|) < Val(y, R)
    ensures Val(y, R) < 0 <==> y[|y| - 1] < 0
  {
    var k := |y| - 1;
    ValSplit(y, k, R);
    assert y[k..] == [y[k]];
    ValOne(y[k], R);
    DigitsVal(y[..k], R);
    var p := Pow(R, k);
    if y[k] < 0 { MulMono(p, y[k], -1); } else { MulMono(p, 0, y[k]); }
    MulMono(p, -R + 1, y[k]);
    assert p * (-R + 1) == -(R * p) + p;
  }

  lemma {:induction false} StripLast(y: seq<int>, R: int)
    requires R >= 2 && y != [] && Digits(y[..|y| - 1], R) && -R < y[|y| - 1] < R
    ensures var s := Strip(y);
            s != [] && Digits(s[..|s| - 1], R) && -R < s[|s| - 1] < R && (|s| > 1 ==> s[|s| - 1] != 0)
  {
    StripShape(y);
    var s := Strip(y);
    forall i | 0 <= i < |s| - 1 ensures 0 <= s[i] < R { assert s[i] == y[..|y| - 1][i]; }
    if |s| < |y| { assert s[|s| - 1] == y[..|y| - 1][|s| - 1]; }
  }

  /** Carries, then the complement if the last term came out negative. */
  method AbsoluteDigits(x: seq<int>, R: int) returns (digits: seq<int>, negative: bool)
    requires R >= 2 && x != []
    ensures Canonical(digits, R) && (negative <==> Val(x, R) < 0)
    ensures Val(digits, R) == if negative then -Val(x, R) else Val(x, R)
  {
    var carry;
    digits, carry := CarryPass(x, R);
    digits := AppendCarry(digits, carry, R);
    StripLast(digits, R);
    StripVal(digits, R);
    digits := StripZeros(digits);
    LastTermSign(digits, R);
    negative := digits[|digits| - 1] < 0;
    if negative {
      digits := Complement(digits, R);
      StripCanonical(digits, R);
      digits := StripZeros(digits);
    } else {
      LastIsDigit(digits, R);
    }
  }

  lemma {:induction false} LastIsDigit(y: seq<int>, R: int)
    requires y != [] && Digits(y[..|y| - 1], R) && 0 <= y[|y| - 1] < R
    ensures Digits(y, R)
  {
    forall i | 0 <= i < |y| ensures 0 <= y[i] < R { if i < |y| - 1 { assert y[i] == y[..|y| - 1][i]; } }
  }

  lemma {:induction false} FlipSign(s: int, v: int)
    ensures (-1 * s) * -v == s * v
  {}

  // ----- integer facts -----

  /** Floor division: the remainder has the sign of the divisor. */
  ghost predicate IsFloorDivision(a: int, b: int, q: int, r: int) {
    a == q * b + r && (if b > 0 then 0 <= r < b else b < r <= 0)
  }

  /** The quotient and the remainder of Python's divmod. */
  lemma {:induction false} FloorDivisionUnique(a: int, b: int, q: int, r: int)
    requires b != 0 && IsFloorDivision(a, b, q, r)
    ensures b > 0 ==> q == a / b && r == a % b
    ensures b < 0 ==> q == -a / -b && r == -(-a % -b)
  {
    if b > 0 {
      DivUnique(a, b, q, r);
    } else {
      assert -a == -b * q + -r;
      DivUnique(-a, -b, q, -r);
    }
  }

  ghost predicate IsResidue(a: int, m: int, r: int) {
    Cong(r, a, m) && if m > 0 then 0 <= r < m else m < r <= 0
  }

  lemma {:induction false} ResidueUnique(a: int, m: int, r: int)
    requires m != 0 && IsResidue(a, m, r)
    ensures m > 0 ==> r == a % m
    ensures m < 0 ==> r == -(-a % -m)
  {
    var k := CongElim(r, a, m);
    assert a == -k * m + r;
    FloorDivisionUnique(a, m, -k, r);
  }

  // ----- element-wise sums of lists of different lengths -----

  lemma {:induction false} SumTerms(x: seq<int>, y: seq<int>, R: int)
    requires |x| >= |y|
    ensures Val(Add(x[..|y|], y) + x[|y|..], R) == Val(x, R) + Val(y, R)
    ensures Val(Sub(x[..|y|], y) + x[|y|..], R) == Val(x, R) - Val(y, R)
  {
    ValSplit(x, |y|, R);
    ValAppend(Add(x[..|y|], y), x[|y|..], R);
    ValAppend(Sub(x[..|y|], y), x[|y|..], R);
    ValAdd(x[..|y|], y, R);
    ValSub(x[..|y|], y, R);
  }

  /** Adds one; the carry stops at the first term that can take it. */
  method Increment(x: seq<int>, R: int) returns (y: seq<int>)
    requires R >= 2 && Canonical(x, R)
    ensures Canonical(y, R) && Val(y, R) == Val(x, R) + 1
  {
    var carry, index := 1, 0;
    y := x;
    assert Pow(R, 0) == 1;
    while carry != 0 && index < |y|
      invariant 0 <= index <= |y| == |x| && 0 <= carry <= 1 && Digits(y, R) && y[index..] == x[index..]
      invariant Val(y, R) + Pow(R, index) * carry == Val(x, R) + 1
      invariant carry == 0 ==> |y| == 1 || y[|y| - 1] != 0
    {
      var d, m := DivMod(y[index] + carry, R);
      IncrementStep(y, index, carry, d, m, R);
      y := y[index := m];
      carry, index := d, index + 1;
    }
    if carry != 0 {
      ValAppend(y, [carry], R);
      ValOne(carry, R);
      y := y + [carry];
    }
  }

  lemma {:induction false} IncrementStep(y: seq<int>, i: nat, carry: int, d: int, m: int, R: int)
    requires R >= 2 && i < |y| && 0 <= y[i] < R && 0 <= carry <= 1 && y[i] + carry == R * d + m && 0 <= m < R
    ensures 0 <= d <= 1 && (d == 0 ==> m == y[i] + carry)
    ensures Val(y[i := m], R) + Pow(R, i + 1) * d == Val(y, R) + Pow(R, i) * carry
  {
    if d >= 2 { MulMono(R, 2, d); }
    if d <= -1 { MulMono(R, d, -1); }
    ValSplit(y, i, R);
    ValSplit(y[i := m], i, R);
    var t := y[i + 1..];
    assert y[i..] == [y[i]] + t && y[i := m][i..] == [m] + t && y[i := m][..i] == y[..i];
    assert ([y[i]] + t)[1..] == t && ([m] + t)[1..] == t;
    var (p, v) := (Pow(R, i), R * Val(t, R));
    Distrib(p, y[i], v);
    Distrib(p, m, v);
    Assoc(p, R, d);
    Distrib(p, R * d, m);
    Distrib(p, y[i], carry);
    assert Pow(R, i + 1) == R * p;
  }

  datatype NumberError = ZeroDivisionError | TypeError

  class DecInt {
    /** Groups of decimal digits, least significant group first. */
    var terms: seq<int>
    /** +1 or -1; 0 for NaN, which no operation accepts. */
    var sign: int
    /** The number of decimal digits in a term. */
    var power: nat

    ghost function Radix(): int
      reads this
    {
      Pow(BASE, power)
    }

    ghost predicate Valid()
      reads this
    {
      && (sign == 1 || sign == -1) && power >= 1 && Canonical(terms, Radix())
    }

    ghost function Value(): int
      reads this
    {
      sign * Val(terms, Radix())
    }

    /** DecInt(): not a number yet. */
    constructor ()
      ensures terms == [] && sign == 0
    {
      terms, sign, power := [], 0, 250;
    }

    /** DecInt(n, power); declen is the estimate of the number of decimal digits of n. */
    constructor FromInt(n: int, power: int, declen: nat)
      requires -Pow(BASE, declen) < n < Pow(BASE, declen)
      ensures Valid() && Value() == n && this.power == LegalPower(power) && sign == (if n < 0 then -1 else 1)
    {
      sign := if n < 0 then -1 else 1;
      this.power := LegalPower(power);
      terms := [];
      new;
      var digits := FromLong2(if n < 0 then -n else n, this.power, BASE, declen);
      terms := digits;
      TopLengthReaches(declen, this.power);
      PowMono(BASE, declen, 2 * TopLength(declen, this.power));
    }

    method IsNonzero() returns (b: bool)
      requires Valid()
      ensures b <==> Value() != 0
      ensures b <==> terms != [0]
    {
      RadixLarge(power);
      CanonicalVal(terms, Radix());
      b := !(|terms| == 1 && terms[0] == 0);
    }

    /** Changes the number of digits per term in place; the number stays the same. */
    method ChangeRadix(newpower: nat)
      requires Valid() && newpower >= 1
      modifies this`terms, this`power
      ensures Valid() && power == newpower && Value() == old(Value())
      ensures newpower == old(power) ==> terms == old(terms)
    {
      if newpower != power {
        var digits := ChangeDigits(terms, power, newpower, BASE);
        terms, power := digits, newpower;
      }
    }

    /** Any terms become digits; the sign flips exactly when their value is negative. */
    method Normalize()
      requires terms != [] && (sign == 1 || sign == -1) && power >= 1
      modifies this`terms, this`sign
      ensures Valid() && Value() == old(Value())
      ensures sign == (if old(Val(terms, Radix())) < 0 then -old(sign) else old(sign))
    {
      RadixLarge(power);
      var digits, negative := AbsoluteDigits(terms, Pow(BASE, power));
      FlipSign(sign, Val(terms, Radix()));
      if negative {
        sign := -1 * sign;
      }
      terms := digits;
    }

    /** What every operator does first: an operand of another radix is converted in place. */
    method Align(other: DecInt)
      requires Valid() && other.Valid()
      modifies other`terms, other`power
      ensures Aligned(other)
    {
      other.ChangeRadix(power);
    }

    /**
      The operand has the radix of this number now, and is the same number as before, with the same
      terms if it had this radix already.
    */
    twostate predicate Aligned(other: DecInt)
      reads this, other
    {
      && Valid() && power == old(power) && Value() == old(Value())
      && other.Valid() && other.power == power && other.sign == old(other.sign) && other.Value() == old(other.Value())
      && (old(other.power) == power ==> other.terms == old(other.terms))
    }

    method Add(other: DecInt) returns (result: DecInt)
      requires Valid() && other.Valid()
      modifies other`terms, other`power
      ensures Aligned(other) && fresh(result) && result.Valid() && result.power == power
      ensures result.Value() == Value() + other.Value() && (result.Value() == 0 ==> result.sign == 1)
    {
      Align(other);
      result := AddAligned(other);
    }

    method AddAligned(other: DecInt) returns (result: DecInt)
      requires Valid() && other.Valid() && power == other.power
      ensures fresh(result) && result.Valid() && result.power == power
      ensures result.Value() == Value() + other.Value() && (result.Value() == 0 ==> result.sign == 1)
    {
      var a, b := this, other;
      if |a.terms| < |b.terms| {
        a, b := b, a;
      }
      result := new DecInt();
      SumTerms(a.terms, b.terms, a.Radix());
      if a.sign == b.sign {
        result.terms := Poly.Add(a.terms[..|b.terms|], b.terms);
      } else {
        result.terms := Sub(a.terms[..|b.terms|], b.terms);
      }
      result.terms := result.terms + a.terms[|b.terms|..];
      result.sign := a.sign;
      result.power := a.power;
      SignedSum(a.sign, b.sign, Val(a.terms, a.Radix()), Val(b.terms, a.Radix()));
      result.Normalize();
      var nonzero := result.IsNonzero();
      if !nonzero {
        result.sign := 1;
      }
    }

    /**
      The sign of other is flipped for the time of an addition. For two distinct objects this
      computes the difference; for one object as both operands it does not, unless it is zero.
    */
    method Subtract(other: DecInt) returns (result: DecInt)
      requires Valid() && other.Valid()
      modifies other`terms, other`power, other`sign
      ensures Aligned(other) && fresh(result) && result.Valid() && result.power == power
      ensures result.Value() == (if this != other then Value() - other.Value() else -2 * Value())
      ensures result.Value() == Value() - other.Value() <==> this != other || Value() == 0
      ensures result.Value() == 0 ==> result.sign == 1
    {
      Align(other);
      result := SubtractAligned(other);
    }

    method SubtractAligned(other: DecInt) returns (result: DecInt)
      requires Valid() && other.Valid() && power == other.power
      modifies other`sign
      ensures fresh(result) && result.Valid() && result.power == power && other.sign == old(other.sign)
      ensures result.Value() == (if this != other then Value() - other.Value() else -2 * Value())
      ensures result.Value() == 0 ==> result.sign == 1
    {
      ghost var v := other.Value();
      other.sign := -other.sign;
      assert other.Value() == -v;
      result := AddAligned(other);
      other.sign := -other.sign;
    }

    method Multiply(other: DecInt) returns (result: DecInt)
      requires Valid() && other.Valid()
      modifies other`terms, other`power
      ensures Aligned(other) && fresh(result) && result.Valid() && result.power == power
      ensures result.Value() == Value() * other.Value() && (result.Value() == 0 ==> result.sign == 1)
    {
      Align(other);
      if |terms| < |other.terms| {
        result := other.TimesShorter(this);
        Commuted(Value(), other.Value());
      } else {
        result := TimesShorter(other);
      }
      var nonzero := result.IsNonzero();
      if !nonzero {
        result.sign := 1;
      }
    }

    /** The product with the shorter number, whose zero may still have a sign. */
    method TimesShorter(other: DecInt) returns (result: DecInt)
      requires Valid() && other.Valid() && power == other.power
      ensures fresh(result) && result.Valid() && result.power == power
      ensures result.Value() == Value() * other.Value()
    {
      result := new DecInt();
      var product := FastMult(terms, other.terms, Pow(BASE, power), KMULT_THRESHOLD);
      ValConv(terms, other.terms, Radix());
      SignedProduct(sign, other.sign, Val(terms, Radix()), Val(other.terms, Radix()));
      ghost var v := Value() * other.Value();
      result.terms, result.power, result.sign := product, power, sign * other.sign;
      assert result.Value() == v;
      result.Normalize();
    }

    method Square() returns (result: DecInt)
      requires Valid()
      ensures fresh(result) && result.Valid() && result.power == power
      ensures result.Value() == Value() * Value() && result.sign == 1
    {
      result := new DecInt();
      result.terms := FastSquare(terms, Pow(BASE, power));
      result.power := power;
      result.sign := 1;
      ValConv(terms, terms, Radix());
      SignedProduct(sign, sign, Val(terms, Radix()), Val(terms, Radix()));
      SquareSign(Val(terms, Radix()));
      result.Normalize();
      var nonzero := result.IsNonzero();
      if !nonzero {
        result.sign := 1;
      }
    }

    /** Floor division: the quotient and remainder of absolute values are corrected for the signs. */
    method DivMod(other: DecInt) returns (result: Result<(DecInt, DecInt), NumberError>)
      requires Valid() && other.Valid()
      modifies other`terms, other`power
      ensures Aligned(other)
      ensures other.Value() == 0 <==> result == Err(ZeroDivisionError)
      ensures other.Value() != 0 ==> result.Ok? && fresh(result.value.0) && fresh(result.value.1)
      ensures result.Ok? ==> result.value.0.Valid() && result.value.0.power == power
      ensures result.Ok? ==> result.value.1.Valid() && result.value.1.power == power
      ensures result.Ok? ==> IsFloorDivision(Value(), other.Value(), result.value.0.Value(), result.value.1.Value())
      ensures result.Ok? && result.value.0.Value() == 0 ==> result.value.0.sign == (if sign == other.sign then 1 else -1)
      ensures result.Ok? && result.value.1.Value() == 0 ==> result.value.1.sign == (if sign == other.sign then sign else 1)
    {
      Align(other);
      var nonzero := other.IsNonzero();
      if !nonzero {
        return Err(ZeroDivisionError);
      }
      var quot, rmdr := DivModAligned(other);
      result := Ok((quot, rmdr));
    }

    method DivModAligned(other: DecInt) returns (quot: DecInt, rmdr: DecInt)
      requires Valid() && other.Valid() && power == other.power && other.Value() != 0 && other.terms != [0]
      ensures fresh(quot) && fresh(rmdr) && quot.Valid() && rmdr.Valid() && quot.power == rmdr.power == power
      ensures IsFloorDivision(Value(), other.Value(), quot.Value(), rmdr.Value())
      ensures quot.sign == (if sign == other.sign then 1 else -1)
      ensures rmdr.Value() == 0 ==> rmdr.sign == (if sign == other.sign then sign else 1)
    {
      quot := new DecInt();
      rmdr := new DecInt();
      quot.power, rmdr.power := power, power;
      quot.sign, quot.terms, rmdr.sign, rmdr.terms := SignedDivision(sign, terms, other.sign, other.terms, power);
    }

    /**
      Left-to-right square and multiply; a modulus equal to zero counts as none. The modulus may be
      converted to the radix of the result, and so is a base with one digit per term.
    */
    method Power(n: int, modulo: DecInt?) returns (result: Result<DecInt, NumberError>)
      requires Valid() && (modulo != null ==> modulo.Valid())
      modifies this`terms, this`power
      modifies if modulo == null then {} else {modulo}
      ensures Valid() && Value() == old(Value())
      ensures old(power) >= 2 ==> power == old(power) && terms == old(terms)
      ensures result.Ok? ==> fresh(result.value) && result.value.power == LegalPower(old(power))
      ensures modulo != null ==> modulo.Valid() && modulo.Value() == old(modulo.Value())
      ensures n <= 0 <==> result == Err(TypeError)
      ensures n >= 1 ==> result.Ok? && result.value.Valid()
      ensures n >= 1 && (modulo == null || modulo.Value() == 0) ==> result.value.Value() == Pow(Value(), n)
      ensures n >= 1 && modulo != null && modulo.Value() != 0 ==>
        IsResidue(Pow(Value(), n), modulo.Value(), result.value.Value())
    {
      if n <= 0 {
        return Err(TypeError);
      }
      var mask := TopBit(n);
      var reduce := false;
      if modulo != null {
        reduce := modulo.IsNonzero();
      }
      var r;
      if reduce {
        r := PowerMod(n, mask, modulo);
      } else {
        r := PlainPower(n, mask);
      }
      result := Ok(r);
    }

    /** The step for one bit of the exponent. */
    method SquareTimes(bit: bool, x: DecInt) returns (result: DecInt)
      requires Valid() && x.Valid() && this != x
      modifies x`terms, x`power
      ensures fresh(result) && result.Valid() && result.power == power
      ensures x.Valid() && x.Value() == old(x.Value())
      ensures old(x.power) == power ==> x.power == power && x.terms == old(x.terms)
      ensures result.Value() == (if bit then (Value() * Value()) * x.Value() else Value() * Value())
    {
      result := Square();
      if bit {
        result := result.Multiply(x);
      }
    }

    method PlainPower(n: nat, mask0: nat) returns (result: DecInt)
      requires Valid() && IsTopBit(n, mask0)
      modifies this`terms, this`power
      ensures Valid() && Value() == old(Value()) && (old(power) >= 2 ==> power == old(power) && terms == old(terms))
      ensures fresh(result) && result.Valid() && result.Value() == Pow(Value(), n)
      ensures result.power == LegalPower(old(power))
    {
      var mask := mask0;
      result := new DecInt.FromInt(1, power, 1);
      ghost var (p, x) := (0, Value());
      while mask != 0
        invariant Bits(n, mask, p) && Valid() && Value() == x
        invariant fresh(result) && result.Valid() && result.Value() == Pow(x, p)
        invariant result.power == LegalPower(old(power)) && (old(power) >= 2 ==> power == old(power) && terms == old(terms))
        decreases mask
      {
        ghost var was := p;
        var bit;
        bit, p := NextBit(n, mask, p);
        SquareMultiply(x, was, bit);
        result := result.SquareTimes(bit == 1, this);
        mask := mask / 2;
      }
    }

    method PowerMod(n: nat, mask0: nat, modulo: DecInt) returns (result: DecInt)
      requires Valid() && IsTopBit(n, mask0) && modulo.Valid() && modulo.Value() != 0
      modifies this`terms, this`power, modulo`terms, modulo`power
      ensures Valid() && Value() == old(Value()) && (old(power) >= 2 ==> power == old(power) && terms == old(terms))
      ensures modulo.Valid() && modulo.Value() == old(modulo.Value())
      ensures fresh(result) && result.Valid() && IsResidue(Pow(Value(), n), modulo.Value(), result.Value())
      ensures result.power == LegalPower(old(power))
    {
      var mask := mask0;
      result := new DecInt.FromInt(1, power, 1);
      ghost var (p, x, m) := (0, Value(), modulo.Value());
      CongRefl(1, m);
      while mask != 0
        invariant Bits(n, mask, p) && Valid() && Value() == x && modulo.Valid() && modulo.Value() == m
        invariant fresh(result) && result.Valid() && Cong(result.Value(), Pow(x, p), m)
        invariant result.power == LegalPower(old(power)) && (old(power) >= 2 ==> power == old(power) && terms == old(terms))
        invariant mask == mask0 || IsResidue(Pow(x, p), m, result.Value())
        decreases mask
      {
        ghost var was := p;
        var bit;
        bit, p := NextBit(n, mask, p);
        result := result.ReducedStep(bit, this, modulo, was, x, m);
        mask := mask / 2;
      }
    }

    method ReducedStep(bit: nat, b: DecInt, modulo: DecInt, ghost p: nat, ghost x: int, ghost m: int)
      returns (result: DecInt)
      requires Valid() && b.Valid() && modulo.Valid() && this != b && this != modulo && b.Value() == x && modulo.Value() == m
      requires bit <= 1 && m != 0 && Cong(Value(), Pow(x, p), m)
      modifies b`terms, b`power, modulo`terms, modulo`power
      ensures b.Valid() && b.Value() == x && modulo.Valid() && modulo.Value() == m
      ensures fresh(result) && result.Valid() && IsResidue(Pow(x, 2 * p + bit), m, result.Value())
      ensures result.power == power && (old(b.power) == power ==> b.power == power && b.terms == old(b.terms))
    {
      ghost var v := Value();
      var product := SquareTimes(bit == 1, b);
      SquareMultiplyCong(v, x, p, bit, m, product.Value());
      assert modulo.Valid() && modulo.Value() == m;
      result := product.Remainder(modulo, m, Pow(x, 2 * p + bit));
    }

    /** The remainder by the modulus, which stays in the residue class of t. */
    method Remainder(modulo: DecInt, ghost m: int, ghost t: int) returns (result: DecInt)
      requires Valid() && modulo.Valid() && this != modulo && modulo.Value() == m != 0 && Cong(Value(), t, m)
      modifies modulo`terms, modulo`power
      ensures modulo.Valid() && modulo.Value() == m
      ensures fresh(result) && result.Valid() && IsResidue(t, m, result.Value())
      ensures result.power == modulo.power == power && (old(modulo.power) == power ==> modulo.terms == old(modulo.terms))
    {
      var division := DivMod(modulo);
      result := division.value.1;
      RemainderCong(Value(), division.value.0.Value(), m, result.Value(), t);
    }

    method Equal(other: DecInt) returns (b: bool)
      requires Valid() && other.Valid()
      modifies other`terms, other`power
      ensures Aligned(other) && (b <==> Value() == other.Value())
    {
      Align(other);
      b := EqualAligned(other);
    }

    method EqualAligned(other: DecInt) returns (b: bool)
      requires Valid() && other.Valid() && power == other.power
      ensures b <==> Value() == other.Value()
    {
      RadixLarge(power);
      EqualValues(sign, terms, other.sign, other.terms, Radix());
      if |terms| == |other.terms| == 1 && terms[0] == 0 && other.terms[0] == 0 {
        return true;
      }
      if sign != other.sign || |terms| != |other.terms| {
        return false;
      }
      b := SameTerms(terms, other.terms);
    }

    /** True also for equal positive numbers: exactly then it is not "less than". */
    method Less(other: DecInt) returns (b: bool)
      requires Valid() && other.Valid()
      modifies other`terms, other`power
      ensures Aligned(other) && (b <==> Value() < other.Value() || Value() == other.Value() > 0)
    {
      Align(other);
      b := LessAligned(other);
    }

    method LessAligned(other: DecInt) returns (b: bool)
      requires Valid() && other.Valid() && power == other.power
      ensures b <==> Value() < other.Value() || Value() == other.Value() > 0
    {
      RadixLarge(power);
      ghost var (R, v, w) := (Radix(), Val(terms, Radix()), Val(other.terms, Radix()));
      CanonicalVal(terms, R);
      CanonicalVal(other.terms, R);
      DigitsVal(terms, R);
      DigitsVal(other.terms, R);
      var x := IsNonzero();
      var y := other.IsNonzero();
      if !x {
        return y && other.sign != -1;
      }
      if !y {
        return sign == -1;
      }
      if sign == 1 {
        if other.sign == -1 {
          return false;
        }
        b := Magnitude(terms, other.terms, true, R);
      } else {
        if other.sign == 1 {
          return true;
        }
        b := Magnitude(other.terms, terms, false, R);
      }
    }

    method LessOrEqual(other: DecInt) returns (b: bool)
      requires Valid() && other.Valid()
      modifies other`terms, other`power
      ensures Aligned(other) && (b <==> Value() <= other.Value())
    {
      Align(other);
      var less := LessAligned(other);
      if less {
        return true;
      }
      b := EqualAligned(other);
    }

    method Greater(other: DecInt) returns (b: bool)
      requires Valid() && other.Valid()
      modifies other`terms, other`power
      ensures Aligned(other) && (b <==> Value() > other.Value() || Value() == other.Value() > 0)
    {
      Align(other);
      b := other.LessAligned(this);
    }

    method GreaterOrEqual(other: DecInt) returns (b: bool)
      requires Valid() && other.Valid()
      modifies other`terms, other`power
      ensures Aligned(other) && (b <==> Value() >= other.Value())
    {
      Align(other);
      var less := other.LessAligned(this);
      if less {
        return true;
      }
      b := other.EqualAligned(this);
    }
  }

  /** One minus itself, on one object: the result is minus two. */
  method OneMinusItself() returns (one: DecInt, difference: DecInt)
    ensures one.Valid() && one.Value() == 1 && difference.Valid() && difference.Value() == -2
  {
    assert Pow(BASE, 1) == 10 * Pow(BASE, 0);
    one := new DecInt.FromInt(1, 0, 1);
    difference := one.Subtract(one);
  }

  /** One counts as less than another one. */
  method OneLessThanOne() returns (one: DecInt, another: DecInt, b: bool)
    ensures one.Valid() && another.Valid() && one.Value() == another.Value() == 1 && b
  {
    assert Pow(BASE, 1) == 10 * Pow(BASE, 0);
    one := new DecInt.FromInt(1, 0, 1);
    another := new DecInt.FromInt(1, 0, 1);
    b := one.Less(another);
  }

  // ----- comparison -----

  /** Comparison of lengths, then from the most significant term down; atEnd is the answer for equal lists. */
  method Magnitude(x: seq<int>, y: seq<int>, atEnd: bool, ghost R: int) returns (b: bool)
    requires R >= 2 && Canonical(x, R) && Canonical(y, R)
    ensures b <==> Val(x, R) < Val(y, R) || (atEnd && Val(x, R) == Val(y, R))
  {
    if |x| < |y| {
      LongerIsLarger(x, y, R);
      return true;
    }
    if |x| > |y| {
      LongerIsLarger(y, x, R);
      return false;
    }
    var i := |x|;
    while i > 0
      invariant 0 <= i <= |x| && x[i..] == y[i..]
    {
      i := i - 1;
      if x[i] < y[i] {
        Decides(x, y, i, R);
        return true;
      } else if x[i] > y[i] {
        Decides(y, x, i, R);
        return false;
      }
      assert x[i..] == [x[i]] + x[i + 1..] && y[i..] == [y[i]] + y[i + 1..];
    }
    assert x == x[0..] == y[0..] == y;
    return atEnd;
  }

  /** Term by term, from the first on. */
  method SameTerms(x: seq<int>, y: seq<int>) returns (b: bool)
    requires |x| == |y|
    ensures b <==> x == y
  {
    for i := 0 to |x|
      invariant x[..i] == y[..i]
    {
      if x[i] != y[i] {
        return false;
      }
    }
    assert x == x[..|x|] == y[..|y|] == y;
    return true;
  }

  lemma {:induction false} EqualValues(s: int, x: seq<int>, t: int, y: seq<int>, R: int)
    requires R >= 2 && Canonical(x, R) && Canonical(y, R) && (s == 1 || s == -1) && (t == 1 || t == -1)
    ensures s * Val(x, R) == t * Val(y, R) <==> x == y && (s == t || x == [0])
  {
    DigitsVal(x, R);
    DigitsVal(y, R);
    CanonicalVal(x, R);
    CanonicalVal(y, R);
    if Val(x, R) == Val(y, R) { CanonicalUnique(x, y, R); }
  }

  // ----- division -----

  lemma {:induction false} SameSigns(s: int, X: int, Y: int, Q: int, S: int)
    requires (s == 1 || s == -1) && X == Q * Y + S && 0 <= S < Y
    ensures IsFloorDivision(s * X, s * Y, 1 * Q, s * S)
  {}

  lemma {:induction false} OppositeSigns(t: int, X: int, Y: int, Q: int, S: int)
    requires (t == 1 || t == -1) && X == Q * Y + S && 0 <= S < Y
    ensures S == 0 ==> IsFloorDivision(-t * X, t * Y, -1 * Q, 1 * S)
    ensures S != 0 ==> IsFloorDivision(-t * X, t * Y, -1 * (Q + 1), t * (Y - S))
  {}

  /** Division of the absolute values; for different signs the quotient grows by one and the remainder is flipped. */
  method SignedDivision(s: int, x: seq<int>, t: int, y: seq<int>, power: nat)
    returns (qsign: int, q: seq<int>, rsign: int, r: seq<int>)
    requires (s == 1 || s == -1) && (t == 1 || t == -1) && power >= 1
    requires Canonical(x, Pow(BASE, power)) && Canonical(y, Pow(BASE, power)) && y != [0]
    ensures (qsign == 1 || qsign == -1) && (rsign == 1 || rsign == -1)
    ensures Canonical(q, Pow(BASE, power)) && Canonical(r, Pow(BASE, power))
    ensures var R := Pow(BASE, power); IsFloorDivision(s * Val(x, R), t * Val(y, R), qsign * Val(q, R), rsign * Val(r, R))
    ensures qsign == (if s == t then 1 else -1)
    ensures Val(r, Pow(BASE, power)) == 0 ==> rsign == (if s == t then s else 1)
  {
    var R := Pow(BASE, power);
    RadixLarge(power);
    q, r := FastDiv(x, y, power, BASE, KMULT_THRESHOLD);
    ghost var (X, Y, Q, S) := (Val(x, R), Val(y, R), Val(q, R), Val(r, R));
    if s == t {
      qsign := 1;
      rsign := t;
      SameSigns(s, X, Y, Q, S);
    } else {
      qsign := -1;
      rsign := 1;
      OppositeSigns(t, X, Y, Q, S);
      CanonicalVal(r, R);
      if r != [0] {
        rsign := t;
        q := Increment(q, R);
        r := Remaining(y, r, R);
      }
    }
  }

  /** The new remainder: the divisor less the old one. */
  method Remaining(y: seq<int>, r: seq<int>, R: int) returns (r': seq<int>)
    requires R >= 2 && Canonical(y, R) && Canonical(r, R) && Val(r, R) < Val(y, R)
    ensures Canonical(r', R) && Val(r', R) == Val(y, R) - Val(r, R)
  {
    if |y| < |r| { LongerIsLarger(y, r, R); }
    SumTerms(y, r, R);
    r' := DivNorm(Sub(y[..|r|], r) + y[|r|..], R);
  }

  // ----- exponentiation -----

  ghost predicate IsTopBit(n: nat, mask: nat) {
    mask >= 1 && PowerOfTwo(mask) && mask <= n < 2 * mask
  }

  /** The position of the most significant bit: doubled until it passes n, then halved. */
  method TopBit(n: nat) returns (mask: nat)
    requires n >= 1
    ensures IsTopBit(n, mask)
  {
    mask := 1;
    while mask <= n
      invariant mask >= 1 && PowerOfTwo(mask) && mask <= 2 * n
      decreases 2 * n - mask
    {
      assert (2 * mask) / 2 == mask;
      mask := 2 * mask;
    }
    mask := mask / 2;
  }

  /** p is the part of n above the bits of mask and below. */
  ghost predicate Bits(n: nat, mask: nat, p: nat) {
    if mask == 0 then p == n
    else PowerOfTwo(mask) && Times(p, 2 * mask) <= n < Times(p + 1, 2 * mask)
  }

  /** n & mask, for the next mask */
  method NextBit(n: nat, mask: nat, ghost p: nat) returns (bit: nat, ghost p': nat)
    requires mask != 0 && Bits(n, mask, p)
    ensures bit <= 1 && p' == 2 * p + bit && Bits(n, mask / 2, p')
  {
    ghost var low := n - Times(p, 2 * mask);
    ghost var b := if low >= mask then 1 else 0;
    BitStep(n, mask, p, b, low);
    DivUnique(n, mask, 2 * p + b, low - mask * b);
    bit := (n / mask) % 2;
    p' := 2 * p + bit;
    assert bit == b;
  }

  lemma {:induction false} BitStep(n: nat, mask: nat, p: nat, b: nat, low: int)
    requires mask != 0 && Bits(n, mask, p) && low == n - Times(p, 2 * mask) && b == (if low >= mask then 1 else 0)
    ensures n == mask * (2 * p + b) + (low - mask * b) && 0 <= low - mask * b < mask
    ensures Bits(n, mask / 2, 2 * p + b)
  {
    TimesIsProduct(p, 2 * mask);
    TimesIsProduct(p + 1, 2 * mask);
    SplitBits(n, mask, p, b, low);
    LowerMask(n, mask, 2 * p + b);
  }

  lemma {:induction false} SplitBits(n: int, mask: int, p: int, b: int, low: int)
    requires p * (2 * mask) <= n < (p + 1) * (2 * mask) && low == n - p * (2 * mask) && b == (if low >= mask then 1 else 0)
    ensures n == mask * (2 * p + b) + (low - mask * b) && 0 <= low - mask * b < mask
  {
    Distrib(2 * mask, p, 1);
    Distrib(mask, 2 * p, b);
    assert mask * (2 * p) == p * (2 * mask);
  }

  lemma {:induction false} LowerMask(n: int, mask: nat, q: nat)
    requires mask != 0 && PowerOfTwo(mask) && 0 <= n - mask * q < mask
    ensures Bits(n, mask / 2, q)
  {
    if mask > 1 {
      TimesIsProduct(q, mask);
      TimesIsProduct(q + 1, mask);
      Distrib(mask, q, 1);
      assert 2 * (mask / 2) == mask;
    } else {
      assert 1 * q == q;
    }
  }

  lemma {:induction false} SquareMultiply(x: int, p: nat, b: nat)
    requires b <= 1
    ensures Pow(x, 2 * p) == Pow(x, p) * Pow(x, p)
    ensures Pow(x, 2 * p + b) == (if b == 1 then Pow(x, 2 * p) * x else Pow(x, 2 * p))
  {
    PowAdd(x, p, p);
    Commuted(x, Pow(x, 2 * p));
  }

  lemma {:induction false} SquareMultiplyCong(v: int, x: int, p: nat, b: nat, m: int, r: int)
    requires b <= 1 && Cong(v, Pow(x, p), m) && r == (if b == 1 then (v * v) * x else v * v)
    ensures Cong(r, Pow(x, 2 * p + b), m)
  {
    SquareMultiply(x, p, b);
    CongMul(v, Pow(x, p), v, Pow(x, p), m);
    CongRefl(x, m);
    CongMul(v * v, Pow(x, 2 * p), x, x, m);
  }

  /** Reducing keeps the residue class. */
  lemma {:induction false} RemainderCong(a: int, q: int, m: int, r: int, t: int)
    requires IsFloorDivision(a, m, q, r) && Cong(a, t, m)
    ensures IsResidue(t, m, r)
  {
    CongIntro(a, r, q, m);
    CongSym(a, r, m);
    CongTrans(r, a, t, m);
  }

  /** The power of the radix of a new object: 250, or the larger of 2 and the given number without sign. */
  function LegalPower(power: int): (legal: nat)
    ensures power == 0 ==> legal == 250
    ensures power != 0 ==> legal >= 2 && power <= legal && -power <= legal && (legal == 2 || legal == power || legal == -power)
  {
    if power == 0 then 250 else if -2 < power < 2 then 2 else if power < 0 then -power else power
  }

  lemma {:induction false} RadixLarge(power: nat)
    requires power >= 1
    ensures Pow(BASE, power) >= 10
  {
    PowPos(BASE, power - 1);
  }

  lemma {:induction false} SignedSum(s: int, t: int, a: int, b: int)
    requires (s == 1 || s == -1) && (t == 1 || t == -1)
    ensures s * (if s == t then a + b else a - b) == s * a + t * b
  {}

  lemma {:induction false} SignedProduct(s: int, t: int, a: int, b: int)
    requires (s == 1 || s == -1) && (t == 1 || t == -1)
    ensures (s * t == 1 || s * t == -1) && (s * t) * (a * b) == (s * a) * (t * b)
  {}

  lemma {:induction false} SquareSign(a: int)
    ensures a * a >= 0
  {}
}
