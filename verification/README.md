# Verified models of four SimMobility components

This project models, in Dafny, four pieces of the SimMobility repository and proves what they are for.

1. **DecInt** (`testing/profile_parse/DecInt.py`), a big-integer library over lists of digit groups
   ("terms"): Toom-Cook and Nussbaumer multiplication, Smith's division and the block-deferred
   division `kdiv`, conversion between radices, decimal text, the class `DecInt` on top, and the square root and gcd
   that come with it.
2. **The allocation of confluxes to workers** (`dev/Basic/medium/main_impl.cpp`).
3. **Virtual-ID resolution** in the log comparison script (`testing/compare/compare.rb`).
4. **Polyline bisection** (`testing/pqrne/bisect.py`).

`dafny verify dfyconfig.toml` checks everything.

## How it is organised

| file | contents |
|---|---|
| `Wrappers.dfy`, `Arith.dfy`, `Poly.dfy`, `Modular.dfy` | vocabulary: `Val` (value of a list at a radix), `Conv`, `CycConv`, `NegConv` (schoolbook products), congruences |
| `ToomCook.dfy` | `kmult` and everything below it |
| `Nussbaumer.dfy`, `FastMultiply.dfy` | `neg`, `cyc`, `nussmult`, `fastmult` |
| `Division.dfy`, `FastDivision.dfy` | `remainder_norm`, `divnorm`, `smithdiv`, `kdiv`, `fastdiv` |
| `Radix.dfy` | `tolong2`, `fromlong2`, `changedigits` |
| `DecInt.dfy`, `DecimalText.dfy` | the class `DecInt`; parsing and printing |
| `Algorithms.dfy` | `square_root` and `gcd` |
| `Confluxes.dfy`, `Bisect.dfy` | the allocation and the bisection |
| `VirtualIds.dfy`, `LogFiles.dfy` | `getVirtId`; the resolution rounds, the pairing of two files and the report |

Every fast routine is proved equal to a simple definition: all multiplications to the schoolbook
convolution `Conv` for lists of arbitrary (also negative) integers, all divisions to the one pair of
normal forms with x = q * y + r and 0 <= r < y (`IsDivision`), all conversions to `Val`.

The proof of `kdiv` follows the thresholds of the quotient digits: for every digit the lowest
position from which its products with the divisor have been subtracted. `Unsubtracted` is the value
of the products still to be subtracted; the triangular steps, the partial and the full products
each lower it by exactly what they subtract from the dividend, and `Thresholds`/`Carry` describe the
schedule as binary counting, so that nothing is left when the last full product is done.

## Findings

- `a - a` on one object returns -2a unless a is zero, because `__sub__` flips the sign of `other`
  in place (testing/profile_parse/DecInt.py:2028-2034; `DecInts.DecInt.Subtract` states when the
  difference is right, `DecInts.OneMinusItself` is an instance).
- `__lt__` and `__gt__` answer True for equal positive numbers, and only then wrongly
  (testing/profile_parse/DecInt.py:1926; `DecInts.DecInt.Less`, `DecInts.OneLessThanOne`);
  `__le__` and `__ge__`, which build on them, are right.
- The text "-" or "+" is accepted and gives an object without terms that is not NaN
  (testing/profile_parse/DecInt.py:1657-1675; `DecimalText.LoneSign`).
- A text is converted piece by piece, and each piece may have a sign and spaces of its own, so that
  texts are accepted that are not numbers (testing/profile_parse/DecInt.py:1673-1675).
  `DecimalText.Accepted` says exactly which texts are accepted, `DecimalText.AcceptedNumber` for
  which of them the object is in normal form; `InnerSign` and `InnerSpace` are instances.
- The last loop of `remainder_norm` (subtract while x >= divisor) is never entered
  (testing/profile_parse/DecInt.py:1215-1221; `Division.FixLarge`).
- A division whose operands have different signs gives a zero quotient the sign -1, and one of two
  negative numbers a zero remainder; they print as "-0" (testing/profile_parse/DecInt.py:2149-2154;
  `DecInts.DecInt.DivMod`, `DecimalText.NegativeZero` is an instance).
- `square_root` never ends when x + 1 is a square, because Newton's iteration goes back and forth
  between two numbers, and fails for numbers of one digit, for which it starts with an empty text
  (testing/profile_parse/DecInt.py:2267-2274). `Algorithms.FixedPoint` says exactly when the
  iteration can come to rest; `Algorithms.Fifteen` is an instance.
- A modulus equal to zero is treated by `__pow__` as no modulus
  (testing/profile_parse/DecInt.py:2117; `DecInts.DecInt.Power`).
- The type of a log line becomes part of its virtual ID and is scanned for IDs again; `getVirtId`
  never ends on a text that leads to a type with the ID of its own line, or to a longer cycle of
  such types (testing/compare/compare.rb:74-96; `VirtualIds.OwnKind`, `VirtualIds.NeverEnds`,
  `LogFiles.OwnKindUnsolvable`). `VirtualIds.CanExpandIff` and `LogFiles.ResolutionKinds` say
  exactly when there is a result.
- The report adds the lines that only the new file has to the list of missing lines, and its list
  of extra lines is always empty (testing/compare/compare.rb:192-193; `LogFiles.RunMain`;
  `LogFiles.ReportRight` says when this makes no difference).

## Model

| member | source | states |
|---|---|---|
| ToomCook.DivideTerms | testing/profile_parse/DecInt.py:428-443 | long division by a small number: lst = n * res + rem by value, digits stay digits, and term-wise exact division when every term is a multiple of n |
| ToomCook.ExactDiv | testing/profile_parse/DecInt.py:428-469 | on n times any list w (negative terms included) the carried remainder is always 0 and w comes back, so the `rem == ZERO` assertions hold |
| ToomCook.KMul2x2s | testing/profile_parse/DecInt.py:489-502 | the 2x2 formula is the schoolbook product |
| ToomCook.KMul3x3s | testing/profile_parse/DecInt.py:504-523 | the 3x3 formula is the schoolbook product; its divisions are exact |
| ToomCook.KMul4x4s | testing/profile_parse/DecInt.py:525-569 | the 4x4 formula is the schoolbook product; its divisions are exact |
| ToomCook.KMul2x2l | testing/profile_parse/DecInt.py:571-593 | Karatsuba step on equal lengths, odd lengths padded: the schoolbook product |
| ToomCook.KMul8x8l | testing/profile_parse/DecInt.py:595-608 | the 8x8 special case is the schoolbook product |
| ToomCook.Interpolate3 | testing/profile_parse/DecInt.py:634-638 | solving from the values at 1, -1, 2 recovers the three inner coefficients exactly |
| ToomCook.KMul3x3l | testing/profile_parse/DecInt.py:610-645 | Toom-3 step for 9 to 12 terms: the schoolbook product |
| ToomCook.Interpolate4 | testing/profile_parse/DecInt.py:701-713 | solving from the values at 1, -1, 2, -2, 3 recovers the five inner coefficients exactly |
| ToomCook.NextToLast | testing/profile_parse/DecInt.py:671-721 | after zero trimming the last-but-one coefficient is short enough for the slice it is written into, for every padding |
| ToomCook.KMul4x4l | testing/profile_parse/DecInt.py:647-722 | Toom-4 step for 13 terms and more: the schoolbook product |
| ToomCook.ChunkStep | testing/profile_parse/DecInt.py:792-797 | adding the product of one more chunk with overlap extends the product of the prefix |
| ToomCook.KMultNarrow | testing/profile_parse/DecInt.py:742-779 | the 2xN, 3xN and 4xN loops give the schoolbook product for every N |
| ToomCook.KMultChunks | testing/profile_parse/DecInt.py:791-797 | unequal lengths in chunks of the shorter one: the schoolbook product |
| ToomCook.KMult | testing/profile_parse/DecInt.py:724-797 | for all nonempty lists of any integers and any radix the exact schoolbook product; the recursion terminates |
| Modular.Log2 | testing/profile_parse/DecInt.py:809-816 | the floor of the binary logarithm, exact on powers of two, -1 for 0 |
| Nussbaumer.CycLit | testing/profile_parse/DecInt.py:818-833 | folding the full product gives the cyclic product |
| Nussbaumer.NegLit | testing/profile_parse/DecInt.py:835-850 | folding with sign gives the negacyclic product |
| Nussbaumer.UnPolyMakePoly | testing/profile_parse/DecInt.py:852-866 | `unpoly` of the first m rows of `makepoly` restores the list |
| Nussbaumer.TwistVal | testing/profile_parse/DecInt.py:868-878 | `twist` by any q, also negative, multiplies by x^q modulo x^r + 1 |
| Nussbaumer.TwistAdd | testing/profile_parse/DecInt.py:868-878 | `twist` is additive in q, on the lists themselves |
| Nussbaumer.TwistPeriod | testing/profile_parse/DecInt.py:868-878 | twisting has period 2r |
| Nussbaumer.TwistLinear | testing/profile_parse/DecInt.py:868-878 | twisting is linear |
| Nussbaumer.Butterfly | testing/profile_parse/DecInt.py:908-910 | sum and difference of two rows in place, all other rows unchanged |
| Nussbaumer.ForwardStage | testing/profile_parse/DecInt.py:897-914 | the in-place loops over s, t of one stage compute that stage of the transform |
| Nussbaumer.ForwardEvaluates | testing/profile_parse/DecInt.py:894-915 | entry i of the forward transform is the value at the root of unity that belongs to i |
| Nussbaumer.ForwardAll | testing/profile_parse/DecInt.py:894-915 | the loop over the distances computes the whole forward transform in place |
| Nussbaumer.InverseStage | testing/profile_parse/DecInt.py:921-934 | one inverse stage in place |
| Nussbaumer.UndoStage | testing/profile_parse/DecInt.py:897-934 | an inverse stage undoes a forward stage up to the factor 2 |
| Nussbaumer.Undo | testing/profile_parse/DecInt.py:894-935 | all inverse stages undo all forward stages up to the factor 2m |
| Nussbaumer.InverseAll | testing/profile_parse/DecInt.py:918-935 | the loop over the distances computes the whole inverse transform in place |
| Nussbaumer.FoldRows | testing/profile_parse/DecInt.py:936-943 | the upper rows are folded into the lower ones by y^m = x |
| Nussbaumer.TransformedIsProduct | testing/profile_parse/DecInt.py:880-945 | transform, row products, inverse transform and fold give 2m times the negacyclic product |
| Nussbaumer.ShiftExact | testing/profile_parse/DecInt.py:944-945 | shifting 2^n times a list right by n bits gives the list back |
| Nussbaumer.Neg | testing/profile_parse/DecInt.py:880-945 | the schoolbook negacyclic product for every power-of-two length and all integer entries, and for any length up to the cutoff |
| FastMultiply.HalvesConv | testing/profile_parse/DecInt.py:1008-1019 | reducing to half the length, with either sign, commutes with multiplication |
| FastMultiply.Recombine | testing/profile_parse/DecInt.py:1008-1019 | half the sum and difference of the cyclic and the negacyclic half products is the cyclic product |
| FastMultiply.Cyc | testing/profile_parse/DecInt.py:1008-1019 | the schoolbook cyclic product for every power-of-two length |
| FastMultiply.PaddedCyc | testing/profile_parse/DecInt.py:1035-1049 | with the padding of `nussmult` the cyclic product does not wrap |
| FastMultiply.NussMult | testing/profile_parse/DecInt.py:1035-1049 | the schoolbook product of any two nonempty lists |
| FastMultiply.TwoByOne | testing/profile_parse/DecInt.py:1523-1528 | the 2N x N special case gives the schoolbook product |
| FastMultiply.Portions | testing/profile_parse/DecInt.py:1538-1550 | portions of a power-of-two length give the schoolbook product |
| FastMultiply.FastMult | testing/profile_parse/DecInt.py:1498-1550 | every path gives the schoolbook product, for every threshold, and the self-recursion terminates |
| FastMultiply.FastSquare | testing/profile_parse/DecInt.py:1552-1558 | the schoolbook square |
| Division.CanonicalUnique | testing/profile_parse/DecInt.py:380-391 | a number has only one normal form in a radix |
| Division.ToLong | testing/profile_parse/DecInt.py:357-366 | Horner's rule computes the value |
| Division.FromLong | testing/profile_parse/DecInt.py:380-391 | the normal form of the number |
| Division.DivNorm | testing/profile_parse/DecInt.py:1101-1121 | for a list of any integers with non-negative value: the carry is non-negative, and the result is the normal form of the value |
| Division.Ge | testing/profile_parse/DecInt.py:1123-1137 | true exactly if the first value is no less than the second |
| Division.NormPass | testing/profile_parse/DecInt.py:1178-1181 | carry pass with the carry put back on the last term keeps the value |
| Division.CarriedVal | testing/profile_parse/DecInt.py:1178-1192 | the sign of the carry tells exactly whether the value is negative, fits, or is too large |
| Division.StepBounds | testing/profile_parse/DecInt.py:1186-1192 | how far one guessed correction can overshoot or undershoot |
| Division.Shrinks | testing/profile_parse/DecInt.py:1185-1192 | while the remainder overflows, the size of the scale factor shrinks |
| Division.FixOverflow | testing/profile_parse/DecInt.py:1183-1192 | the first loop terminates with a remainder that fits, having added count divisors |
| Division.FixLarge | testing/profile_parse/DecInt.py:1196-1221 | a remainder no smaller than the divisor is reduced below it; the last loop is not entered |
| Division.RemainderNorm | testing/profile_parse/DecInt.py:1139-1226 | for any integer list no longer than a canonical divisor of at least 2 terms, in every radix: value = rem + count * divisor, 0 <= value < divisor, in normal form |
| Division.QuotientStep | testing/profile_parse/DecInt.py:1268-1274 | the identity of long division is kept whatever the guessed digit is |
| Division.IsDivisionMeans | testing/profile_parse/DecInt.py:1228-1279 | quotient and remainder are the integer ones |
| Division.SameDivision | testing/profile_parse/DecInt.py:1228-1493 | all division routines give the same lists, with or without rescaling |
| Division.FinishDivision | testing/profile_parse/DecInt.py:1275-1279 | reversal, remainder correction and borrow turn the long division into normal forms |
| Division.ShortDivision | testing/profile_parse/DecInt.py:1241-1249 | the cases of a longer divisor and of one or two terms |
| Division.SmithDiv | testing/profile_parse/DecInt.py:1228-1279 | normal forms with x = q * y + r and 0 <= r < y for all canonical x and nonzero y, in every radix and for every window size |
| FastDivision.First2Power | testing/profile_parse/DecInt.py:1281-1288 | a power of two that divides the number with an odd cofactor |
| FastDivision.All2Power | testing/profile_parse/DecInt.py:1290-1300 | different powers of two in increasing order with the number as their sum |
| FastDivision.BlocksOfEight | testing/profile_parse/DecInt.py:1446-1452 | for multiples of eight these are blocks of at least eight digits with the right sum |
| FastDivision.NextPower | testing/profile_parse/DecInt.py:1473 | how eight more digits change the lowest power of two in the counter |
| FastDivision.CarryThresholds | testing/profile_parse/DecInt.py:1468-1484 | all blocks that one product covers have the same threshold when it is computed |
| FastDivision.UnsubtractedLow | testing/profile_parse/DecInt.py:1478-1484 | with one threshold the products still missing are the low terms of the convolution |
| FastDivision.ConvSlice | testing/profile_parse/DecInt.py:1483 | the middle terms of the product with 2b terms of the divisor are those of the full product |
| FastDivision.DigitStep | testing/profile_parse/DecInt.py:1459-1467 | a guessed digit with its triangle of products keeps the identity, whatever the digit is |
| FastDivision.BlockStep | testing/profile_parse/DecInt.py:1478-1484 | subtracting a slice of the block product lowers what is missing by exactly that much |
| FastDivision.DigitSteps | testing/profile_parse/DecInt.py:1459-1467 | the triangular loop gives its digits one common threshold |
| FastDivision.FullBlock | testing/profile_parse/DecInt.py:1477-1481 | a full product leaves nothing of the block to be subtracted |
| FastDivision.PartialBlock | testing/profile_parse/DecInt.py:1482-1484 | a partial product lowers the threshold of its block by the block size |
| FastDivision.CounterReaches | testing/profile_parse/DecInt.py:1473-1476 | the counter reaches the next listed size exactly when its lowest power of two equals it |
| FastDivision.RoundDue | testing/profile_parse/DecInt.py:1456-1476 | after the next digits a full product is due exactly if it covers all pending digits |
| FastDivision.DivideInBlocks | testing/profile_parse/DecInt.py:1442-1484 | at the end every product of a quotient digit and a divisor digit has been subtracted exactly once |
| FastDivision.HalfTheTerms | testing/profile_parse/DecInt.py:1426-1440 | the rescaled divisor still has enough terms for the block algorithm |
| FastDivision.KDiv | testing/profile_parse/DecInt.py:1377-1493 | normal forms with x = q * y + r and 0 <= r < y for all canonical x and nonzero y, for every legal new radix |
| FastDivision.FastDiv | testing/profile_parse/DecInt.py:1560-1572 | the same, whichever routine is chosen |
| Radix.PairsVal | testing/profile_parse/DecInt.py:368-378 | joining neighbours keeps the value for the squared radix |
| Radix.ToLong2 | testing/profile_parse/DecInt.py:368-378 | the same number as Horner's rule |
| Radix.SplitAll | testing/profile_parse/DecInt.py:416-425 | splitting all numbers by the root of the radix keeps the value |
| Radix.FromLong2 | testing/profile_parse/DecInt.py:393-426 | always the value of x, and the normal form if and only if twice the largest divisor has enough digits for x |
| Radix.ChangeDigits | testing/profile_parse/DecInt.py:1070-1099 | value and normal form are kept between any two powers of a base |
| Radix.ThereAndBack | testing/profile_parse/DecInt.py:1070-1099 | changing the radix and changing it back restores the terms |
| Radix.TermsToNumberAndBack | testing/profile_parse/DecInt.py:368-391 | terms to a number by squaring, and back digit by digit, restores the terms |
| Radix.TermsToNumberAndBack2 | testing/profile_parse/DecInt.py:368-426 | the same with recursive halving: restored if and only if the digit estimate suffices |
| Radix.BothConversions | testing/profile_parse/DecInt.py:380-426 | recursive halving gives the list of the digit loop if and only if the digit estimate suffices |
| DecInts.AppendCarry | testing/profile_parse/DecInt.py:1984-1988 | a carry of either sign becomes terms with only the last one possibly negative |
| DecInts.Complement | testing/profile_parse/DecInt.py:1995-1998 | the borrow loop turns a negative value into the digits of its absolute value |
| DecInts.AbsoluteDigits | testing/profile_parse/DecInt.py:1981-2000 | any nonempty integer list becomes the normal form of the absolute value; negative tells its sign |
| DecInts.DecInt.FromInt | testing/profile_parse/DecInt.py:1634-1640 | the object has the value of the integer, and zero the sign 1 |
| DecInts.LegalPower | testing/profile_parse/DecInt.py:1599-1614 | the number of digits per term is the larger of 2 and the given one without sign, 250 by default |
| DecInts.DecInt.ChangeRadix | testing/profile_parse/DecInt.py:1820-1832 | the number stays the same when its radix changes in place |
| DecInts.DecInt.Align | testing/profile_parse/DecInt.py:1702-1720 | an operand of another radix is converted in place and stays the same number; one of the same radix keeps its terms |
| DecInts.DecInt.Normalize | testing/profile_parse/DecInt.py:1966-2000 | sign times value unchanged, normal form, sign flipped exactly if the value was negative |
| DecInts.DecInt.Add | testing/profile_parse/DecInt.py:2004-2022 | the sum of numbers of any radices, without negative zero |
| DecInts.DecInt.Subtract | testing/profile_parse/DecInt.py:2028-2034 | the difference if and only if the operands are distinct objects or zero, without negative zero; the sign of other is restored |
| DecInts.OneMinusItself | testing/profile_parse/DecInt.py:2028-2034 | one minus itself is minus two |
| DecInts.DecInt.Multiply | testing/profile_parse/DecInt.py:2045-2063 | the product of numbers of any radices, without negative zero |
| DecInts.DecInt.Square | testing/profile_parse/DecInt.py:2069-2081 | the square |
| DecInts.Increment | testing/profile_parse/DecInt.py:2158-2165 | adding one in place keeps the normal form, also when the carry runs out at the end |
| DecInts.FloorDivisionUnique | testing/profile_parse/DecInt.py:2134-2171 | the law of floor division determines quotient and remainder, for both signs of the divisor |
| DecInts.DecInt.DivMod | testing/profile_parse/DecInt.py:2134-2171 | a = q * b + r with r zero or of the sign of b and smaller, for all four sign combinations, and the signs of zero results; an error exactly for b = 0 |
| DecInts.ResidueUnique | testing/profile_parse/DecInt.py:2118-2124 | the residue that the modular power returns is the one of the integers |
| DecInts.TopBit | testing/profile_parse/DecInt.py:2111-2114 | the position of the most significant bit |
| DecInts.NextBit | testing/profile_parse/DecInt.py:2118-2129 | the tested bit extends the processed prefix of the exponent |
| DecInts.DecInt.PlainPower | testing/profile_parse/DecInt.py:2125-2129 | x^n |
| DecInts.DecInt.PowerMod | testing/profile_parse/DecInt.py:2118-2123 | the residue of x^n, for a modulus of either sign |
| DecInts.DecInt.Power | testing/profile_parse/DecInt.py:2083-2130 | x^n or its residue for all n >= 1, in the radix of x, whose terms do not change; an error exactly for n <= 0; a zero modulus counts as none |
| DecInts.DecInt.Equal | testing/profile_parse/DecInt.py:1868-1882 | true exactly for equal numbers, 0 and -0 included |
| DecInts.DecInt.Less | testing/profile_parse/DecInt.py:1891-1943 | true exactly for smaller numbers and for equal positive ones |
| DecInts.DecInt.Greater | testing/profile_parse/DecInt.py:1952-1957 | true exactly for larger numbers and for equal positive ones |
| DecInts.OneLessThanOne | testing/profile_parse/DecInt.py:1918-1926 | one counts as less than another one |
| DecInts.DecInt.LessOrEqual | testing/profile_parse/DecInt.py:1947-1950 | true exactly for numbers that are less or equal |
| DecInts.DecInt.GreaterOrEqual | testing/profile_parse/DecInt.py:1961-1964 | true exactly for numbers that are greater or equal |
| DecimalText.DigitMeans | testing/profile_parse/DecInt.py:1674-1741 | the ten digits in their order, for reading and for printing |
| DecimalText.SpacesAre | testing/profile_parse/DecInt.py:1652 | the six characters that count as spaces |
| DecimalText.StripSpaceMeans | testing/profile_parse/DecInt.py:1652 | only spaces are stripped, and all of them on both sides |
| DecimalText.ChunksMeans | testing/profile_parse/DecInt.py:1673-1675 | the pieces make up the text, and all but the leftmost have the full length |
| DecimalText.JoinTermsMeans | testing/profile_parse/DecInt.py:1733-1751 | a normal form prints without error as the digits of its value without redundant zeros |
| DecimalText.ChunksValue | testing/profile_parse/DecInt.py:1673-1675 | cutting digits from the right and converting the pieces gives terms with the value of the digits |
| DecimalText.ParseMeans | testing/profile_parse/DecInt.py:1651-1685 | a signed number with spaces around it becomes the normal form of its value, and -0 becomes 0 |
| DecimalText.PrintThenParse | testing/profile_parse/DecInt.py:1646-1751 | parsing the text of any normal form restores sign and terms; only a signed zero loses its sign |
| DecimalText.ParseThenPrint | testing/profile_parse/DecInt.py:1646-1751 | printing what was parsed gives the text without spaces, plus sign, redundant zeros and "-0" |
| DecimalText.NumberIff | testing/profile_parse/DecInt.py:1673-1675 | a piece converts exactly if it is a signed number with spaces around it, and is negative exactly for a minus sign before nonzero digits |
| DecimalText.Accepted | testing/profile_parse/DecInt.py:1646-1679 | a text is accepted if and only if it is NaN, or it is not all spaces, no space follows its sign, and every piece converts |
| DecimalText.AcceptedNumber | testing/profile_parse/DecInt.py:1671-1685 | an accepted text gives a number in normal form if and only if there are digits and no piece is negative |
| DecimalText.LoneSign | testing/profile_parse/DecInt.py:1646-1685 | an object without terms comes out exactly for a lone sign and for NaN, and the sign 0 exactly for NaN |
| DecimalText.InnerSign | testing/profile_parse/DecInt.py:1673-1675 | a text with a minus sign inside is accepted, with a negative term |
| DecimalText.InnerSpace | testing/profile_parse/DecInt.py:1673-1675 | a text with a space inside is accepted as another number |
| DecimalText.ToText | testing/profile_parse/DecInt.py:1733-1751 | the text of a valid object is its value in decimal digits without redundant zeros, after a minus sign if the sign is -1; NaN prints as such |
| DecimalText.FromText | testing/profile_parse/DecInt.py:1646-1685 | a text that describes a number gives a valid object of this value |
| DecimalText.Reparse | testing/profile_parse/DecInt.py:1646-1751 | printing a number and parsing the text, with any number of digits per term, gives the number |
| DecimalText.Twelve | testing/profile_parse/DecInt.py:1646-1751 | the text "12" is the number twelve, and prints as "12" |
| DecimalText.NegativeZero | testing/profile_parse/DecInt.py:2149-2151 | the remainder of -10 by -5 prints as "-0" |
| Algorithms.NewtonBounds | testing/profile_parse/DecInt.py:2271 | no step of the iteration ends below the root, and from above the root every step goes down |
| Algorithms.FixedPoint | testing/profile_parse/DecInt.py:2271-2273 | the iteration comes to rest exactly at the integer square root, and only if x + 1 is no square |
| Algorithms.NeverRests | testing/profile_parse/DecInt.py:2270-2274 | if x + 1 is a square, no two successive values are equal, from any start |
| Algorithms.Fifteen | testing/profile_parse/DecInt.py:2270-2274 | the square root of 15 alternates between 3 and 4 |
| Algorithms.SquareRoot | testing/profile_parse/DecInt.py:2259-2276 | the integer square root of every number of two digits or more with x + 1 no square, and the loop ends; an error exactly for one digit |
| Algorithms.Gcd | testing/profile_parse/DecInt.py:2252-2257 | a greatest common divisor for numbers of any signs, with the sign of the first one; the loop ends |
| Confluxes.WorkGroup.Assign | dev/Basic/medium/main_impl.cpp:113-118 | the conflux leaves the set, gets its mark, and has exactly one worker |
| Confluxes.WorkGroup.AssignConnected | dev/Basic/medium/main_impl.cpp:120-138 | connected confluxes go to the worker as long as the quota lasts; either it is used up or all of them have workers |
| Confluxes.WorkGroup.AssignRecursive | dev/Basic/medium/main_impl.cpp:105-152 | exactly the quota is added (or all that is left) and nothing else changes; what is added is in clusters: a conflux and confluxes connected to it, and a new cluster only when all that are connected to the last one have workers; the recursion terminates |
| Confluxes.WorkGroup.DealAll | dev/Basic/medium/main_impl.cpp:172-183 | every worker gets N / W confluxes, in clusters of those left for it, and one loader; N mod W confluxes are left |
| Confluxes.WorkGroup.DealRest | dev/Basic/medium/main_impl.cpp:184-199 | the round robin gives the first workers one more each, after what they have |
| Confluxes.WorkGroup.AssignConfluxes | dev/Basic/medium/main_impl.cpp:169-200 | every conflux has exactly one worker, every worker one loader, any two loads differ by at most one, and up to its quota each worker has clusters of connected confluxes, for any neighbour sets within the conflux set, any N and any W >= 1 |
| Confluxes.KeptTogether | dev/Basic/medium/main_impl.cpp:120-146 | a worker has all confluxes that are connected to its first one and were without worker, or it has nothing but such confluxes |
| Confluxes.TwoPairs | dev/Basic/medium/main_impl.cpp:169-200 | with two connected pairs and two workers no pair is split |
| Confluxes.LoadsAddUp | dev/Basic/medium/main_impl.cpp:169-200 | the stated loads add up to N |
| VirtualIds.Stable | testing/compare/compare.rb:75-93 | more depth does not change a full expansion |
| VirtualIds.ReplaceOne | testing/compare/compare.rb:84-87 | replacing one ID by its virtual ID changes neither whether there is a full expansion nor which one |
| VirtualIds.CanExpandIff | testing/compare/compare.rb:69-97 | a text has a full expansion if and only if neither a cycle nor an ID without virtual ID can be reached from it |
| VirtualIds.WeightReplaced | testing/compare/compare.rb:74-93 | every replacement takes one off the number of replacements still to come: the scan ends although it restarts at the beginning |
| VirtualIds.GetVirtId | testing/compare/compare.rb:69-97 | if no cycle can be reached the scan ends; it returns nil exactly if there is no full expansion, and otherwise {kind=>x} with the full expansion x |
| VirtualIds.WrapInjective | testing/compare/compare.rb:96 | for one kind, equal virtual IDs come from equal properties |
| VirtualIds.WrapCharacters | testing/compare/compare.rb:96 | the virtual ID of plain text, as text |
| VirtualIds.NeverEnds | testing/compare/compare.rb:74-93 | if only resolved IDs can be reached but there is no full expansion, IDs are left after any number of replacements |
| VirtualIds.OwnKind | testing/compare/compare.rb:84-87 | when a kind contains the ID of its own line, a replacement leaves the ID in place and the scan never ends |
| LogFiles.PlainKinds | testing/compare/compare.rb:130-140 | the condition on kinds holds in particular if no kind contains an ID of the file |
| LogFiles.Settle | testing/compare/compare.rb:140-142 | a line that gets its virtual ID does not disturb the others |
| LogFiles.Duplicate | testing/compare/compare.rb:137 | the duplicate error is raised only for two lines with one ID |
| LogFiles.NoProgress | testing/compare/compare.rb:149-150 | a round without progress means a cycle of references |
| LogFiles.AllDone | testing/compare/compare.rb:124-152 | when all lines are settled the file is resolvable and the equations of the virtual IDs hold |
| LogFiles.Resolve | testing/compare/compare.rb:108-152 | success exactly for zero frames, distinct IDs and acyclic references, each error says which of them fails; then every virtual ID is {kind=>x} with the full expansion x of its properties |
| LogFiles.ResolveTwo | testing/compare/compare.rb:124-152 | the virtual IDs of a line and one that refers to it, character by character |
| LogFiles.SameKind | testing/compare/compare.rb:69-97 | lines of one kind have equal virtual IDs if and only if their full expansions are equal |
| LogFiles.ResolutionAcyclic | testing/compare/compare.rb:124-152 | the equations have a solution only if the references have no cycle |
| LogFiles.ResolutionKinds | testing/compare/compare.rb:124-152 | and only if no cycle of IDs in kinds can be reached |
| LogFiles.OwnKindUnsolvable | testing/compare/compare.rb:130-140 | a file of two lines meets all other conditions but not this one, and has no solution |
| LogFiles.OneResolution | testing/compare/compare.rb:69-97 | the equations have at most one solution: each virtual ID is the full expansion of its line |
| LogFiles.OrderIndependent | testing/compare/compare.rb:124-152 | the virtual IDs do not depend on the order of the lines |
| LogFiles.OrderIndependentSuccess | testing/compare/compare.rb:124-152 | nor does success |
| LogFiles.RenamingEquivariant | testing/compare/compare.rb:65-68 | a file with consistently renamed IDs has exactly the renamed virtual IDs |
| LogFiles.RenamingInvariant | testing/compare/compare.rb:65-68 | they are even the same, when all IDs in properties are IDs of the file and kinds contain none |
| LogFiles.LogRes.BuildHalf | testing/compare/compare.rb:154-169 | an error exactly if two lines of the file have one virtual ID; otherwise origItem (for the new file newItem) of every pair is the line with its virtual ID, and the other field is unchanged |
| LogFiles.LogRes.ReadFile | testing/compare/compare.rb:101-170 | success exactly for a resolvable file with distinct virtual IDs, whose lines are then entered in their field; each error says what fails |
| LogFiles.CompareFiles | testing/compare/compare.rb:180-183 | success exactly if both files can be compared; then origItem of a pair is an ID exactly if this line of the original file has the virtual ID, and newItem likewise for the new file |
| LogFiles.Differences | testing/compare/compare.rb:186-194 | every unpaired line is in the first list, once, and none in the second; the error is raised exactly for an empty pair |
| LogFiles.RunMain | testing/compare/compare.rb:173-202 | no pair is ever empty, and the list of missing lines has exactly the lines whose virtual ID occurs in only one of the files |
| LogFiles.ReportRight | testing/compare/compare.rb:186-199 | the two lists are right if and only if every virtual ID of the new file occurs in the original one |
| Bisect.MeetingParameters | testing/pqrne/bisect.py:106-114 | where two lines meet, the parameters are the quotients of the signed areas |
| Bisect.TestIsCrossing | testing/pqrne/bisect.py:106-111 | the test on four areas holds exactly if the segments properly cross |
| Bisect.CrossingPoint | testing/pqrne/bisect.py:112-116 | the computed point is the only point inside both segments |
| Bisect.Intersection | testing/pqrne/bisect.py:98-116 | the first properly crossed segment, with a point strictly inside it and the cut line; None exactly if no segment is crossed |
| Bisect.Split | testing/pqrne/bisect.py:121-138 | the two pieces, the copied attributes, and the one list of the network that grows |
| Bisect.SegmentSplits | testing/pqrne/bisect.py:121-131 | a point inside a segment cuts it into two with the same points |
| Bisect.PiecesCover | testing/pqrne/bisect.py:121-131 | the two polylines together have exactly the points of the old one |
| Bisect.Cut | testing/pqrne/bisect.py:81-85 | None exactly if no segment is properly crossed, and then nothing changes; otherwise the cut is at the first crossed segment, the pieces share the crossing point, joined without it they are the old polyline, together they cover it, and the second piece is a new item with the attributes of the old one at the end of the list of its kind |

## Notes on the modelling

- `smalldiv`, `subsmalldiv`, `addsmalldiv` and `smalldivmod` have the same loop; it is `DivideTerms`.
- `neg_sqr`, `cyc_sqr` and `nuss_square` repeat `neg`, `cyc` and `nussmult` for equal operands and
  are modelled by these with both operands equal.
- In `neg` the forward stages of the two operands are interleaved; here one operand is transformed
  after the other.
- The three loops for 2xN, 3xN and 4xN products are one method.
- A list that the Python code changes in place is a sequence that is reassigned, or an array where
  the code works on rows in place (`neg`).
- The threshold of `fastmult`, the choice between `smithdiv` and `kdiv`, and the new radix of
  `kdiv` are arbitrary here; the results do not depend on them. `DIVFAST` is taken to be True.
- The conversion of a piece of text to a number is the one of signed decimal digits with spaces
  around them. The estimate of the number of digits in `fromlong2` is a parameter; in `FromInt` it
  is an upper bound, as the hexadecimal estimate is.
- A modulus given to `__pow__` as an int or a text is first made a `DecInt`, whose radix may differ
  from that of the base; the model takes the object.
- Which conflux `begin()` returns, and in which order sets and hashes are traversed, is arbitrary.
  `assignWorker` is taken to succeed. The set of confluxes is emptied conflux by conflux in the
  round robin instead of by one `clear()` at the end.
- Types and properties are sequences of characters and maximal ID matches, with parent links
  already removed and types in lower case; lines of the types that are skipped are not among them. Virtual IDs begin with "{" and end with "}", so that a
  replacement makes no new match at its ends.
- `bisect` is modelled over exact reals.

## Left out

- FastDivision.KDiv: does not model which new radix `divopt` prefers, only that it lies between the old power and twice the old power.
- DecInts.DecInt.FromInt: requires the digit estimate to be an upper bound; the floating-point computation of the estimate is not modelled.
- DecInts.DecInt.Add: plain ints as operands are not modelled; they are made numbers of the default radix after the radix check. The same holds for the other operators.
- DecInts.DecInt.DivMod: two objects that share one list of terms are not captured, because terms are values here.
- DecimalText.Accepted: the suffix L and spaces after the sign, which the built-in conversion to long also takes, are not modelled.
- VirtualIds.GetVirtId: requires that no cycle can be reached; a scan that meets an ID without virtual ID before the cycle ends with nil all the same.
- LogFiles.Resolve: requires that no cycle of IDs in kinds can be reached; whether reading hangs or raises an error otherwise is not modelled, only that there is no result.
- LogFiles.LogRes.ReadFile: the partially filled item table after an error in the resolution rounds is not modelled.
- Algorithms.SquareRoot: negative numbers and a zero of sign -1 are not modelled; the loop then runs into other numbers or a division by zero.
- LogFiles.Differences: an item is its ID and its virtual ID; the text of its line is not modelled.
- NaN operands, hashing, random numbers, `__ne__` and `pell`, which uses an undefined name.
- `__neg__`, `__abs__`, `__pos__`, the division operators that pick one half of `__divmod__`, and `__repr__`: easy members.
- The rest of `main_impl.cpp`: role registration, threads, database, logging, message passing.
- The file access, regular expressions and printing of `compare.rb`.
- The Qt scene, dialogs and highlighting around `bisect`; the loop of `cut` over several edges.
- The rest of the repository.
