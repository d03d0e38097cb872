/** Decimal text: the string constructor of DecInt and its __str__. */
module DecimalText {
  import opened Arith
  import opened Poly
  import opened Division
  import opened Wrappers
  import opened DecInts

  // ----- digits -----

  function DigitChar(d: int): char
    requires 0 <= d < 10
  {
    '0' + d as char
  }

  predicate IsDigit(c: char) {
    '0' <= c <= '9'
  }

  predicate AllDigits(s: string) {
    forall i :: 0 <= i < |s| ==> IsDigit(s[i])
  }

  function DigitValue(c: char): (d: int)
    requires IsDigit(c)
    ensures 0 <= d < 10 && DigitChar(d) == c
  {
    c as int - '0' as int
  }

  /** The digits are the usual ones. */
  lemma {:induction false} DigitMeans(d: nat)
    requires d < 10
    ensures DigitChar(d) == "0123456789"[d] && IsDigit("0123456789"[d]) && DigitValue("0123456789"[d]) == d
  {
    if d < 5 {
      assert d == 0 || d == 1 || d == 2 || d == 3 || d == 4;
    } else {
      assert d == 5 || d == 6 || d == 7 || d == 8 || d == 9;
    }
  }

  /** The first digit counts most. */
  function DecimalValue(s: string): (n: int)
    requires AllDigits(s)
    ensures n >= 0
  {
    if s == "" then 0 else 10 * DecimalValue(s[..|s| - 1]) + DigitValue(s[|s| - 1])
  }

  /** The decimal text of a natural number. */
  function Str(n: nat): (s: string)
    ensures s != "" && AllDigits(s) && DecimalValue(s) == n && (n > 0 ==> s[0] != '0')
  {
    if n < 10 then [DigitChar(n)]
    else
      var s := Str(n / 10);
      assert (s + [DigitChar(n % 10)])[..|s|] == s;
      s + [DigitChar(n % 10)]
  }

  function ZeroText(n: nat): (s: string)
    ensures |s| == n && forall i :: 0 <= i < n ==> s[i] == '0'
  {
    seq(n, _ => '0')
  }

  lemma {:induction false} ZeroTextValue(n: nat)
    ensures AllDigits(ZeroText(n)) && DecimalValue(ZeroText(n)) == 0
  {
    if n != 0 {
      ZeroTextValue(n - 1);
      assert ZeroText(n)[..n - 1] == ZeroText(n - 1);
    }
  }

  lemma {:induction false} DecimalAppend(s: string, t: string)
    requires AllDigits(s) && AllDigits(t)
    ensures AllDigits(s + t) && DecimalValue(s + t) == Pow(10, |t|) * DecimalValue(s) + DecimalValue(t)
  {
    if t == "" {
      assert s + t == s;
    } else {
      var u := t[..|t| - 1];
      DecimalAppend(s, u);
      assert (s + t)[..|s + t| - 1] == s + u;
      Assoc(10, Pow(10, |u|), DecimalValue(s));
    }
  }

  lemma {:induction false} DecimalBound(s: string)
    requires AllDigits(s)
    ensures DecimalValue(s) < Pow(10, |s|)
    ensures s != "" && s[0] != '0' ==> DecimalValue(s) >= Pow(10, |s| - 1)
  {
    if s != "" {
      DecimalBound(s[..|s| - 1]);
      if |s| == 1 { assert s[..0] == ""; }
    }
  }

  /** Fills up with zeros on the left to n characters. */
  function Zfill(s: string, n: nat): string {
    if |s| < n then ZeroText(n - |s|) + s else s
  }

  /** Without the zeros on the left. */
  function StripLeft(s: string): string {
    if s != "" && s[0] == '0' then StripLeft(s[1..]) else s
  }

  lemma {:induction false} ZfillIs(n: nat, power: nat)
    requires power >= 1 && n < Pow(10, power)
    ensures var s := Zfill(Str(n), power);
            |s| == power && AllDigits(s) && DecimalValue(s) == n
  {
    var s := Str(n);
    StrLength(n, s, power);
    if |s| < power { ZeroPrefix(power - |s|, s); }
  }

  lemma {:induction false} StrLength(n: nat, s: string, power: nat)
    requires s != "" && AllDigits(s) && DecimalValue(s) == n && (n > 0 ==> s[0] != '0') && (n == 0 ==> |s| == 1)
    requires power >= 1 && n < Pow(10, power)
    ensures |s| <= power
  {
    DecimalBound(s);
    if |s| > power { PowMono(10, power, |s| - 1); }
  }

  lemma {:induction false} ZeroPrefix(k: nat, s: string)
    requires AllDigits(s)
    ensures AllDigits(ZeroText(k) + s) && DecimalValue(ZeroText(k) + s) == DecimalValue(s)
  {
    ZeroTextValue(k);
    DecimalAppend(ZeroText(k), s);
    var p := Pow(10, |s|);
    assert p * 0 == 0;
  }

  lemma {:induction false} StripZeroText(n: nat, s: string)
    requires s == "" || s[0] != '0'
    ensures StripLeft(ZeroText(n) + s) == s
  {
    if n == 0 {
      assert ZeroText(0) + s == s;
    } else {
      assert (ZeroText(n) + s)[1..] == ZeroText(n - 1) + s;
      StripZeroText(n - 1, s);
    }
  }

  // ----- __str__ -----

  /**
    Joins the terms, most significant first: every term but the last filled to power digits.
    None stands for the conversion error that a leading zero term causes.
  */
  function JoinTerms(terms: seq<int>, power: nat): Option<string>
    requires terms != [] && forall i :: 0 <= i < |terms| ==> terms[i] >= 0
  {
    var last := StripLeft(Zfill(Str(terms[|terms| - 1]), power));
    if last != "" then Some(last + Filled(terms[..|terms| - 1], power))
    else if |terms| == 1 then Some("0")
    else None
  }

  /** The terms as text of power digits each, the first term at the right end. */
  function Filled(terms: seq<int>, power: nat): string
    requires forall i :: 0 <= i < |terms| ==> terms[i] >= 0
  {
    if terms == [] then "" else Filled(terms[1..], power) + Zfill(Str(terms[0]), power)
  }

  // ----- the string constructor -----

  predicate IsSpace(c: char) {
    c in " \t\n\r" || c as int == 11 || c as int == 12
  }

  /** The blank, and the control characters from the tabulator to the carriage return. */
  lemma {:induction false} SpacesAre(c: char)
    ensures IsSpace(c) <==> c as int == 32 || 9 <= c as int <= 13
  {
    assert " \t\n\r" == [' ', '\t', '\n', '\r'];
  }

  predicate AllSpaces(s: string) {
    forall i :: 0 <= i < |s| ==> IsSpace(s[i])
  }

  /** Without the spaces on both sides. */
  function StripSpace(s: string): (r: string)
    decreases |s|
  {
    if s != "" && IsSpace(s[0]) then StripSpace(s[1..])
    else if s != "" && IsSpace(s[|s| - 1]) then StripSpace(s[..|s| - 1])
    else s
  }

  /** The text is r with spaces around it. */
  ghost predicate Padded(s: string, before: string, r: string, after: string) {
    s == before + r + after && AllSpaces(before) && AllSpaces(after)
  }

  lemma {:induction false} PadLeft(c: char, s: string, before: string, r: string, after: string)
    requires IsSpace(c) && Padded(s, before, r, after)
    ensures Padded([c] + s, [c] + before, r, after)
  {
    assert [c] + s == ([c] + before) + r + after;
  }

  lemma {:induction false} PadRight(c: char, s: string, before: string, r: string, after: string)
    requires IsSpace(c) && Padded(s, before, r, after)
    ensures Padded(s + [c], before, r, after + [c])
  {
    assert s + [c] == before + r + (after + [c]);
  }

  /** Only spaces are stripped, and all of them: the result neither begins nor ends with one. */
  lemma {:induction false} StripSpaceMeans(s: string) returns (before: string, after: string)
    ensures Padded(s, before, StripSpace(s), after)
    ensures var r := StripSpace(s); r != "" ==> !IsSpace(r[0]) && !IsSpace(r[|r| - 1])
    decreases |s|
  {
    before, after := "", "";
    if s != "" && IsSpace(s[0]) {
      before, after := StripSpaceMeans(s[1..]);
      PadLeft(s[0], s[1..], before, StripSpace(s), after);
      before := [s[0]] + before;
      assert s == [s[0]] + s[1..];
    } else if s != "" && IsSpace(s[|s| - 1]) {
      before, after := StripSpaceMeans(s[..|s| - 1]);
      PadRight(s[|s| - 1], s[..|s| - 1], before, StripSpace(s), after);
      after := after + [s[|s| - 1]];
      assert s == s[..|s| - 1] + [s[|s| - 1]];
    } else {
      assert s == "" + s + "";
    }
  }

  /** The text cut into pieces of power characters, from the right. */
  function Chunks(s: string, power: nat): seq<string>
    requires power >= 1
  {
    if s == "" then []
    else if |s| <= power then [s]
    else [s[|s| - power..]] + Chunks(s[..|s| - power], power)
  }

  /** Joined again, the first piece at the right end. */
  ghost function Joined(chunks: seq<string>): string {
    if chunks == [] then "" else Joined(chunks[1..]) + chunks[0]
  }

  /** All pieces but the leftmost have power characters, and no piece is empty. */
  ghost predicate Sized(pieces: seq<string>, power: nat) {
    && (forall i :: 0 <= i < |pieces| - 1 ==> |pieces[i]| == power)
    && (pieces != [] ==> 1 <= |pieces[|pieces| - 1]| <= power)
  }

  lemma {:induction false} SizedCons(c: string, rest: seq<string>, power: nat)
    requires Sized(rest, power) && rest != [] && |c| == power
    ensures Sized([c] + rest, power) && Joined([c] + rest) == Joined(rest) + c
  {
    assert ([c] + rest)[1..] == rest;
  }

  /** The pieces make up the text. */
  lemma {:induction false} ChunksMeans(s: string, power: nat)
    requires power >= 1
    ensures Joined(Chunks(s, power)) == s && Sized(Chunks(s, power), power) && (s == "" <==> Chunks(s, power) == [])
    decreases |s|
  {
    if s == "" {
    } else if |s| <= power {
      assert Joined([s][1..]) == "" && "" + s == s;
    } else {
      var (hi, lo) := (s[..|s| - power], s[|s| - power..]);
      ChunksMeans(hi, power);
      SizedCons(lo, Chunks(hi, power), power);
      assert hi + lo == s;
    }
  }

  /** The conversion to a number: spaces around an optional sign and digits, nothing else. */
  function Number(s: string): Option<int> {
    var t := StripSpace(s);
    if t == "" then None
    else
      var digits := if t[0] == '-' || t[0] == '+' then t[1..] else t;
      if digits == "" || !AllDigits(digits) then None
      else Some(if t[0] == '-' then -DecimalValue(digits) else DecimalValue(digits))
  }

  /** The numbers of all pieces; None if one of them is not a number. */
  function Convert(chunks: seq<string>): Option<seq<int>> {
    if chunks == [] then Some([])
    else
      var first := Number(chunks[0]);
      var rest := Convert(chunks[1..]);
      if first.None? || rest.None? then None else Some([first.value] + rest.value)
  }

  /** What is left of a text after the spaces around it and its sign. */
  function Rest(text: string): string {
    var t := StripSpace(text);
    if HasSign(text) then t[1..] else t
  }

  predicate HasSign(text: string) {
    var t := StripSpace(text);
    t != "" && (t[0] == '-' || t[0] == '+')
  }

  /** The sign and the terms of a text, or None for a conversion error. */
  function Parse(text: string, power: nat): Option<(int, seq<int>)>
    requires power >= 1
  {
    if text == "NaN" then Some((0, []))
    else if StripSpace(text) == "" then None
    else if HasSign(text) && StripSpace(Rest(text)) != Rest(text) then None
    else
      var terms := Convert(Chunks(Rest(text), power));
      if terms.None? then None
      else
        var s := Strip(terms.value);
        Some((if StripSpace(text)[0] == '-' && s != [0] then -1 else 1, s))
  }

  // ----- printing -----

  ghost predicate AllNatural(terms: seq<int>) {
    forall i :: 0 <= i < |terms| ==> terms[i] >= 0
  }

  lemma {:induction false} FilledValue(terms: seq<int>, power: nat)
    requires power >= 1 && Digits(terms, Pow(10, power))
    ensures var s := Filled(terms, power);
            AllDigits(s) && |s| == power * |terms| && DecimalValue(s) == Val(terms, Pow(10, power))
  {
    if terms != [] {
      FilledValue(terms[1..], power);
      ZfillIs(terms[0], power);
      FilledStep(Filled(terms[1..], power), Zfill(Str(terms[0]), power), power, |terms| - 1);
    }
  }

  lemma {:induction false} FilledStep(s: string, t: string, power: nat, n: nat)
    requires AllDigits(s) && AllDigits(t) && |s| == power * n && |t| == power
    ensures AllDigits(s + t) && |s + t| == power * (n + 1)
    ensures DecimalValue(s + t) == DecimalValue(t) + Pow(10, power) * DecimalValue(s)
  {
    DecimalAppend(s, t);
    Distrib(power, n, 1);
  }

  /** Digits without redundant zeros. */
  predicate Plain(s: string) {
    s != "" && AllDigits(s) && (s[0] == '0' ==> s == "0")
  }

  lemma {:induction false} LeftmostTerm(n: nat, power: nat)
    requires power >= 1 && n < Pow(10, power)
    ensures StripLeft(Zfill(Str(n), power)) == if n == 0 then "" else Str(n)
  {
    var s := Str(n);
    if n == 0 {
      ZeroTerm(power);
    } else if |s| < power {
      StripZeroText(power - |s|, s);
    }
  }

  lemma {:induction false} ZeroTerm(power: nat)
    requires power >= 1
    ensures StripLeft(Zfill(Str(0), power)) == ""
  {
    assert Str(0) == "0" == ZeroText(1);
    assert ZeroText(power - 1) + "0" == ZeroText(power);
    assert ZeroText(power) + "" == ZeroText(power);
    StripZeroText(power, "");
  }

  /** A normal form prints as its value, without redundant zeros and without an error. */
  lemma {:induction false} JoinTermsMeans(terms: seq<int>, power: nat)
    requires power >= 1 && Canonical(terms, Pow(10, power))
    ensures var t := JoinTerms(terms, power);
            t.Some? && Plain(t.value) && DecimalValue(t.value) == Val(terms, Pow(10, power))
  {
    var (k, R) := (|terms| - 1, Pow(10, power));
    LeftmostTerm(terms[k], power);
    FilledValue(terms[..k], power);
    ValSplit(terms, k, R);
    assert terms[k..] == [terms[k]];
    ValOne(terms[k], R);
    PowMul(10, power, k);
    if terms[k] != 0 {
      DecimalAppend(Str(terms[k]), Filled(terms[..k], power));
    } else {
      assert Val(terms, R) == 0 by { assert terms[..0] == []; }
      assert "0"[..0] == "";
    }
  }

  lemma {:induction false} PlainPositive(s: string)
    requires Plain(s)
    ensures s == "0" || DecimalValue(s) > 0
  {
    DecimalBound(s);
    PowPos(10, |s| - 1);
  }

  /** There is only one plain text for a number. */
  lemma {:induction false} PlainUnique(s: string, t: string)
    requires Plain(s) && Plain(t) && DecimalValue(s) == DecimalValue(t)
    ensures s == t
  {
    DecimalBound(s);
    DecimalBound(t);
    PlainPositive(s);
    PlainPositive(t);
    if s != "0" && t != "0" {
      if |s| < |t| { PowMono(10, |s|, |t| - 1); }
      if |t| < |s| { PowMono(10, |t|, |s| - 1); }
      SameDigits(s, t);
    }
  }

  lemma {:induction false} SameDigits(s: string, t: string)
    requires |s| == |t| && AllDigits(s) && AllDigits(t) && DecimalValue(s) == DecimalValue(t)
    ensures s == t
  {
    if s != "" {
      var k := |s| - 1;
      var (a, b) := (s[..k], t[..k]);
      LastDigit(DecimalValue(a), DecimalValue(b), DigitValue(s[k]), DigitValue(t[k]));
      SameDigits(a, b);
      SameLast(s, t, k);
    }
  }

  lemma {:induction false} LastDigit(a: int, b: int, c: int, d: int)
    requires 10 * a + c == 10 * b + d && 0 <= c < 10 && 0 <= d < 10
    ensures a == b && c == d
  {}

  lemma {:induction false} SameLast(s: string, t: string, k: nat)
    requires |s| == |t| == k + 1 && s[..k] == t[..k] && IsDigit(s[k]) && IsDigit(t[k])
    requires DigitValue(s[k]) == DigitValue(t[k])
    ensures s == t
  {
    assert s[k] == DigitChar(DigitValue(s[k]));
    assert t[k] == DigitChar(DigitValue(t[k]));
    assert s == s[..k] + [s[k]] && t == t[..k] + [t[k]];
  }

  // ----- parsing -----

  lemma {:induction false} NumberOfDigits(s: string)
    requires s != "" && AllDigits(s)
    ensures Number(s) == Some(DecimalValue(s))
  {
    NoSpace(s);
  }

  lemma {:induction false} ConvertOne(c: string)
    requires Number(c).Some?
    ensures Convert([c]) == Some([Number(c).value])
  {
    assert [c][1..] == [] && [Number(c).value] + [] == [Number(c).value];
  }

  lemma {:induction false} ConvertCons(c: string, rest: seq<string>)
    requires Number(c).Some? && Convert(rest).Some?
    ensures Convert([c] + rest) == Some([Number(c).value] + Convert(rest).value)
  {
    assert ([c] + rest)[1..] == rest;
  }

  lemma {:induction false} ChunksValue(s: string, power: nat)
    requires power >= 1 && AllDigits(s)
    ensures var t := Convert(Chunks(s, power));
            && t.Some? && (t.value == [] <==> s == "")
            && Digits(t.value, Pow(10, power)) && Val(t.value, Pow(10, power)) == DecimalValue(s)
    decreases |s|
  {
    if s == "" {
    } else if |s| <= power {
      OneChunk(s, power);
    } else {
      var (hi, lo) := (s[..|s| - power], s[|s| - power..]);
      ChunksValue(hi, power);
      NumberOfDigits(lo);
      ConvertCons(lo, Chunks(hi, power));
      MoreDigits(hi, lo, Convert(Chunks(hi, power)).value, power);
      assert s == hi + lo;
    }
  }

  lemma {:induction false} MoreDigits(hi: string, lo: string, rest: seq<int>, power: nat)
    requires AllDigits(hi) && AllDigits(lo) && |lo| == power
    requires Digits(rest, Pow(10, power)) && Val(rest, Pow(10, power)) == DecimalValue(hi)
    ensures AllDigits(hi + lo)
    ensures Digits([DecimalValue(lo)] + rest, Pow(10, power))
    ensures Val([DecimalValue(lo)] + rest, Pow(10, power)) == DecimalValue(hi + lo)
  {
    DecimalAppend(hi, lo);
    DecimalBound(lo);
    ConsValue(DecimalValue(lo), rest, Pow(10, power));
  }

  lemma {:induction false} OneChunk(s: string, power: nat)
    requires s != "" && |s| <= power && AllDigits(s)
    ensures Chunks(s, power) == [s] && Convert([s]) == Some([DecimalValue(s)])
    ensures 0 <= DecimalValue(s) < Pow(10, power) && Val([DecimalValue(s)], Pow(10, power)) == DecimalValue(s)
  {
    NumberOfDigits(s);
    ConvertOne(s);
    DecimalBound(s);
    PowMono(10, |s|, power);
    ValOne(DecimalValue(s), Pow(10, power));
  }

  lemma {:induction false} ConsValue(d: int, x: seq<int>, R: int)
    ensures Val([d] + x, R) == d + R * Val(x, R)
  {
    assert ([d] + x)[1..] == x;
  }

  /** A signed decimal number: an optional sign and at least one digit. */
  predicate SignedDigits(sign: string, s: string) {
    (sign == "" || sign == "+" || sign == "-") && s != "" && AllDigits(s)
  }

  lemma {:induction false} NoSpace(s: string)
    requires s != "" && AllDigits(s)
    ensures StripSpace(s) == s
  {}

  lemma {:induction false} RestIs(text: string, sign: string, s: string)
    requires SignedDigits(sign, s) && StripSpace(text) == sign + s
    ensures text != "NaN" && StripSpace(text) != "" && Rest(text) == s && StripSpace(s) == s
    ensures HasSign(text) <==> sign != ""
    ensures StripSpace(text)[0] == '-' <==> sign == "-"
  {
    NoSpace(s);
    SignedParts(sign, s);
    assert StripSpace("NaN") == "NaN";
    assert (sign + s)[|sign + s| - 1] == s[|s| - 1];
  }

  /** What the constructor makes of a number with spaces around it. */
  lemma {:induction false} ParseMeans(text: string, sign: string, s: string, power: nat)
    requires power >= 1 && SignedDigits(sign, s) && StripSpace(text) == sign + s
    ensures var p := Parse(text, power);
            && p.Some? && Canonical(p.value.1, Pow(10, power)) && Val(p.value.1, Pow(10, power)) == DecimalValue(s)
            && p.value.0 == (if sign == "-" && DecimalValue(s) != 0 then -1 else 1)
  {
    ChunksValue(s, power);
    RestIs(text, sign, s);
    var terms := Convert(Chunks(s, power)).value;
    RadixLarge(power);
    StripCanonical(terms, Pow(10, power));
    CanonicalVal(Strip(terms), Pow(10, power));
  }

  lemma {:induction false} SignedParts(sign: string, s: string)
    requires SignedDigits(sign, s)
    ensures var t := sign + s;
            && t != "" && (sign == "" ==> t == s && t[0] != '-' && t[0] != '+')
            && (sign != "" ==> t[0] == sign[0] && t[1..] == s)
  {
    if sign == "" {
      assert "" + s == s;
    } else {
      assert (sign + s)[1..] == s;
    }
  }

  /** The text of a number with its sign. */
  function Text(sign: int, terms: seq<int>, power: nat): Option<string>
    requires terms != [] && AllNatural(terms)
  {
    var t := JoinTerms(terms, power);
    if t.None? then None else Some((if sign == -1 then "-" else "") + t.value)
  }

  /** Parsing the text of a number in normal form restores it; only a signed zero loses its sign. */
  lemma {:induction false} PrintThenParse(sign: int, terms: seq<int>, power: nat)
    requires power >= 1 && (sign == 1 || sign == -1) && Canonical(terms, Pow(10, power))
    ensures var t := Text(sign, terms, power);
            t.Some? && Parse(t.value, power) == Some((if terms == [0] then 1 else sign, terms))
  {
    JoinTermsMeans(terms, power);
    var s := JoinTerms(terms, power).value;
    var prefix := if sign == -1 then "-" else "";
    var t := prefix + s;
    SignedNoSpace(prefix, s);
    ParseMeans(t, prefix, s, power);
    RadixLarge(power);
    CanonicalVal(terms, Pow(10, power));
    CanonicalUnique(terms, Parse(t, power).value.1, Pow(10, power));
  }

  lemma {:induction false} SignedNoSpace(sign: string, s: string)
    requires SignedDigits(sign, s)
    ensures StripSpace(sign + s) == sign + s
  {
    assert (sign + s)[|sign + s| - 1] == s[|s| - 1];
  }

  lemma {:induction false} StripLeftPlain(s: string)
    requires AllDigits(s)
    ensures var t := StripLeft(s);
            && AllDigits(t) && DecimalValue(t) == DecimalValue(s) && (t != "" ==> Plain(t))
  {
    if s != "" && s[0] == '0' {
      StripLeftPlain(s[1..]);
      assert s == "0" + s[1..];
      assert "0"[..0] == "";
      DecimalAppend("0", s[1..]);
      assert Pow(10, |s[1..]|) * 0 == 0;
    }
  }

  lemma {:induction false} ZeroIs()
    ensures Plain("0") && DecimalValue("0") == 0
  {
    assert "0"[..0] == "";
  }

  /** Digits without redundant zeros. */
  function Normalized(s: string): string {
    if StripLeft(s) == "" then "0" else StripLeft(s)
  }

  lemma {:induction false} NormalizedMeans(s: string)
    requires AllDigits(s)
    ensures Plain(Normalized(s)) && DecimalValue(Normalized(s)) == DecimalValue(s)
    ensures DecimalValue(s) == 0 <==> StripLeft(s) == ""
  {
    StripLeftPlain(s);
    ZeroIs();
    ZeroDigits(s);
    if StripLeft(s) != "" { PlainPositive(StripLeft(s)); }
  }

  /** A normal form with the value of a text prints as the text without redundant zeros. */
  lemma {:induction false} JoinedDigits(terms: seq<int>, s: string, power: nat)
    requires power >= 1 && Canonical(terms, Pow(10, power)) && AllDigits(s)
    requires Val(terms, Pow(10, power)) == DecimalValue(s)
    ensures JoinTerms(terms, power) == Some(Normalized(s))
  {
    JoinTermsMeans(terms, power);
    NormalizedMeans(s);
    PlainUnique(JoinTerms(terms, power).value, Normalized(s));
  }

  /** Printing what was parsed gives the text back, without spaces, redundant zeros, plus sign and "-0". */
  lemma {:induction false} ParseThenPrint(text: string, sign: string, s: string, power: nat)
    requires power >= 1 && SignedDigits(sign, s) && StripSpace(text) == sign + s
    ensures var p := Parse(text, power);
            && p.Some? && Canonical(p.value.1, Pow(10, power))
            && Text(p.value.0, p.value.1, power) ==
               Some((if sign == "-" && StripLeft(s) != "" then "-" else "") + Normalized(s))
  {
    ParseMeans(text, sign, s, power);
    NormalizedMeans(s);
    JoinedDigits(Parse(text, power).value.1, s, power);
  }

  lemma {:induction false} ZeroDigits(s: string)
    ensures StripLeft(s) != "0"
  {
    if s != "" && s[0] == '0' { ZeroDigits(s[1..]); }
  }

  // ----- which texts are accepted -----

  /** The terms come out empty exactly for a lone sign, which is not a number, and for NaN. */
  lemma {:induction false} LoneSign(text: string, power: nat)
    requires power >= 1
    ensures var p := Parse(text, power);
            && (p.Some? && p.value.1 == [] <==> StripSpace(text) == "-" || StripSpace(text) == "+" || text == "NaN")
            && (p.Some? ==> (p.value.0 == 0 <==> text == "NaN"))
  {
    ConvertLength(Chunks(Rest(text), power));
    assert StripSpace("NaN") == "NaN";
    if HasSign(text) { assert StripSpace(text) == [StripSpace(text)[0]] + Rest(text); }
  }

  lemma {:induction false} ConvertLength(chunks: seq<string>)
    ensures Convert(chunks).Some? ==> |Convert(chunks).value| == |chunks|
  {
    if chunks != [] { ConvertLength(chunks[1..]); }
  }

  /** A signed number with spaces around it. */
  ghost predicate IsNumber(c: string) {
    exists sign, d :: SignedDigits(sign, d) && StripSpace(c) == sign + d
  }

  /** A minus sign before nonzero digits, with spaces around. */
  ghost predicate IsNegative(c: string) {
    exists d :: SignedDigits("-", d) && StripSpace(c) == "-" + d && DecimalValue(d) != 0
  }

  lemma {:induction false} NumberMeans(c: string, sign: string, d: string)
    requires SignedDigits(sign, d) && StripSpace(c) == sign + d
    ensures Number(c) == Some(if sign == "-" then -DecimalValue(d) else DecimalValue(d))
  {
    SignedParts(sign, d);
  }

  lemma {:induction false} NumberForm(c: string) returns (sign: string, d: string)
    requires Number(c).Some?
    ensures SignedDigits(sign, d) && StripSpace(c) == sign + d
  {
    var t := StripSpace(c);
    if t[0] == '-' || t[0] == '+' {
      sign, d := [t[0]], t[1..];
    } else {
      sign, d := "", t;
    }
  }

  /** The conversion succeeds exactly for numbers, and is negative exactly for negative ones. */
  lemma {:induction false} NumberIff(c: string)
    ensures Number(c).Some? <==> IsNumber(c)
    ensures Number(c).Some? ==> (Number(c).value < 0 <==> IsNegative(c))
  {
    if Number(c).Some? {
      var sign, d := NumberForm(c);
      NumberMeans(c, sign, d);
    }
    if IsNumber(c) {
      var sign, d :| SignedDigits(sign, d) && StripSpace(c) == sign + d;
      NumberMeans(c, sign, d);
    }
    if IsNegative(c) {
      var d :| SignedDigits("-", d) && StripSpace(c) == "-" + d && DecimalValue(d) != 0;
      NumberMeans(c, "-", d);
    }
  }

  lemma {:induction false} ConvertIff(chunks: seq<string>)
    ensures Convert(chunks).Some? <==> AllNumbers(chunks)
  {
    if chunks != [] {
      NumberIff(chunks[0]);
      ConvertIff(chunks[1..]);
      FirstAndRest(chunks);
    }
  }

  lemma {:induction false} FirstAndRest(pieces: seq<string>)
    requires pieces != []
    ensures AllNumbers(pieces) <==> IsNumber(pieces[0]) && AllNumbers(pieces[1..])
  {
    if IsNumber(pieces[0]) && AllNumbers(pieces[1..]) {
      forall i | 0 <= i < |pieces| ensures IsNumber(pieces[i]) {
        if i > 0 { assert pieces[i] == pieces[1..][i - 1]; }
      }
    }
  }

  lemma {:induction false} ConvertAt(chunks: seq<string>, i: nat)
    requires Convert(chunks).Some? && i < |chunks|
    ensures |Convert(chunks).value| == |chunks|
    ensures Number(chunks[i]).Some? && Convert(chunks).value[i] == Number(chunks[i]).value
  {
    ConvertLength(chunks);
    if i > 0 { ConvertAt(chunks[1..], i - 1); }
  }

  /**
    A text is accepted if and only if it is NaN, or it is not all spaces, no space follows its sign,
    and every piece is a number by itself. The pieces after the first may have signs and spaces of
    their own, so that also texts are accepted that are not numbers.
  */
  lemma {:induction false} Accepted(text: string, power: nat)
    requires power >= 1
    ensures var pieces := Chunks(Rest(text), power);
            Parse(text, power).Some? <==> text == "NaN" || (RulesKept(text) && AllNumbers(pieces))
  {
    ConvertIff(Chunks(Rest(text), power));
  }

  predicate RulesKept(text: string) {
    StripSpace(text) != "" && (HasSign(text) ==> StripSpace(Rest(text)) == Rest(text))
  }

  ghost predicate AllNumbers(pieces: seq<string>) {
    forall i :: 0 <= i < |pieces| ==> IsNumber(pieces[i])
  }

  lemma {:induction false} StripSpaceShorter(s: string)
    ensures |StripSpace(s)| <= |s|
    decreases |s|
  {
    if s != "" && IsSpace(s[0]) {
      StripSpaceShorter(s[1..]);
    } else if s != "" && IsSpace(s[|s| - 1]) {
      StripSpaceShorter(s[..|s| - 1]);
    }
  }

  lemma {:induction false} NumberBound(c: string, power: nat)
    requires Number(c).Some? && |c| <= power
    ensures -Pow(10, power) < Number(c).value < Pow(10, power)
  {
    var sign, d := NumberForm(c);
    NumberMeans(c, sign, d);
    StripSpaceShorter(c);
    DecimalBound(d);
    PowMono(10, |d|, power);
  }

  lemma {:induction false} ChunksShort(s: string, power: nat)
    requires power >= 1
    ensures forall i :: 0 <= i < |Chunks(s, power)| ==> |Chunks(s, power)[i]| <= power
    ensures Chunks(s, power) == [] <==> s == ""
  {
    if |s| > power {
      ChunksShort(s[..|s| - power], power);
    }
  }

  lemma {:induction false} StripKeepsNonzero(x: seq<int>, i: nat)
    requires i < |x| && x[i] != 0
    ensures i < |Strip(x)| && Strip(x)[i] == x[i]
  {
    StripShape(x);
  }

  /** The object is a number in normal form if and only if there are digits and no piece is negative. */
  lemma {:induction false} AcceptedNumber(text: string, power: nat)
    requires power >= 1 && text != "NaN" && Parse(text, power).Some?
    ensures var pieces := Chunks(Rest(text), power);
            Canonical(Parse(text, power).value.1, Pow(10, power)) <==>
              Rest(text) != "" && forall i :: 0 <= i < |pieces| ==> !IsNegative(pieces[i])
  {
    var pieces := Chunks(Rest(text), power);
    var terms := Convert(pieces).value;
    ConvertLength(pieces);
    ChunksShort(Rest(text), power);
    forall i | 0 <= i < |pieces|
      ensures -Pow(10, power) < terms[i] < Pow(10, power) && (terms[i] < 0 <==> IsNegative(pieces[i]))
    {
      ConvertAt(pieces, i);
      NumberBound(pieces[i], power);
      NumberIff(pieces[i]);
    }
    PowPos(10, power);
    TermsCanonical(terms, Pow(10, power));
  }

  lemma {:induction false} TermsCanonical(terms: seq<int>, R: int)
    requires R >= 1 && forall i :: 0 <= i < |terms| ==> -R < terms[i] < R
    ensures Canonical(Strip(terms), R) <==> terms != [] && forall i :: 0 <= i < |terms| ==> terms[i] >= 0
  {
    if terms != [] && (forall i :: 0 <= i < |terms| ==> terms[i] >= 0) {
      StripCanonical(terms, R);
    }
    if Canonical(Strip(terms), R) {
      forall i | 0 <= i < |terms| ensures terms[i] >= 0 {
        if terms[i] < 0 { StripKeepsNonzero(terms, i); }
      }
    }
  }

  /** A minus sign inside: accepted, and one of the terms is negative. */
  lemma {:induction false} InnerSign()
    ensures Parse("5-34", 3) == Some((1, [-34, 5]))
  {
    MinusThirtyFour();
    TwoPieces("5-34", "5", "-34");
  }

  /** A space inside: accepted as the number 5034. */
  lemma {:induction false} InnerSpace()
    ensures Parse("5 34", 3) == Some((1, [34, 5]))
  {
    SpaceThirtyFour();
    TwoPieces("5 34", "5", " 34");
  }

  lemma {:induction false} TwoPieces(text: string, c: string, d: string)
    requires text == c + d && c == "5" && |d| == 3 && text != "NaN" && !IsSpace(d[2])
    requires Number(d).Some?
    ensures Parse(text, 3) == Some((1, Strip([Number(d).value, 5])))
  {
    assert StripSpace(text) == text;
    assert text[1..] == d && text[..1] == c;
    assert Chunks(text, 3) == [d] + [c];
    Five();
    ConvertOne(c);
    ConvertCons(d, [c]);
    assert [Number(d).value] + [5] == [Number(d).value, 5];
  }

  lemma {:induction false} Five()
    ensures Number("5") == Some(5)
  {
    assert "5"[..0] == "";
    NumberOfDigits("5");
  }

  lemma {:induction false} MinusThirtyFour()
    ensures Number("-34") == Some(-34)
  {
    ThirtyFour();
    assert StripSpace("-34") == "-34" == "-" + "34";
    NumberMeans("-34", "-", "34");
  }

  lemma {:induction false} SpaceThirtyFour()
    ensures Number(" 34") == Some(34)
  {
    ThirtyFour();
    assert " 34"[1..] == "34" == "" + "34";
    assert StripSpace(" 34") == StripSpace("34");
    NumberMeans(" 34", "", "34");
  }

  lemma {:induction false} ThirtyFour()
    ensures AllDigits("34") && DecimalValue("34") == 34 && StripSpace("34") == "34"
  {
    assert "34"[..1] == "3" && "3"[..0] == "";
    assert DecimalValue("3") == 3;
  }

  // ----- objects -----

  /** The text is a signed decimal number, with spaces around it or not, of value v. */
  ghost predicate Describes(text: string, v: int) {
    exists sign, s :: SignedDigits(sign, s) && StripSpace(text) == sign + s && v == SignedValue(sign, s)
  }

  function SignedValue(sign: string, s: string): int
    requires AllDigits(s)
  {
    if sign == "-" then -DecimalValue(s) else DecimalValue(s)
  }

  /** The text is the one of the number of this sign and absolute value: digits without redundant zeros. */
  ghost predicate PlainText(t: string, sign: int, v: int) {
    exists s :: Plain(s) && t == (if sign == -1 then "-" else "") + s && v == DecimalValue(s)
  }

  /** Prints an object: its value in decimal digits, with a minus sign also before a zero of sign -1. */
  method ToText(d: DecInt) returns (t: string)
    requires d.Valid() || d.sign == 0
    ensures d.sign == 0 ==> t == "NaN"
    ensures d.sign != 0 ==> Some(t) == Text(d.sign, d.terms, d.power) && Describes(t, d.Value())
    ensures d.sign != 0 ==> PlainText(t, d.sign, d.sign * d.Value())
  {
    if d.sign == 0 {
      return "NaN";
    }
    JoinTermsMeans(d.terms, d.power);
    var digits := JoinTerms(d.terms, d.power).value;
    var sign := if d.sign == -1 then "-" else "";
    t := sign + digits;
    SignedNoSpace(sign, digits);
    assert d.Value() == SignedValue(sign, digits);
  }

  lemma {:induction false} ParseValue(text: string, power: nat, v: int)
    requires power >= 1 && Describes(text, v)
    ensures var p := Parse(text, power);
            && p.Some? && Canonical(p.value.1, Pow(10, power)) && (p.value.0 == 1 || p.value.0 == -1)
            && p.value.0 * Val(p.value.1, Pow(10, power)) == v
  {
    var sign, s :| SignedDigits(sign, s) && StripSpace(text) == sign + s && v == SignedValue(sign, s);
    ParseMeans(text, sign, s, power);
  }

  /** The object that a text describes; None stands for the conversion error. */
  method FromText(text: string, power: int) returns (result: Option<DecInt>)
    ensures result.None? <==> Parse(text, LegalPower(power)).None?
    ensures result.Some? ==> fresh(result.value) && result.value.power == LegalPower(power)
    ensures result.Some? ==> Parse(text, LegalPower(power)) == Some((result.value.sign, result.value.terms))
    ensures forall v :: Describes(text, v) ==> result.Some? && result.value.Valid() && result.value.Value() == v
  {
    var p := Parse(text, LegalPower(power));
    forall v | Describes(text, v)
      ensures p.Some? && Canonical(p.value.1, Pow(BASE, LegalPower(power))) && (p.value.0 == 1 || p.value.0 == -1)
      ensures p.value.0 * Val(p.value.1, Pow(BASE, LegalPower(power))) == v
    {
      ParseValue(text, LegalPower(power), v);
    }
    if p.None? {
      return None;
    }
    var d := new DecInt();
    d.sign, d.terms, d.power := p.value.0, p.value.1, LegalPower(power);
    result := Some(d);
  }

  /** Printing a number and parsing the text, with any number of digits per term, gives the number. */
  method Reparse(d: DecInt, power: int) returns (e: DecInt)
    requires d.Valid()
    ensures fresh(e) && e.Valid() && e.power == LegalPower(power) && e.Value() == d.Value()
  {
    var t := ToText(d);
    var result := FromText(t, power);
    e := result.value;
  }

  /** Reading "12" and printing the number: twelve. */
  method Twelve() returns (d: DecInt, t: string)
    ensures d.Valid() && d.Value() == 12 && t == "12"
  {
    DigitMeans(1);
    DigitMeans(2);
    assert "12"[..1] == "1" && "1"[..0] == "";
    assert DecimalValue("1") == 1 && DecimalValue("12") == 12;
    SignedNoSpace("", "12");
    assert SignedValue("", "12") == 12 && "" + "12" == "12";
    assert Describes("12", 12);
    var result := FromText("12", 250);
    d := result.value;
    t := ToText(d);
    DigitsVal(d.terms, d.Radix());
    PositiveSign(d.sign, Val(d.terms, d.Radix()), 12);
    var s :| Plain(s) && t == "" + s && 12 == DecimalValue(s);
    PlainUnique(s, "12");
  }

  lemma {:induction false} MinusTen(q: int, r: int)
    requires IsFloorDivision(-10, -5, q, r)
    ensures r == 0
  {}

  /** The remainder of -10 by -5 is a zero with a sign, and prints with it. */
  method NegativeZero() returns (d: DecInt, t: string)
    ensures d.Valid() && d.Value() == 0 && t == "-0"
  {
    assert Pow(BASE, 2) == 10 * Pow(BASE, 1) && Pow(BASE, 1) == 10 * Pow(BASE, 0);
    var ten := new DecInt.FromInt(-10, 0, 2);
    var five := new DecInt.FromInt(-5, 0, 2);
    var division := ten.DivMod(five);
    d := division.value.1;
    MinusTen(division.value.0.Value(), d.Value());
    t := ToText(d);
    var s :| Plain(s) && t == "-" + s && 0 == DecimalValue(s);
    ZeroIs();
    PlainUnique(s, "0");
  }

  lemma {:induction false} PositiveSign(sign: int, v: int, n: int)
    requires (sign == 1 || sign == -1) && v >= 0 && sign * v == n && n > 0
    ensures sign == 1 && v == n
  {}
}
