/** Signed 64-bit decimals: the receiver's hand-written integer parser
    (cpp/src/udp_receiver.cpp, to_ll) and the %lld and %.2f printers it must undo.
    Prices are whole cents. */
module Numerals {
  import opened Prelude

  /** The largest magnitude that the parser accumulates without signed overflow. */
  const MAX_LL: int := 0x7fff_ffff_ffff_ffff

  predicate IsDigit(c: char) { '0' <= c <= '9' }

  function Digit(n: nat): (c: char)
    requires n < 10
    ensures IsDigit(c) && DigitValue(c) == n
  {
    (48 + n) as char
  }

  function DigitValue(c: char): (n: nat)
    requires IsDigit(c)
    ensures n < 10
  {
    c as int - 48
  }

  predicate AllDigits(s: string) { forall i :: 0 <= i < |s| ==> IsDigit(s[i]) }

  /** The number a digit string denotes, most significant digit first. */
  function DigitsValue(s: string): nat
    requires AllDigits(s)
  {
    if s == "" then 0 else 10 * DigitsValue(s[..|s| - 1]) + DigitValue(s[|s| - 1])
  }

  /** The outcome of an integer parse. Overflows stands for the inputs on which the
      original's signed accumulator leaves the 64-bit range, which C++ leaves undefined. */
  datatype Parsed = Value(v: int) | Malformed | Overflows

  function Body(s: string): string {
    if s != "" && s[0] == '-' then s[1..] else s
  }

  /** An optional '-' and one or more digits. */
  predicate IsNumeral(s: string) {
    Body(s) != "" && AllDigits(Body(s))
  }

  function NumeralValue(s: string): int
    requires IsNumeral(s)
  {
    var n: int := DigitsValue(Body(s));
    if s[0] == '-' then -n else n
  }

  /** The numerals are the non-empty digit strings and those behind a '-', and mean what they say. */
  lemma {:induction false} NumeralForms(s: string, d: string)
    ensures d != "" && AllDigits(d) ==> IsNumeral(d) && NumeralValue(d) == DigitsValue(d)
    ensures d != "" && AllDigits(d) ==> IsNumeral("-" + d) && NumeralValue("-" + d) == 0 - DigitsValue(d)
    ensures IsNumeral(s) ==> s != "" && (AllDigits(s) || (s[0] == '-' && |s| > 1 && AllDigits(s[1..])))
  {
    assert ("-" + d)[1..] == d;
    if d != "" && AllDigits(d) { assert IsDigit(d[0]); }
  }

  /** The character classes that the parsers skip or collect. */
  datatype Class = Blanks | Digits | NumberChars | Spaces {
    predicate Has(c: char) {
      match this
      case Blanks => c == ' ' || c == '\t' || c == ':'
      case Digits => IsDigit(c)
      case NumberChars => IsDigit(c) || c == '.' || c == 'e' || c == 'E' || c == '+' || c == '-'
      case Spaces => c == ' ' || '\t' <= c <= '\r'
    }
  }

  /** The end of the run of characters of a class that starts at from. */
  function RunEnd(s: string, from: nat, cls: Class): (r: nat)
    requires from <= |s|
    ensures from <= r <= |s| && (forall i | from <= i < r :: cls.Has(s[i])) && (r < |s| ==> !cls.Has(s[r]))
    decreases |s| - from
  {
    if from < |s| && cls.Has(s[from]) then RunEnd(s, from + 1, cls) else from
  }

  /** A run that the text shows is the run that RunEnd finds. */
  lemma {:induction false} RunIs(s: string, cls: Class, from: nat, run: string, stop: string)
    requires from <= |s| && s[from..] == run + stop
    requires forall i | 0 <= i < |run| :: cls.Has(run[i])
    requires stop == "" || !cls.Has(stop[0])
    ensures RunEnd(s, from, cls) == from + |run|
    ensures s[from..from + |run|] == run && s[from + |run|..] == stop
  {
    assert forall i | 0 <= i < |run| :: s[from..][i] == run[i] == s[from + i];
    if stop != "" {
      assert s[from..][|run|] == stop[0] == s[from + |run|];
    }
  }

  /** The digits up to the first other character. */
  function LeadingDigits(body: string): string { body[..RunEnd(body, 0, Digits)] }

  /** What to_ll returns: overflow within the leading digits, or else a character that is no digit,
      decides. */
  function ToLlSpec(s: string): Parsed {
    var digits := LeadingDigits(Body(s));
    if Body(s) == "" then Malformed
    else if DigitsValue(digits) > MAX_LL then Overflows
    else if digits == Body(s) then Value(NumeralValue(s))
    else Malformed
  }

  method ToLl(sv: string) returns (r: Parsed)
    ensures r == ToLlSpec(sv)
  {
    if sv == "" { return Malformed; }
    var neg := sv[0] == '-';
    if neg && |sv| == 1 { return Malformed; }
    r := Accumulate(if neg then sv[1..] else sv);
    if r.Value? && neg { r := Value(-r.v); }
  }

  /** The digit loop of to_ll. */
  method Accumulate(body: string) returns (r: Parsed)
    ensures var digits := LeadingDigits(body);
      r == if DigitsValue(digits) > MAX_LL then Overflows
           else if digits == body then Value(DigitsValue(body)) else Malformed
  {
    ghost var digits := LeadingDigits(body);
    var v := 0;
    var i := 0;
    while i < |body|
      invariant 0 <= i <= |digits|
      invariant AllDigits(digits[..i]) && v == DigitsValue(digits[..i]) <= MAX_LL
    {
      var c := body[i];
      if !IsDigit(c) {
        assert digits[..i] == digits;
        return Malformed;
      }
      Append(digits, i);
      v := v * 10 + DigitValue(c);
      i := i + 1;
      if v > MAX_LL {
        PrefixBounded(digits, i);
        return Overflows;
      }
    }
    assert digits[..i] == digits && digits == body;
    r := Value(v);
  }

  lemma Append(body: string, n: nat)
    requires n < |body| && AllDigits(body[..n]) && IsDigit(body[n])
    ensures AllDigits(body[..n + 1])
    ensures DigitsValue(body[..n + 1]) == 10 * DigitsValue(body[..n]) + DigitValue(body[n])
  {
    assert body[..n + 1][..n] == body[..n];
  }

  /** No intermediate value of the accumulator exceeds the final one. */
  lemma {:induction false} PrefixBounded(s: string, k: nat)
    requires AllDigits(s) && k <= |s|
    ensures DigitsValue(s[..k]) <= DigitsValue(s)
  {
    if k < |s| {
      PrefixBounded(s[..|s| - 1], k);
      assert s[..|s| - 1][..k] == s[..k];
    } else {
      assert s[..k] == s;
    }
  }

  /** to_ll accepts exactly the numerals whose magnitude fits 63 bits, and returns what they denote. */
  lemma ToLlAccepts(s: string, v: int)
    ensures ToLlSpec(s) == Value(v) <==> IsNumeral(s) && NumeralValue(s) == v && -MAX_LL <= v <= MAX_LL
  {
    var body := Body(s);
    assert AllDigits(body) ==> LeadingDigits(body) == body[..|body|] == body;
  }

  /** Each digit counts by the power of ten of the digits behind it. */
  lemma {:induction false} PlaceValue(c: char, s: string)
    requires IsDigit(c) && AllDigits(s)
    ensures DigitsValue([c] + s) == DigitValue(c) * Pow10(|s|) + DigitsValue(s)
    ensures DigitValue('0') == 0 && DigitValue('1') == 1 && DigitValue('9') == 9
  {
    var t := [c] + s;
    if s == "" {
      assert t[..0] == "" && Pow10(0) == 1;
    } else {
      var n := |s| - 1;
      PlaceValue(c, s[..n]);
      assert t[..|t| - 1] == [c] + s[..n] && t[|t| - 1] == s[n];
      TenTimes(DigitValue(c), Pow10(n));
    }
  }

  lemma TenTimes(x: int, y: int)
    ensures 10 * (x * y) == x * (10 * y)
  {
  }

  // ---- printing ---------------------------------------------------------------

  function Dec(n: nat): (s: string)
    ensures |s| > 0 && AllDigits(s)
  {
    if n < 10 then [Digit(n)] else Dec(n / 10) + [Digit(n % 10)]
  }

  /** printf's %lld. */
  function Ll(v: int): string {
    if v < 0 then "-" + Dec(-v) else Dec(v)
  }

  function TwoDigits(n: nat): string
    requires n < 100
  {
    [Digit(n / 10), Digit(n % 10)]
  }

  function Cents(n: nat): string { Dec(n / 100) + ("." + TwoDigits(n % 100)) }

  /** printf's %.2f on an amount of whole cents. */
  function Price(cents: int): string {
    if cents < 0 then "-" + Cents(-cents) else Cents(cents)
  }

  // ---- std::stod, in cents -----------------------------------------------------

  /** m times ten to the k, if that is a whole number. */
  function Scale(m: nat, k: int): Option<nat>
    decreases if k >= 0 then k else -k
  {
    if k == 0 then Some(m)
    else if k > 0 then Scale(10 * m, k - 1)
    else if m % 10 == 0 then Scale(m / 10, k + 1)
    else None
  }

  function Pow10(k: nat): (p: nat)
    ensures p > 0
  {
    if k == 0 then 1 else 10 * Pow10(k - 1)
  }

  /** Scale multiplies by a power of ten, or divides by one exactly when that leaves no remainder. */
  lemma {:induction false} ScaleIs(m: nat, k: int, n: nat)
    ensures Scale(m, k) == Some(n) <==> if k >= 0 then n == m * Pow10(k) else n * Pow10(-k) == m
    decreases if k >= 0 then k else -k
  {
    if k > 0 {
      ScaleIs(10 * m, k - 1, n);
      TenTimes(m, Pow10(k - 1));
      TenFirst(m, Pow10(k - 1));
    } else if k < 0 {
      var p := Pow10(-k - 1);
      TenTimes(n, p);
      if m % 10 == 0 { ScaleIs(m / 10, k + 1, n); }
    }
  }

  lemma TenFirst(x: int, y: int)
    ensures (10 * x) * y == 10 * (x * y)
  {
  }

  function Signed(neg: bool, r: Option<nat>): Option<int> {
    match r
    case None => None
    case Some(n) => var v: int := n; Some(if neg then -v else v)
  }

  function DigitRun(s: string, from: nat): (r: string)
    requires from <= |s|
    ensures AllDigits(r) && from + |r| <= |s|
    decreases |s| - from
  {
    if from < |s| && IsDigit(s[from]) then [s[from]] + DigitRun(s, from + 1) else ""
  }

  function PlusMinusEnd(s: string, p: nat): (q: nat)
    requires p <= |s|
    ensures p <= q <= |s|
  {
    if p < |s| && (s[p] == '-' || s[p] == '+') then p + 1 else p
  }

  function PointAt(s: string, i: nat): bool { i < |s| && s[i] == '.' }

  /** The exponent that starts at j, or 0. */
  function Exponent(s: string, j: nat): int
    requires j <= |s|
  {
    if j < |s| && (s[j] == 'e' || s[j] == 'E') then
      var d := PlusMinusEnd(s, j + 1);
      var v: int := DigitsValue(DigitRun(s, d));
      if s[d - 1] == '-' then -v else v
    else 0
  }

  function Fraction(s: string, i: nat): (r: string)
    requires i <= |s|
    ensures AllDigits(r)
  {
    if PointAt(s, i) then DigitRun(s, i + 1) else ""
  }

  function FractionEnd(s: string, i: nat): (j: nat)
    requires i <= |s|
    ensures i <= j <= |s|
  {
    if PointAt(s, i) then i + 1 + |DigitRun(s, i + 1)| else i
  }

  /** A decimal number: its digits, and the power of ten by which they count, in cents. */
  datatype Decimal = Decimal(digits: string, power: int)

  /** The number after the sign, read at q: digits, a fraction and an exponent; what follows them is
      ignored. None when there are no digits. */
  function ReadDecimal(s: string, q: nat): (r: Option<Decimal>)
    requires q <= |s|
    ensures r.Some? ==> AllDigits(r.value.digits)
  {
    var whole := DigitRun(s, q);
    var i := q + |whole|;
    ToDecimal(whole, Fraction(s, i), Exponent(s, FractionEnd(s, i)))
  }

  function ToDecimal(whole: string, frac: string, exponent: int): Option<Decimal> {
    if whole + frac == "" then None else Some(Decimal(whole + frac, exponent + 2 - |frac|))
  }

  /** Its value, when that is a whole number of cents. */
  function Magnitude(s: string, q: nat): Option<nat>
    requires q <= |s|
  {
    match ReadDecimal(s, q)
    case None => None
    case Some(d) => Scale(DigitsValue(d.digits), d.power)
  }

  /** std::stod: spaces, a sign and the number. */
  function ParsePrice(s: string): Option<int> {
    var p := RunEnd(s, 0, Spaces);
    var q := PlusMinusEnd(s, p);
    Signed(q > p && s[p] == '-', Magnitude(s, q))
  }

  lemma {:induction false} DecValue(n: nat)
    ensures DigitsValue(Dec(n)) == n
  {
    if n < 10 {
      assert Dec(n)[..0] == "";
    } else {
      DecValue(n / 10);
      assert Dec(n)[..|Dec(n)| - 1] == Dec(n / 10);
    }
  }

  lemma LlParses(v: int)
    ensures IsNumeral(Ll(v)) && NumeralValue(Ll(v)) == v
  {
    if v < 0 {
      DecValue(-v);
      assert Body(Ll(v)) == Dec(-v);
    } else {
      DecValue(v);
      assert IsDigit(Dec(v)[0]);
    }
  }

  /** The parser inverts the printer exactly on the magnitudes up to 2^63 - 1. */
  lemma ToLlInvertsPrinting(v: int)
    ensures ToLlSpec(Ll(v)) == Value(v) <==> -MAX_LL <= v <= MAX_LL
  {
    LlParses(v);
    ToLlAccepts(Ll(v), v);
  }


  /** A blank or one of the control characters from tab to carriage return. */
  predicate IsSpace(c: char) { c == ' ' || 9 <= c as int <= 13 }

  /** Text that may follow the digits of a number, and the exponent it begins with, or 0. */
  ghost predicate Follows(stop: string, e: int) {
    (stop == "" || (!IsDigit(stop[0]) && stop[0] != '.')) && Exponent(stop, 0) == e
  }

  /** Other text has no exponent; a mark, a sign and digits are one. */
  lemma {:induction false} PlainFollows(stop: string)
    requires stop == "" || !(IsDigit(stop[0]) || stop[0] == '.' || stop[0] == 'e' || stop[0] == 'E')
    ensures Follows(stop, 0)
  {
  }

  lemma {:induction false} ExponentFollows(mark: char, sign: string, digits: string, stop: string)
    requires (mark == 'e' || mark == 'E') && (sign == "" || sign == "-" || sign == "+")
    requires digits != "" && AllDigits(digits) && (stop == "" || !IsDigit(stop[0]))
    ensures var n: int := DigitsValue(digits);
      Follows([mark] + (sign + (digits + stop)), if sign == "-" then -n else n)
  {
    var after := sign + (digits + stop);
    var s := [mark] + after;
    assert s[1] == after[0];
    assert sign == "" ==> after[0] == digits[0];
    var d := 1 + |sign|;
    assert PlusMinusEnd(s, 1) == d && s[d..] == digits + stop;
    DigitRunIs(s, d, digits, stop);
  }

  lemma {:induction false} DigitRunOfSuffix(s: string, j: nat, a: nat)
    requires j + a <= |s|
    ensures DigitRun(s[j..], a) == DigitRun(s, j + a)
    decreases |s| - j - a
  {
    if j + a < |s| {
      assert s[j..][a] == s[j + a];
      DigitRunOfSuffix(s, j, a + 1);
    }
  }

  lemma {:induction false} ExponentOfSuffix(s: string, j: nat, stop: string)
    requires j <= |s| && s[j..] == stop
    ensures Exponent(s, j) == Exponent(stop, 0)
    ensures PointAt(s, j) <==> PointAt(stop, 0)
  {
    if j < |s| {
      assert s[j] == stop[0];
      assert j + 1 < |s| ==> s[j + 1] == stop[1];
      DigitRunOfSuffix(s, j, 1);
      if j + 1 < |s| { DigitRunOfSuffix(s, j, 2); }
    }
  }

  /** A fraction and what follows it. */
  ghost predicate IsTail(rest: string, point: bool, frac: string, stop: string, e: int) {
    && AllDigits(frac) && Follows(stop, e) && (point || frac == "")
    && rest == if point then "." + (frac + stop) else stop
  }

  lemma {:induction false} DigitRunIs(s: string, from: nat, run: string, stop: string)
    requires from <= |s| && s[from..] == run + stop && AllDigits(run)
    requires stop == "" || !IsDigit(stop[0])
    ensures DigitRun(s, from) == run && from + |run| <= |s| && s[from + |run|..] == stop
    decreases |run|
  {
    if run == "" {
      assert run + stop == stop;
      assert from < |s| ==> s[from] == s[from..][0];
    } else {
      assert s[from] == s[from..][0] == run[0];
      assert s[from + 1..] == s[from..][1..] == run[1..] + stop;
      DigitRunIs(s, from + 1, run[1..], stop);
      assert run == [run[0]] + run[1..];
    }
  }

  lemma {:induction false} TailOf(s: string, i: nat, point: bool, frac: string, stop: string, e: int)
    requires i <= |s| && IsTail(s[i..], point, frac, stop, e)
    ensures Fraction(s, i) == frac && Exponent(s, FractionEnd(s, i)) == e
  {
    if point {
      assert s[i] == s[i..][0] && s[i + 1..] == s[i..][1..] == frac + stop;
      DigitRunIs(s, i + 1, frac, stop);
      ExponentOfSuffix(s, i + 1 + |frac|, stop);
    } else {
      ExponentOfSuffix(s, i, stop);
    }
  }

  lemma TailStops(rest: string, point: bool, frac: string, stop: string, e: int)
    requires IsTail(rest, point, frac, stop, e)
    ensures rest == "" || !IsDigit(rest[0])
  {
  }

  /** The digits, the fraction and the exponent that are read from q on. */
  ghost predicate PartsAt(s: string, q: nat, whole: string, frac: string, power: int) {
    && q + |whole| <= |s| && DigitRun(s, q) == whole && Fraction(s, q + |whole|) == frac
    && Exponent(s, FractionEnd(s, q + |whole|)) == power
  }

  lemma {:induction false} PartsOf(s: string, q: nat, whole: string, rest: string, point: bool, frac: string, stop: string, e: int)
    requires q <= |s| && s[q..] == whole + rest && IsTail(rest, point, frac, stop, e) && AllDigits(whole)
    ensures PartsAt(s, q, whole, frac, e)
  {
    TailStops(rest, point, frac, stop, e);
    DigitRunIs(s, q, whole, rest);
    TailOf(s, q + |whole|, point, frac, stop, e);
  }

  lemma {:induction false} SignOf(s: string, spaces: string, sign: string, number: string)
    requires s == spaces + (sign + number) && forall i | 0 <= i < |spaces| :: IsSpace(spaces[i])
    requires sign == "" || sign == "-" || sign == "+"
    requires number != "" && (IsDigit(number[0]) || number[0] == '.')
    ensures var p := RunEnd(s, 0, Spaces);
      var q := PlusMinusEnd(s, p);
      s[q..] == number && ((q > p && s[p] == '-') <==> sign == "-")
  {
    assert s[0..] == s;
    RunIs(s, Spaces, 0, spaces, sign + number);
    var p := |spaces|;
    assert s[p] == (sign + number)[0];
    assert s[p + |sign|..] == number;
  }

  lemma DecimalAt(s: string, q: nat, whole: string, frac: string, power: int)
    requires PartsAt(s, q, whole, frac, power) && whole + frac != ""
    ensures ReadDecimal(s, q) == Some(Decimal(whole + frac, power + 2 - |frac|))
  {
  }

  /** The sign and the decimal that ParsePrice reads. */
  ghost predicate Reads(s: string, neg: bool, d: Decimal) {
    var p := RunEnd(s, 0, Spaces);
    var q := PlusMinusEnd(s, p);
    ReadDecimal(s, q) == Some(d) && (neg <==> (q > p && s[p] == '-'))
  }

  lemma {:induction false} ReadsPlain(s: string, spaces: string, sign: string, number: string, whole: string,
                                      rest: string, point: bool, frac: string, stop: string, e: int)
    requires s == spaces + (sign + number) && number == whole + rest && IsTail(rest, point, frac, stop, e)
    requires (forall i | 0 <= i < |spaces| :: IsSpace(spaces[i])) && (sign == "" || sign == "-" || sign == "+")
    requires AllDigits(whole) && whole + frac != ""
    ensures Reads(s, sign == "-", Decimal(whole + frac, e + 2 - |frac|))
  {
    StartsNumber(whole, rest, point, frac, stop, e);
    SignOf(s, spaces, sign, number);
    var q := PlusMinusEnd(s, RunEnd(s, 0, Spaces));
    PartsOf(s, q, whole, rest, point, frac, stop, e);
    DecimalAt(s, q, whole, frac, e);
  }

  /** A decimal, with or without a point and an exponent, after spaces and a sign and before other
      text, is read as the number its digits denote, scaled by the exponent and to cents. */
  lemma {:induction false} DecimalParses(s: string, spaces: string, sign: string, number: string, whole: string,
                                         rest: string, point: bool, frac: string, stop: string, e: int, d: Decimal)
    requires s == spaces + (sign + number) && number == whole + rest && IsTail(rest, point, frac, stop, e)
    requires (forall i | 0 <= i < |spaces| :: IsSpace(spaces[i])) && (sign == "" || sign == "-" || sign == "+")
    requires AllDigits(whole) && whole + frac != "" && d == Decimal(whole + frac, e + 2 - |frac|)
    ensures AllDigits(d.digits) && ParsePrice(s) == Signed(sign == "-", Scale(DigitsValue(d.digits), d.power))
  {
    ReadsPlain(s, spaces, sign, number, whole, rest, point, frac, stop, e);
    FromDecimal(s, sign == "-", d);
  }

  lemma StartsNumber(whole: string, rest: string, point: bool, frac: string, stop: string, e: int)
    requires IsTail(rest, point, frac, stop, e) && AllDigits(whole) && whole + frac != ""
    ensures whole + rest != "" && (IsDigit((whole + rest)[0]) || (whole + rest)[0] == '.')
  {
    if whole == "" {
      assert point;
      assert whole + rest == "." + (frac + stop);
    } else {
      assert (whole + rest)[0] == whole[0];
    }
  }

  /** Without a digit behind the spaces and the sign there is no price. */
  lemma {:induction false} NoDigitsNoPrice(s: string, spaces: string, sign: string, rest: string)
    requires s == spaces + (sign + rest) && forall i | 0 <= i < |spaces| :: IsSpace(spaces[i])
    requires sign == "" || sign == "-" || sign == "+"
    requires rest == "" || !(IsDigit(rest[0]) || IsSpace(rest[0]) || rest[0] in ".-+")
    ensures ParsePrice(s).None?
  {
    assert s[0..] == s;
    assert sign == "" ==> sign + rest == rest;
    RunIs(s, Spaces, 0, spaces, sign + rest);
    var p := |spaces|;
    assert p < |s| ==> s[p] == (sign + rest)[0];
    var q := p + |sign|;
    assert PlusMinusEnd(s, p) == q && s[q..] == rest;
    assert q < |s| ==> s[q] == rest[0];
  }

  lemma FromDecimal(s: string, neg: bool, d: Decimal)
    requires AllDigits(d.digits) && Reads(s, neg, d)
    ensures ParsePrice(s) == Signed(neg, Scale(DigitsValue(d.digits), d.power))
  {
  }

  lemma CentsDigits(n: nat)
    ensures AllDigits(Dec(n / 100) + TwoDigits(n % 100)) && DigitsValue(Dec(n / 100) + TwoDigits(n % 100)) == n
  {
    var d, f := Dec(n / 100), TwoDigits(n % 100);
    DecValue(n / 100);
    assert (d + f)[..|d|] == d && (d + f)[..|d| + 2] == d + f;
    Append(d + f, |d|);
    Append(d + f, |d| + 1);
  }

  lemma {:induction false} TwoDecimals(s: string, sign: string, d: string, f: string)
    requires s == sign + (d + ("." + f)) && (sign == "" || sign == "-")
    requires AllDigits(d) && AllDigits(f) && |f| == 2
    ensures ParsePrice(s) == Signed(sign == "-", Some(DigitsValue(d + f)))
  {
    assert s == "" + (sign + (d + ("." + f))) && "." + f == "." + (f + "");
    DecimalParses(s, "", sign, d + ("." + f), d, "." + f, true, f, "", 0, Decimal(d + f, 0));
  }

  lemma PriceText(cents: int, n: nat)
    requires n == if cents < 0 then -cents else cents
    ensures Price(cents) == (if cents < 0 then "-" else "") + (Dec(n / 100) + ("." + TwoDigits(n % 100)))
  {
    assert "" + Cents(n) == Cents(n);
  }

  /** std::stod recovers the printed cents. */
  lemma {:induction false} PriceParses(cents: int)
    ensures ParsePrice(Price(cents)) == Some(cents)
  {
    var n: nat := if cents < 0 then -cents else cents;
    var d, f := Dec(n / 100), TwoDigits(n % 100);
    CentsDigits(n);
    PriceText(cents, n);
    TwoDecimals(Price(cents), if cents < 0 then "-" else "", d, f);
  }
}
