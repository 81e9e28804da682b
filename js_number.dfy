/** JavaScript's `parseFloat` on decimal text, kept exact: the value it reads is a
    sign with either Infinity or a decimal `digits * 10^scale`, and comparisons with an
    integer bound are decided on that exact value. Rounding to the nearest binary64
    value is not part of this model. */
module JsNumber {
  import opened Text

  /** The value `parseFloat` reads: NaN, a signed infinity, or the signed exact
      decimal `digits * 10^scale`. */
  datatype Numeral =
    | NaN
    | Infinite(negative: bool)
    | Finite(negative: bool, digits: nat, scale: int)

  const InfinityText := "Infinity"

  /** The longest prefix of decimal digits. */
  function TakeDigits(s: string): (d: string)
    ensures |d| <= |s| && d == s[..|d|] && AllDigits(d)
    ensures |d| == |s| || !IsDigit(s[|d|])
  {
    if s == [] || !IsDigit(s[0]) then [] else [s[0]] + TakeDigits(s[1..])
  }

  /** The optional sign in front of a number: whether it is `-`, and what follows it. */
  function Unsigned(s: string): (string, bool)
  {
    if |s| > 0 && (s[0] == '-' || s[0] == '+') then (s[1..], s[0] == '-') else (s, false)
  }

  /** The value of an exponent part (`e` or `E`, an optional sign, at least one digit)
      at the start of `s`; 0 when there is none, as `parseFloat` then stops before it. */
  function ExponentValue(s: string): int
  {
    if |s| > 0 && (s[0] == 'e' || s[0] == 'E') then
      var (body, negative) := Unsigned(s[1..]);
      var digits := TakeDigits(body);
      if digits == [] then 0
      else if negative then -(DigitsValue(digits) as int)
      else DigitsValue(digits)
    else 0
  }

  /** `parseFloat(s)`: leading white space is skipped, then the longest prefix of the
      form `[+-]Infinity` or `[+-]digits[.digits][(e|E)[+-]digits]` (with digits on at
      least one side of the point) is read; anything else gives NaN. */
  function ParseFloat(s: string): Numeral
  {
    var (body, negative) := Unsigned(TrimStart(s));
    if OccursAt(body, InfinityText, 0) then Infinite(negative)
    else ParseDecimal(body, negative)
  }

  /** The unsigned decimal literal at the start of `body`: its integer digits, then
      an optional point with fraction digits, then an optional exponent part. */
  function ParseDecimal(body: string, negative: bool): Numeral
  {
    var intPart := TakeDigits(body);
    var afterInt := body[|intPart|..];
    if |afterInt| > 0 && afterInt[0] == '.' then
      var fracPart := TakeDigits(afterInt[1..]);
      MakeDecimal(negative, intPart, fracPart, afterInt[1 + |fracPart|..])
    else MakeDecimal(negative, intPart, "", afterInt)
  }

  /** The number `intPart.fracPart` scaled by the exponent at the start of
      `afterMantissa`; NaN when there are no digits at all. */
  function MakeDecimal(negative: bool, intPart: string, fracPart: string, afterMantissa: string): Numeral
    requires AllDigits(intPart) && AllDigits(fracPart)
  {
    if intPart == [] && fracPart == [] then NaN
    else Finite(negative, DigitsValue(intPart + fracPart), ExponentValue(afterMantissa) - |fracPart|)
  }

  /** `x >= bound` in JavaScript, for the number `x` a numeral denotes and a
      non-negative integer bound: false for NaN, and -0 counts as 0. */
  predicate AtLeast(x: Numeral, bound: nat)
  {
    match x
    case NaN => false
    case Infinite(negative) => !negative
    case Finite(negative, digits, scale) =>
      if negative then digits == 0 && bound == 0
      else if scale >= 0 then digits * Pow10(scale) >= bound
      else digits >= bound * Pow10(-scale)
  }

  // ---------------------------------------------------------------------------
  // What the comparison decides for the usual forms of humidity text

  /** Empty text is not a number. */
  lemma EmptyIsNaN()
    ensures ParseFloat("") == NaN
  {
    assert TrimStart("") == "";
  }

  /** Text whose first visible character cannot start a number is not a number. */
  lemma {:induction false} NonNumericIsNaN(s: string)
    requires var t := TrimStart(s);
      t == [] || !(IsDigit(t[0]) || t[0] in ".+-I")
    ensures ParseFloat(s) == NaN
  {
    var t := TrimStart(s);
    assert Unsigned(t) == (t, false);
    assert !OccursAt(t, InfinityText, 0) by {
      if t != [] {
        assert t[0] != InfinityText[0];
      }
    }
    assert ParseDecimal(t, false) == NaN by {
      assert TakeDigits(t) == [];
      assert t[0..] == t;
      if t != [] {
        assert t[0] != '.';
      }
    }
  }

  /** A minus sign never reaches a positive bound: the value is at most zero, or NaN. */
  lemma NegativeNeverAtLeast(s: string, bound: nat)
    requires bound > 0
    requires var t := TrimStart(s); |t| > 0 && t[0] == '-'
    ensures !AtLeast(ParseFloat(s), bound)
  {
    var t := TrimStart(s);
    assert Unsigned(t) == (t[1..], true);
    if !OccursAt(t[1..], InfinityText, 0) {
      DecimalKeepsSign(t[1..], true);
    }
  }

  /** A decimal literal is NaN or carries the sign read in front of it. */
  lemma DecimalKeepsSign(body: string, negative: bool)
    ensures var x := ParseDecimal(body, negative);
      x == NaN || (x.Finite? && x.negative == negative)
  {
  }

  /** A digit run starts the text exactly as `TakeDigits` sees it. */
  lemma {:induction false} TakeDigitsOfPrefix(i: string, rest: string)
    requires AllDigits(i)
    requires rest == [] || !IsDigit(rest[0])
    ensures TakeDigits(i + rest) == i
    decreases |i|
  {
    if i == [] {
      assert i + rest == rest;
    } else {
      assert (i + rest)[1..] == i[1..] + rest;
      TakeDigitsOfPrefix(i[1..], rest);
      assert [i[0]] + i[1..] == i;
    }
  }

  /** Text that starts with a digit is its own unsigned body. */
  lemma StartsWithDigit(s: string)
    requires |s| > 0 && IsDigit(s[0])
    ensures ParseFloat(s) == ParseDecimal(s, false)
  {
    assert TrimStart(s) == s;
    assert Unsigned(s) == (s, false);
    assert !OccursAt(s, InfinityText, 0) by {
      assert s[0] != InfinityText[0];
    }
  }

  /** The literal of a whole number: digits not followed by a point. */
  lemma WholeLiteral(i: string, rest: string)
    requires |i| >= 1 && AllDigits(i)
    requires rest == [] || !(IsDigit(rest[0]) || rest[0] == '.')
    ensures ParseDecimal(i + rest, false) == MakeDecimal(false, i, "", rest)
  {
    TakeDigitsOfPrefix(i, rest);
    assert (i + rest)[|i|..] == rest;
  }

  /** The literal of a number with a fraction: digits, a point, digits. */
  lemma FractionLiteral(i: string, f: string, rest: string)
    requires AllDigits(i) && AllDigits(f)
    requires rest == [] || !IsDigit(rest[0])
    ensures ParseDecimal(i + ("." + f + rest), false) == MakeDecimal(false, i, f, rest)
  {
    var tail := "." + f + rest;
    TakeDigitsOfPrefix(i, tail);
    assert (i + tail)[|i|..] == tail;
    assert tail[1..] == f + rest;
    TakeDigitsOfPrefix(f, rest);
    assert tail[1 + |f|..] == rest;
  }

  /** Whole-number text (digits, then anything that cannot continue a number, such as
      the carriage return of a CRLF line) reaches the bound iff its value does. */
  lemma IntegerTextAtLeast(i: string, rest: string, bound: nat)
    requires |i| >= 1 && AllDigits(i)
    requires rest == [] || !(IsDigit(rest[0]) || rest[0] in ".eE")
    ensures AtLeast(ParseFloat(i + rest), bound) <==> DigitsValue(i) >= bound
  {
    WholeTextValue(i, rest);
    FractionAtLeast(DigitsValue(i), DigitsValue(i), 0, 0, bound);
  }

  /** The value read from whole-number text followed by text that cannot continue it. */
  lemma WholeTextValue(i: string, rest: string)
    requires |i| >= 1 && AllDigits(i)
    requires rest == [] || !(IsDigit(rest[0]) || rest[0] in ".eE")
    ensures ParseFloat(i + rest) == Finite(false, DigitsValue(i), 0)
  {
    var s := i + rest;
    assert ParseFloat(s) == ParseDecimal(s, false) by {
      assert s[0] == i[0];
      StartsWithDigit(s);
    }
    assert ParseDecimal(s, false) == MakeDecimal(false, i, "", rest) by {
      WholeLiteral(i, rest);
    }
    WholeMantissa(i, rest);
  }

  lemma WholeMantissa(i: string, rest: string)
    requires |i| >= 1 && AllDigits(i)
    requires rest == [] || !(rest[0] in "eE")
    ensures MakeDecimal(false, i, "", rest) == Finite(false, DigitsValue(i), 0)
  {
    assert i + "" == i;
  }

  /** Decimal text with a fraction and no exponent reaches an integer bound iff its
      integer-digit prefix does: the fraction never lifts a value past an integer. */
  lemma DecimalTextAtLeast(i: string, f: string, rest: string, bound: nat)
    requires |i| >= 1 && AllDigits(i) && AllDigits(f)
    requires rest == [] || !(IsDigit(rest[0]) || rest[0] in "eE")
    ensures AtLeast(ParseFloat(i + "." + f + rest), bound) <==> DigitsValue(i) >= bound
  {
    DigitsValueConcat(i, f);
    FractionTextValue(i, f, rest);
    FractionAtLeast(DigitsValue(i + f), DigitsValue(i), DigitsValue(f), |f|, bound);
  }

  /** The value read from `i.f` followed by text that cannot continue it. */
  lemma FractionTextValue(i: string, f: string, rest: string)
    requires |i| >= 1 && AllDigits(i) && AllDigits(f) && AllDigits(i + f)
    requires rest == [] || !(IsDigit(rest[0]) || rest[0] in "eE")
    ensures ParseFloat(i + "." + f + rest) == Finite(false, DigitsValue(i + f), -(|f| as int))
  {
    var s := i + ("." + f + rest);
    assert i + "." + f + rest == s;
    assert s[0] == i[0];
    StartsWithDigit(s);
    FractionLiteral(i, f, rest);
    MantissaWithoutExponent(i, f, rest);
  }

  lemma MantissaWithoutExponent(i: string, f: string, rest: string)
    requires |i| >= 1 && AllDigits(i) && AllDigits(f) && AllDigits(i + f)
    requires rest == [] || !(rest[0] in "eE")
    ensures MakeDecimal(false, i, f, rest) == Finite(false, DigitsValue(i + f), -(|f| as int))
  {
  }

  /** `vi.vf` with `k` fraction digits reaches an integer bound iff `vi` does. */
  lemma FractionAtLeast(m: nat, vi: nat, vf: nat, k: nat, bound: nat)
    requires vf < Pow10(k) && m == vi * Pow10(k) + vf
    ensures AtLeast(Finite(false, m, -(k as int)), bound) <==> vi >= bound
  {
    var p := Pow10(k);
    if k == 0 {
      assert p == 1;
    } else {
      FractionBelowOne(vi, vf, p, bound);
    }
  }

  lemma FractionBelowOne(vi: nat, vf: nat, p: nat, bound: nat)
    requires vf < p
    ensures vi * p + vf >= bound * p <==> vi >= bound
  {
    if vi >= bound {
      assert vi * p >= bound * p by {
        MultiplyMonotonic(bound, vi, p);
      }
    } else {
      assert (vi + 1) * p <= bound * p by {
        MultiplyMonotonic(vi + 1, bound, p);
      }
    }
  }

  lemma MultiplyMonotonic(a: nat, b: nat, p: nat)
    requires a <= b
    ensures a * p <= b * p
  {
  }

  /** An exponent part `e<digits>` with no sign is worth its digits. */
  lemma PositiveExponent(e: string)
    requires |e| >= 1 && AllDigits(e)
    ensures ExponentValue("e" + e) == DigitsValue(e)
  {
    var tail := "e" + e;
    assert tail[1..] == e;
    assert Unsigned(e) == (e, false);
    TakeDigitsOfPrefix(e, []);
    assert e + [] == e;
  }

  /** The value read from `i` followed by a positive exponent part `e<digits>`. */
  lemma ScientificTextValue(i: string, e: string)
    requires |i| >= 1 && AllDigits(i) && |e| >= 1 && AllDigits(e)
    ensures ParseFloat(i + ("e" + e)) == Finite(false, DigitsValue(i), DigitsValue(e))
  {
    var s := i + ("e" + e);
    assert ParseFloat(s) == ParseDecimal(s, false) by {
      assert s[0] == i[0];
      StartsWithDigit(s);
    }
    assert ParseDecimal(s, false) == MakeDecimal(false, i, "", "e" + e) by {
      assert ("e" + e)[0] == 'e';
      WholeLiteral(i, "e" + e);
    }
    ScientificMantissa(i, e);
  }

  lemma ScientificMantissa(i: string, e: string)
    requires |i| >= 1 && AllDigits(i) && |e| >= 1 && AllDigits(e)
    ensures MakeDecimal(false, i, "", "e" + e) == Finite(false, DigitsValue(i), DigitsValue(e))
  {
    PositiveExponent(e);
    assert i + "" == i;
  }

  /** Exponent forms are read by value: `9e1` is 90 although its integer-digit
      prefix is 9. */
  lemma ExponentReachesNinety()
    ensures AtLeast(ParseFloat("9e1"), 90)
  {
    ScientificTextValue("9", "1");
    assert "9" + ("e" + "1") == "9e1";
    assert DigitsValue("9") == 9 && DigitsValue("1") == 1;
  }

  /** `Infinity` counts as at least any bound, `-Infinity` as below every positive one. */
  lemma InfinityForms()
    ensures AtLeast(ParseFloat("Infinity"), 90)
    ensures !AtLeast(ParseFloat("-Infinity"), 90)
  {
    assert TrimStart("Infinity") == "Infinity";
    assert OccursAt("Infinity", InfinityText, 0);
    assert TrimStart("-Infinity") == "-Infinity";
    assert ("-Infinity")[1..] == "Infinity";
  }
}
