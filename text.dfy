/** The JavaScript string primitives the weather pipeline relies on:
    `String.prototype.split` with a one-character separator, `Array.prototype.join`,
    `padStart`, `trim` and the regular-expression class `\s`, removal of one character
    everywhere (`replace(/\r/g, '')`), and decimal digit text (`parseInt`, `toString`). */
module Text {

  // ---------------------------------------------------------------------------
  // White space

  /** The characters that `trim`, `parseFloat` and the regular-expression class `\s`
      treat as white space: WhiteSpace and LineTerminator of ECMA-262. */
  predicate IsJsWhitespace(c: char) {
    || ('\t' <= c <= '\r')              // TAB, LF, VT, FF, CR
    || c == ' ' || c == '\U{00A0}' || c == '\U{1680}'
    || ('\U{2000}' <= c <= '\U{200A}')
    || c == '\U{2028}' || c == '\U{2029}' || c == '\U{202F}' || c == '\U{205F}'
    || c == '\U{3000}' || c == '\U{FEFF}'
  }

  /** `!s.trim()`: nothing is left once white space is trimmed. */
  predicate IsBlank(s: string) {
    forall i :: 0 <= i < |s| ==> IsJsWhitespace(s[i])
  }

  /** `s.trimStart()`: the suffix left after the leading white space. */
  function TrimStart(s: string): (r: string)
    ensures |r| <= |s| && r == s[|s| - |r|..]
    ensures forall i :: 0 <= i < |s| - |r| ==> IsJsWhitespace(s[i])
    ensures r == [] || !IsJsWhitespace(r[0])
  {
    if s == [] || !IsJsWhitespace(s[0]) then s else TrimStart(s[1..])
  }

  /** The first element of `s.split(/\s+/)`: the longest prefix free of white space
      (empty when `s` starts with white space). */
  function FirstToken(s: string): (t: string)
    ensures |t| <= |s| && t == s[..|t|]
    ensures forall i :: 0 <= i < |t| ==> !IsJsWhitespace(t[i])
    ensures |t| == |s| || IsJsWhitespace(s[|t|])
  {
    if s == [] || IsJsWhitespace(s[0]) then [] else [s[0]] + FirstToken(s[1..])
  }

  // ---------------------------------------------------------------------------
  // Splitting and joining

  /** `pieces.join(sep)`. */
  function Join(pieces: seq<string>, sep: char): string
  {
    if |pieces| == 0 then ""
    else if |pieces| == 1 then pieces[0]
    else pieces[0] + [sep] + Join(pieces[1..], sep)
  }

  /** `s.split(sep)` for a one-character separator: the maximal separator-free
      pieces; there is always at least one, and joining them gives `s` back. */
  function Split(s: string, sep: char): (pieces: seq<string>)
    ensures |pieces| >= 1
    ensures forall i :: 0 <= i < |pieces| ==> sep !in pieces[i]
    ensures Join(pieces, sep) == s
    decreases |s|
  {
    if s == [] then [""]
    else
      var rest := Split(s[1..], sep);
      if s[0] == sep then [""] + rest
      else [[s[0]] + rest[0]] + rest[1..]
  }

  /** A separator-free piece followed by the separator splits off as one piece. */
  lemma {:induction false} SplitAfterPiece(piece: string, sep: char, rest: string)
    requires sep !in piece
    ensures Split(piece + [sep] + rest, sep) == [piece] + Split(rest, sep)
    decreases |piece|
  {
    if piece == [] {
      assert piece + [sep] + rest == [sep] + rest;
    } else {
      var s := piece + [sep] + rest;
      assert s[1..] == piece[1..] + [sep] + rest;
      SplitAfterPiece(piece[1..], sep, rest);
      assert [piece[0]] + piece[1..] == piece;
    }
  }

  /** Text without the separator is a single piece. */
  lemma {:induction false} SplitWithoutSeparator(s: string, sep: char)
    requires sep !in s
    ensures Split(s, sep) == [s]
    decreases |s|
  {
    if s != [] {
      SplitWithoutSeparator(s[1..], sep);
      assert [s[0]] + s[1..] == s;
    }
  }

  /** Splitting the joined pieces gives the pieces back: the inverse of `Split`'s
      own `Join(Split(s)) == s`. */
  lemma {:induction false} SplitJoin(pieces: seq<string>, sep: char)
    requires |pieces| >= 1
    requires forall i :: 0 <= i < |pieces| ==> sep !in pieces[i]
    ensures Split(Join(pieces, sep), sep) == pieces
    decreases |pieces|
  {
    if |pieces| == 1 {
      SplitWithoutSeparator(pieces[0], sep);
    } else {
      SplitJoin(pieces[1..], sep);
      SplitAfterPiece(pieces[0], sep, Join(pieces[1..], sep));
      assert [pieces[0]] + pieces[1..] == pieces;
    }
  }

  /** `lines.slice(n)`. */
  function DropFirst<T>(xs: seq<T>, n: nat): (r: seq<T>)
    ensures |r| == if |xs| <= n then 0 else |xs| - n
    ensures forall i :: 0 <= i < |r| ==> r[i] == xs[n + i]
  {
    if |xs| <= n then [] else xs[n..]
  }

  // ---------------------------------------------------------------------------
  // Occurrences of a literal

  /** `pattern` occurs in `s` starting at index `i`. */
  predicate OccursAt(s: string, pattern: string, i: int) {
    0 <= i && i + |pattern| <= |s| && s[i..i + |pattern|] == pattern
  }

  /** `s.includes(pattern)`. */
  predicate Contains(s: string, pattern: string) {
    exists i :: 0 <= i <= |s| && OccursAt(s, pattern, i)
  }

  /** `s.replace(/c/g, '')`: every `c` removed, the other characters kept in order. */
  function RemoveAll(s: string, c: char): (r: string)
    ensures c !in r
    ensures |r| <= |s|
    ensures c !in s ==> r == s
  {
    if s == [] then []
    else if s[0] == c then RemoveAll(s[1..], c)
    else [s[0]] + RemoveAll(s[1..], c)
  }

  /** Removing a character distributes over concatenation, so it keeps the order of
      what it does not remove. */
  lemma {:induction false} RemoveAllAppend(a: string, b: string, c: char)
    ensures RemoveAll(a + b, c) == RemoveAll(a, c) + RemoveAll(b, c)
    decreases |a|
  {
    if a != [] {
      var ab := a + b;
      assert ab[0] == a[0] && ab[1..] == a[1..] + b;
      RemoveAllAppend(a[1..], b, c);
      if a[0] == c {
        assert RemoveAll(ab, c) == RemoveAll(a[1..] + b, c);
        assert RemoveAll(a, c) == RemoveAll(a[1..], c);
      } else {
        assert RemoveAll(ab, c) == [a[0]] + RemoveAll(a[1..] + b, c);
        assert RemoveAll(a, c) == [a[0]] + RemoveAll(a[1..], c);
      }
    } else {
      assert a + b == b;
    }
  }

  /** Removing a character adds none: whatever `s` lacks, the result lacks too. */
  lemma {:induction false} RemoveAllAddsNothing(s: string, c: char, d: char)
    requires d !in s
    ensures d !in RemoveAll(s, c)
    decreases |s|
  {
    if s != [] {
      assert d !in s[1..];
      RemoveAllAddsNothing(s[1..], c, d);
    }
  }

  /** Removing `c` from `a`, `c`, `b` leaves what remains of `a` and of `b`. */
  lemma RemoveAllAround(a: string, b: string, c: char)
    ensures RemoveAll(a + [c] + b, c) == RemoveAll(a, c) + RemoveAll(b, c)
  {
    RemoveAllAppend(a, [c] + b, c);
    assert a + [c] + b == a + ([c] + b);
    assert ([c] + b)[1..] == b;
  }

  // ---------------------------------------------------------------------------
  // Padding

  /** `c` repeated `n` times. */
  function Repeat(c: char, n: nat): (r: string)
    ensures |r| == n && forall i :: 0 <= i < n ==> r[i] == c
  {
    seq(n, _ => c)
  }

  /** `s.padStart(width, fill)` for a one-character `fill`: `s` right-justified to
      `width`; it never truncates, so text already `width` long is kept as it is. */
  function PadStart(s: string, width: nat, fill: char): (r: string)
    ensures |r| == if |s| >= width then |s| else width
    ensures r[|r| - |s|..] == s
    ensures forall i :: 0 <= i < |r| - |s| ==> r[i] == fill
  {
    if |s| >= width then s else Repeat(fill, width - |s|) + s
  }

  // ---------------------------------------------------------------------------
  // Decimal digit text

  predicate IsDigit(c: char) {
    '0' <= c <= '9'
  }

  predicate AllDigits(s: string) {
    forall i :: 0 <= i < |s| ==> IsDigit(s[i])
  }

  function DigitValue(c: char): (d: nat)
    requires IsDigit(c)
    ensures d < 10
  {
    c as int - '0' as int
  }

  function DigitChar(d: nat): (c: char)
    requires d < 10
    ensures IsDigit(c) && DigitValue(c) == d
  {
    ('0' as int + d) as char
  }

  function Pow10(k: nat): (p: nat)
    ensures p >= 1
  {
    if k == 0 then 1 else 10 * Pow10(k - 1)
  }

  /** `parseInt(s, 10)` of a text made of decimal digits only (leading zeros allowed). */
  function DigitsValue(s: string): (n: nat)
    requires AllDigits(s)
    ensures n < Pow10(|s|)
  {
    if s == [] then 0 else DigitsValue(s[..|s| - 1]) * 10 + DigitValue(s[|s| - 1])
  }

  /** `n.toString()` for a non-negative integer: decimal digits without a leading zero
      whose value is `n`. */
  function NatToString(n: nat): (s: string)
    ensures |s| >= 1 && AllDigits(s) && DigitsValue(s) == n
    ensures |s| == 1 || s[0] != '0'
  {
    if n < 10 then [DigitChar(n)]
    else
      var init := NatToString(n / 10);
      var s := init + [DigitChar(n % 10)];
      assert s[..|s| - 1] == init;
      s
  }

  /** A digit text's value grows as a new last digit is written. */
  lemma DigitsValueAppend(s: string, c: char)
    requires AllDigits(s) && IsDigit(c)
    ensures AllDigits(s + [c]) && DigitsValue(s + [c]) == DigitsValue(s) * 10 + DigitValue(c)
  {
    assert (s + [c])[..|s|] == s;
  }

  /** A digit text of length `|a| + |b|` is worth `a`'s value shifted by `|b|` places
      plus `b`'s value. */
  lemma {:induction false} DigitsValueConcat(a: string, b: string)
    requires AllDigits(a) && AllDigits(b)
    ensures AllDigits(a + b)
    ensures DigitsValue(a + b) == DigitsValue(a) * Pow10(|b|) + DigitsValue(b)
    decreases |b|
  {
    if b == [] {
      assert a + b == a;
    } else {
      var init, last := b[..|b| - 1], b[|b| - 1];
      DigitsValueConcat(a, init);
      assert a + b == (a + init) + [last];
      DigitsValueAppend(a + init, last);
      assert b == init + [last];
      DigitsValueAppend(init, last);
      ShiftArithmetic(DigitsValue(a), Pow10(|init|), DigitsValue(init), DigitValue(last));
    }
  }

  lemma ShiftArithmetic(va: int, p: int, vi: int, d: int)
    ensures (va * p + vi) * 10 + d == va * (10 * p) + (vi * 10 + d)
  {
  }

  /** A digit text whose first digit is not zero is worth at least 10^(length-1). */
  lemma {:induction false} DigitsValueLowerBound(s: string)
    requires |s| >= 1 && AllDigits(s) && s[0] != '0'
    ensures DigitsValue(s) >= Pow10(|s| - 1)
    decreases |s|
  {
    if |s| > 1 {
      DigitsValueLowerBound(s[..|s| - 1]);
    }
  }

  /** Reading back the decimal text of a value gives the value, and printing the value
      of a digit text without a leading zero gives the text: `NatToString` and
      `DigitsValue` are inverse on canonical decimal text. */
  lemma {:induction false} NatToStringOfDigits(s: string)
    requires |s| >= 1 && AllDigits(s) && (|s| == 1 || s[0] != '0')
    ensures NatToString(DigitsValue(s)) == s
    decreases |s|
  {
    var init, last := s[..|s| - 1], s[|s| - 1];
    if |s| == 1 {
      assert DigitChar(DigitValue(last)) == last;
    } else {
      var m, d := DigitsValue(init), DigitValue(last);
      assert DigitsValue(s) == m * 10 + d;
      NatToStringOfDigits(init);
      DigitsValueLowerBound(init);
      assert (m * 10 + d) / 10 == m && (m * 10 + d) % 10 == d;
      assert DigitChar(d) == last;
      assert NatToString(m * 10 + d) == NatToString(m) + [DigitChar(d)];
      assert init + [last] == s;
    }
  }

  /** The decimal text of `n` has `k` digits exactly when `n` has `k` digits. */
  lemma NatToStringLength(n: nat, k: nat)
    requires k >= 1 && Pow10(k - 1) <= n < Pow10(k)
    ensures |NatToString(n)| == k
  {
    var s := NatToString(n);
    if |s| < k {
      assert n < Pow10(|s|);
      Pow10Monotonic(|s|, k - 1);
    } else if |s| > k {
      DigitsValueLowerBound(s);
      Pow10Monotonic(k, |s| - 1);
    }
  }

  lemma {:induction false} Pow10Monotonic(i: nat, j: nat)
    requires i <= j
    ensures Pow10(i) <= Pow10(j)
    decreases j
  {
    if i < j {
      Pow10Monotonic(i, j - 1);
    }
  }
}
