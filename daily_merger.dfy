/** The merger of `NasaService.fetchAndProcessData`: it copies the daily weather file
    line by line, appends the column title `RH90` to the header line, appends to every
    data line the number of humid hours counted for its date, and drops every other
    line. A data line starts with the date in ordinal form `YYYYDDD`. */
module DailyMerger {
  import opened Wrappers
  import opened Text
  import opened Calendar

  /** The text that marks the column-header line of the daily file. */
  const HeaderMarker := "@  DATE"

  /** What the header line gets appended: the title of the new column. */
  const HeaderSuffix := "    RH90"

  /** The width the count is right-justified to. */
  const CountWidth := 7

  /** `/^\d{7}$/`: exactly seven ASCII digits. */
  predicate IsOrdinalToken(t: string) {
    |t| == 7 && AllDigits(t)
  }

  /** `parseInt(yyyyddd.slice(0, 4), 10)`. */
  function OrdinalYear(t: string): nat
    requires IsOrdinalToken(t)
  {
    DigitsValue(t[..4])
  }

  /** `parseInt(yyyyddd.slice(4), 10)`. */
  function OrdinalDay(t: string): nat
    requires IsOrdinalToken(t)
  {
    DigitsValue(t[4..])
  }

  /** `year > 0 && dayOfYear >= 1 && dayOfYear <= 366`. */
  predicate InRange(year: int, dayOfYear: int) {
    year > 0 && 1 <= dayOfYear <= 366
  }

  /** The key a data line is looked up under: the calendar date of `new Date(year, 0,
      dayOfYear)` in the form `toISOString().slice(0, 10).replace(/-/g, '')`. */
  function OrdinalKey(year: int, dayOfYear: int): string
    requires InRange(year, dayOfYear)
  {
    IsoDateKey(JsDateOfOrdinal(year, dayOfYear))
  }

  /** The count column: the count right-justified to seven characters, or `0` there
      when the date has no entry or a zero entry. */
  function CountField(rh90: map<string, nat>, key: string): string {
    if key in rh90 && rh90[key] != 0 then PadStart(NatToString(rh90[key]), CountWidth, ' ')
    else PadStart("0", CountWidth, ' ')
  }

  /** What one line of the daily file becomes in the output, if anything. */
  function MergeLine(line: string, rh90: map<string, nat>): Option<string> {
    if Contains(line, HeaderMarker) then Some(RemoveAll(line, '\r') + HeaderSuffix)
    else
      var token := FirstToken(line);
      if !IsOrdinalToken(token) then None
      else if !InRange(OrdinalYear(token), OrdinalDay(token)) then None
      else Some(RemoveAll(line, '\r') + CountField(rh90, OrdinalKey(OrdinalYear(token), OrdinalDay(token))))
  }

  /** What each line becomes, in order. */
  function Outcomes(lines: seq<string>, rh90: map<string, nat>): seq<Option<string>> {
    seq(|lines|, i requires 0 <= i < |lines| => MergeLine(lines[i], rh90))
  }

  /** The lines that are kept, in order. */
  function Kept(outcomes: seq<Option<string>>): seq<string> {
    if outcomes == [] then []
    else
      var last := outcomes[|outcomes| - 1];
      Kept(outcomes[..|outcomes| - 1]) + (if last.Some? then [last.value] else [])
  }

  /** The lines of the output file. */
  function MergedLines(lines: seq<string>, rh90: map<string, nat>): seq<string> {
    Kept(Outcomes(lines, rh90))
  }

  /** The content of the output file. */
  function MergedText(dailyText: string, rh90: map<string, nat>): string {
    Join(MergedLines(Split(dailyText, '\n'), rh90), '\n')
  }

  // ---------------------------------------------------------------------------
  // The merging loop

  /** The `forEach` over the lines of the daily file, and the final `join('\n')`. */
  method MergeDaily(dailyText: string, rh90: map<string, nat>) returns (output: string)
    ensures output == MergedText(dailyText, rh90)
  {
    var lines := Split(dailyText, '\n');
    ghost var outcomes := Outcomes(lines, rh90);
    var outputLines: seq<string> := [];
    for i := 0 to |lines|
      invariant outputLines == Kept(outcomes[..i])
    {
      outputLines := MergeDailyLine(outputLines, lines[i], rh90);
      KeptStep(outcomes, i);
    }
    assert outcomes[..|lines|] == outcomes;
    output := Join(outputLines, '\n');
  }

  /** The body of the `forEach` callback: one daily line is pushed, changed, or not
      at all. */
  method MergeDailyLine(outputLines: seq<string>, line: string, rh90: map<string, nat>)
    returns (pushed: seq<string>)
    ensures pushed == outputLines + Kept([MergeLine(line, rh90)])
  {
    KeptOne(MergeLine(line, rh90));
    pushed := outputLines;
    if Contains(line, HeaderMarker) {
      var cleanLine := RemoveAll(line, '\r');
      pushed := pushed + [cleanLine + HeaderSuffix];
    } else {
      var yyyyddd := FirstToken(line);
      if IsOrdinalToken(yyyyddd) {
        var year := OrdinalYear(yyyyddd);
        var dayOfYear := OrdinalDay(yyyyddd);
        if year > 0 && dayOfYear >= 1 && dayOfYear <= 366 {
          var formattedDate := OrdinalKey(year, dayOfYear);
          var count := CountField(rh90, formattedDate);
          var cleanLine := RemoveAll(line, '\r');
          pushed := pushed + [cleanLine + count];
          assert MergeLine(line, rh90) == Some(cleanLine + count);
          return;
        }
      }
      assert MergeLine(line, rh90) == None;
    }
  }

  lemma KeptStep(outcomes: seq<Option<string>>, i: nat)
    requires i < |outcomes|
    ensures Kept(outcomes[..i + 1]) == Kept(outcomes[..i]) + Kept([outcomes[i]])
  {
    assert outcomes[..i + 1] == outcomes[..i] + [outcomes[i]];
    KeptAppend(outcomes[..i], [outcomes[i]]);
  }

  lemma KeptOne(outcome: Option<string>)
    ensures Kept([outcome]) == if outcome.Some? then [outcome.value] else []
  {
    assert [outcome][..0] == [];
  }

  // ---------------------------------------------------------------------------
  // The output as a whole

  /** Keeping distributes over concatenation. */
  lemma {:induction false} KeptAppend(a: seq<Option<string>>, b: seq<Option<string>>)
    ensures Kept(a + b) == Kept(a) + Kept(b)
    decreases |b|
  {
    if b == [] {
      assert a + b == a;
    } else {
      var n := |b| - 1;
      KeptAppend(a, b[..n]);
      assert (a + b)[..|a + b| - 1] == a + b[..n];
    }
  }

  /** Each input line makes at most one output line. */
  lemma {:induction false} KeptAtMost(outcomes: seq<Option<string>>)
    ensures |Kept(outcomes)| <= |outcomes|
    decreases |outcomes|
  {
    if outcomes != [] {
      KeptAtMost(outcomes[..|outcomes| - 1]);
    }
  }

  /** The output keeps the order of the input: merging a file in two parts gives the
      merged first part followed by the merged second part. */
  lemma MergedLinesAppend(a: seq<string>, b: seq<string>, rh90: map<string, nat>)
    ensures MergedLines(a + b, rh90) == MergedLines(a, rh90) + MergedLines(b, rh90)
    ensures |MergedLines(a + b, rh90)| <= |a| + |b|
  {
    OutcomesAppend(a, b, rh90);
    KeptAppend(Outcomes(a, rh90), Outcomes(b, rh90));
    KeptAtMost(Outcomes(a + b, rh90));
  }

  lemma OutcomesAppend(a: seq<string>, b: seq<string>, rh90: map<string, nat>)
    ensures Outcomes(a + b, rh90) == Outcomes(a, rh90) + Outcomes(b, rh90)
  {
    var oab := Outcomes(a + b, rh90);
    OutcomesSlice(a + b, 0, |a|, rh90);
    OutcomesSlice(a + b, |a|, |a + b|, rh90);
    assert (a + b)[0..|a|] == a && (a + b)[|a|..|a + b|] == b;
    assert oab == oab[0..|a|] + oab[|a|..|a + b|];
  }

  /** The outcomes of a slice of the lines are that slice of the outcomes. */
  lemma OutcomesSlice(lines: seq<string>, lo: nat, hi: nat, rh90: map<string, nat>)
    requires lo <= hi <= |lines|
    ensures Outcomes(lines, rh90)[lo..hi] == Outcomes(lines[lo..hi], rh90)
  {
    var whole, part := Outcomes(lines, rh90), Outcomes(lines[lo..hi], rh90);
    forall i | 0 <= i < hi - lo
      ensures whole[lo + i] == part[i]
    {
      assert lines[lo..hi][i] == lines[lo + i];
    }
  }

  /** Kept lines of split text hold no line break. */
  lemma {:induction false} KeptHasNoBreak(lines: seq<string>, rh90: map<string, nat>)
    requires forall i :: 0 <= i < |lines| ==> '\n' !in lines[i]
    ensures forall j :: 0 <= j < |MergedLines(lines, rh90)| ==> '\n' !in MergedLines(lines, rh90)[j]
    decreases |lines|
  {
    if lines != [] {
      var n := |lines| - 1;
      KeptHasNoBreak(lines[..n], rh90);
      var outcomes := Outcomes(lines, rh90);
      OutcomesSlice(lines, 0, n, rh90);
      assert lines[0..n] == lines[..n];
      assert MergedLines(lines, rh90) == MergedLines(lines[..n], rh90) + (if outcomes[n].Some? then [outcomes[n].value] else []);
      MergedLineHasNoBreak(lines[n], rh90);
    }
  }

  lemma MergedLineHasNoBreak(line: string, rh90: map<string, nat>)
    requires '\n' !in line
    ensures MergeLine(line, rh90).Some? ==> '\n' !in MergeLine(line, rh90).value
  {
    RemoveAllAddsNothing(line, '\r', '\n');
    MergeOnlyAppends(line, rh90);
    if MergeLine(line, rh90).Some? {
      var suffix :| MergeLine(line, rh90).value == RemoveAll(line, '\r') + suffix && |suffix| >= CountWidth && NoLineBreak(suffix);
    }
  }

  /** Reading the output file back line by line gives exactly the merged lines: the
      output holds one line per kept input line and nothing else. */
  lemma OutputLinesReadBack(dailyText: string, rh90: map<string, nat>)
    requires MergedLines(Split(dailyText, '\n'), rh90) != []
    ensures Split(MergedText(dailyText, rh90), '\n') == MergedLines(Split(dailyText, '\n'), rh90)
  {
    KeptHasNoBreak(Split(dailyText, '\n'), rh90);
    SplitJoin(MergedLines(Split(dailyText, '\n'), rh90), '\n');
  }

  // ---------------------------------------------------------------------------
  // Single lines

  /** Merging only appends: a kept line is the input line with its carriage returns
      removed, followed by at least seven characters that are no line break (a count
      column or the `RH90` title); no carriage return is left. */
  lemma MergeOnlyAppends(line: string, rh90: map<string, nat>)
    ensures var r := MergeLine(line, rh90);
      r.Some? ==>
        var clean := RemoveAll(line, '\r');
        exists suffix :: r.value == clean + suffix && |suffix| >= CountWidth && NoLineBreak(suffix)
  {
    var r := MergeLine(line, rh90);
    var clean := RemoveAll(line, '\r');
    if r.Some? {
      if Contains(line, HeaderMarker) {
        assert r.value == clean + HeaderSuffix;
        assert NoLineBreak(HeaderSuffix);
      } else {
        var token := FirstToken(line);
        var key := OrdinalKey(OrdinalYear(token), OrdinalDay(token));
        CountFieldReadsBack(rh90, key);
        ColumnHasNoBreak(CountField(rh90, key));
        assert r.value == clean + CountField(rh90, key);
      }
    }
  }

  /** Neither a carriage return nor a line feed occurs in `s`. */
  predicate NoLineBreak(s: string) {
    '\r' !in s && '\n' !in s
  }

  lemma ColumnHasNoBreak(field: string)
    requires forall i :: 0 <= i < |field| ==> field[i] == ' ' || IsDigit(field[i])
    ensures NoLineBreak(field)
  {
  }

  /** The count column reads back as the count: it is at least seven characters wide,
      made of blanks followed by the decimal digits of the count; a missing date and
      a zero count both read as 0. */
  lemma CountFieldReadsBack(rh90: map<string, nat>, key: string)
    ensures var n := if key in rh90 then rh90[key] else 0;
      var field := CountField(rh90, key);
      |field| >= CountWidth
      && field == PadStart(NatToString(n), CountWidth, ' ')
      && TrimStart(field) == NatToString(n)
      && DigitsValue(TrimStart(field)) == n
      && (forall i :: 0 <= i < |field| ==> field[i] == ' ' || IsDigit(field[i]))
  {
    var n := if key in rh90 then rh90[key] else 0;
    ZeroText();
    assert CountField(rh90, key) == PadStart(NatToString(n), CountWidth, ' ');
    PaddedDigitsTrim(NatToString(n));
  }

  /** `(0).toString()` is `0`. */
  lemma ZeroText()
    ensures NatToString(0) == "0"
  {
    NatToStringOfDigits("0");
  }

  lemma PaddedDigitsTrim(s: string)
    requires |s| >= 1 && AllDigits(s)
    ensures TrimStart(PadStart(s, CountWidth, ' ')) == s
    ensures forall i :: 0 <= i < |PadStart(s, CountWidth, ' ')| ==>
      PadStart(s, CountWidth, ' ')[i] == ' ' || IsDigit(PadStart(s, CountWidth, ' ')[i])
  {
    var p := PadStart(s, CountWidth, ' ');
    TrimSpaces(p, |p| - |s|);
    assert p[|p| - |s|..] == s;
  }

  /** Trimming text that is `k` blanks and then a non-blank keeps what follows them. */
  lemma {:induction false} TrimSpaces(p: string, k: nat)
    requires k < |p|
    requires forall i :: 0 <= i < k ==> p[i] == ' '
    requires !IsJsWhitespace(p[k])
    ensures TrimStart(p) == p[k..]
    decreases k
  {
    if k > 0 {
      TrimSpaces(p[1..], k - 1);
      assert p[1..][k - 1..] == p[k..];
    }
  }

  /** A line that is not the header and starts with white space is dropped: its first
      field is empty, so it is not a date. */
  lemma LeadingWhitespaceDropped(line: string, rh90: map<string, nat>)
    requires !Contains(line, HeaderMarker)
    requires |line| > 0 && IsJsWhitespace(line[0])
    ensures MergeLine(line, rh90) == None
  {
  }

  /** A line that is not the header and whose first field is not seven digits is
      dropped. */
  lemma NonDateDropped(line: string, rh90: map<string, nat>)
    requires !Contains(line, HeaderMarker)
    requires !IsOrdinalToken(FirstToken(line))
    ensures MergeLine(line, rh90) == None
  {
  }

  /** A data line, `YYYYDDD` followed by white space and the other columns, is kept
      with its date's count appended when the year is positive and the day is in
      1..366, and dropped otherwise. */
  lemma DataLineMerged(token: string, rest: string, rh90: map<string, nat>)
    requires IsOrdinalToken(token)
    requires rest == [] || IsJsWhitespace(rest[0])
    requires !Contains(token + rest, HeaderMarker)
    ensures var r := MergeLine(token + rest, rh90);
      if InRange(OrdinalYear(token), OrdinalDay(token)) then
        r == Some(RemoveAll(token + rest, '\r') + CountField(rh90, OrdinalKey(OrdinalYear(token), OrdinalDay(token))))
      else r == None
  {
    FirstTokenOf(token, rest);
  }

  lemma {:induction false} FirstTokenOf(token: string, rest: string)
    requires forall i :: 0 <= i < |token| ==> !IsJsWhitespace(token[i])
    requires rest == [] || IsJsWhitespace(rest[0])
    ensures FirstToken(token + rest) == token
    decreases |token|
  {
    if token == [] {
      assert token + rest == rest;
    } else {
      FirstTokenOf(token[1..], rest);
      assert (token + rest)[1..] == token[1..] + rest;
    }
  }

  /** A line holding the header marker is kept with the column title appended. */
  lemma HeaderLineMerged(before: string, after: string, rh90: map<string, nat>)
    ensures MergeLine(before + HeaderMarker + after, rh90)
         == Some(RemoveAll(before + HeaderMarker + after, '\r') + HeaderSuffix)
  {
    var line := before + HeaderMarker + after;
    assert OccursAt(line, HeaderMarker, |before|) by {
      assert line[|before|..|before| + |HeaderMarker|] == HeaderMarker;
    }
  }

  // ---------------------------------------------------------------------------
  // The key of a data line

  /** For every year 1..9999 (day 366 of 9999, which rolls over into year 10000,
      aside) the key is the calendar date `YYYYMMDD` (ISO 8601 basic format) of
      `new Date(year, 0, dayOfYear)`: eight digits worth year * 10000 + month * 100
      + day. Which date that is, `dayOfYear - 1` days after January 1 of the full
      year, is `Calendar.OrdinalIsOffsetFromNewYear`. */
  lemma OrdinalKeyIsCalendarDate(year: int, dayOfYear: int)
    requires 1 <= year <= 9999 && 1 <= dayOfYear <= 366 && !(year == 9999 && dayOfYear == 366)
    ensures var d := JsDateOfOrdinal(year, dayOfYear);
      var key := OrdinalKey(year, dayOfYear);
      |key| == 8 && AllDigits(key) && DigitsValue(key) == d.year * 10000 + d.month * 100 + d.day
  {
    var d := JsDateOfOrdinal(year, dayOfYear);
    assert 1 <= d.year <= 9999 by {
      var y := JsFullYear(year);
      assert 1 <= y <= 9999;
      if d.year != y {
        assert dayOfYear > DaysInYear(y);
      }
    }
    DateFieldBounds(d);
    IsoDateKeyDigits(d);
  }

  /** Years 1 to 99 are read as 1901 to 1999: the key of day `dayOfYear` of year
      `year` is the key of the same day of year `1900 + year`. */
  lemma TwoDigitYearsAreTwentiethCentury(year: int, dayOfYear: int)
    requires 1 <= year <= 99 && 1 <= dayOfYear <= 366
    ensures OrdinalKey(year, dayOfYear) == OrdinalKey(1900 + year, dayOfYear)
    ensures 1901 <= JsDateOfOrdinal(year, dayOfYear).year <= 2000
  {
  }

  /** A valid date has a month in 1..12 and a day in 1..31. */
  lemma DateFieldBounds(d: Date)
    requires ValidDate(d)
    ensures 1 <= d.month <= 12 && 1 <= d.day <= 31
  {
  }

  /** Day 366 of a common year is January 1 of the next year: `2001366` is looked up
      under `20020101`. */
  lemma CommonYearDay366Example(year: int, day: int)
    requires year == 2001 && day == 366
    ensures OrdinalKey(year, day) == "20020101"
  {
    var d := Date(year + 1, 1, 1);
    assert JsDateOfOrdinal(year, day) == d by {
      assert JsFullYear(year) == year && !IsLeapYear(year);
      CommonYearRollsOver(year);
    }
    DigitText2002(d.year);
    NewYearKey(d, "2002");
  }

  /** Years 1 to 99 are read as 1901 to 1999: `0001001` is looked up under `19010101`. */
  lemma TwoDigitYearExample(year: int, day: int)
    requires year == 1 && day == 1
    ensures OrdinalKey(year, day) == "19010101"
  {
    var d := Date(JsFullYear(year), 1, 1);
    assert d.year == 1901;
    assert JsDateOfOrdinal(year, day) == d by {
      NewYearOrdinal(d.year);
    }
    DigitText1901(d.year);
    NewYearKey(d, "1901");
  }

  /** The key of January 1 of a year written with four digits. */
  lemma NewYearKey(d: Date, yearText: string)
    requires 0 <= d.year <= 9999 && d.month == 1 && d.day == 1
    requires NatToString(d.year) == yearText && |yearText| == 4
    ensures IsoDateKey(d) == yearText + "0101"
  {
    IsoDateKeyPadded(d);
    DigitText1(d.month);
    assert PadStart(yearText, 4, '0') == yearText;
    assert PadStart("1", 2, '0') == "01";
  }

  /** Past year 9999 `toISOString` writes a sign and six year digits, so `9999366`
      is looked up under `+01000001`, a key the hourly file never produces. */
  lemma YearTenThousandExample(year: int, day: int)
    requires year == 9999 && day == 366
    ensures OrdinalKey(year, day) == "+01000001"
  {
    var next := year + 1;
    assert JsFullYear(year) == year && !IsLeapYear(year);
    CommonYearRollsOver(year);
    var d := Date(next, 1, 1);
    assert JsDateOfOrdinal(year, day) == d;
    DigitText10000(next);
    DigitText1(1);
    TenThousandKey(d);
  }

  lemma TenThousandKey(d: Date)
    requires d == Date(10000, 1, 1)
    requires NatToString(d.year) == "10000" && NatToString(d.month) == "1" && NatToString(d.day) == "1"
    ensures IsoDateKey(d) == "+01000001"
  {
    var part := IsoDatePart(d);
    assert PadStart("10000", 6, '0') == "010000" && PadStart("1", 2, '0') == "01";
    assert part == "+010000-01-01";
    assert part[..10] == "+010000" + ['-'] + "01";
    RemoveAllAround("+010000", "01", '-');
    assert '-' !in "+010000" && '-' !in "01";
  }

  lemma DigitText1(n: nat)
    requires n == 1
    ensures NatToString(n) == "1"
  {
  }

  lemma DigitText1901(n: nat)
    requires n == 1901
    ensures NatToString(n) == "1901"
  {
    assert DigitsValue("1") == 1;
    DigitsValueAppend("1", '9');
    assert "1" + ['9'] == "19";
    DigitsValueAppend("19", '0');
    assert "19" + ['0'] == "190";
    DigitsValueAppend("190", '1');
    assert "190" + ['1'] == "1901";
    NatToStringOfDigits("1901");
  }

  lemma DigitText2002(n: nat)
    requires n == 2002
    ensures NatToString(n) == "2002"
  {
    assert DigitsValue("2") == 2;
    DigitsValueAppend("2", '0');
    assert "2" + ['0'] == "20";
    DigitsValueAppend("20", '0');
    assert "20" + ['0'] == "200";
    DigitsValueAppend("200", '2');
    assert "200" + ['2'] == "2002";
    NatToStringOfDigits("2002");
  }

  lemma DigitText10000(n: nat)
    requires n == 10000
    ensures NatToString(n) == "10000"
  {
    assert DigitsValue("1") == 1;
    DigitsValueAppend("1", '0');
    assert "1" + ['0'] == "10";
    DigitsValueAppend("10", '0');
    assert "10" + ['0'] == "100";
    DigitsValueAppend("100", '0');
    assert "100" + ['0'] == "1000";
    DigitsValueAppend("1000", '0');
    assert "1000" + ['0'] == "10000";
    NatToStringOfDigits("10000");
  }
}
