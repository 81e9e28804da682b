/** The humidity aggregator of `NasaService.fetchAndProcessData`: it reads the hourly
    CSV file (after a nine-line preamble), and for every calendar date that occurs
    counts the hours whose relative humidity at 2 m is at least 90 percent. */
module HourlyAggregator {
  import opened Wrappers
  import opened Text
  import opened JsNumber

  /** Lines of provider metadata at the top of the hourly file. */
  const PreambleLines := 9

  /** The relative humidity, in percent, from which an hour counts. */
  const Threshold := 90

  /** An accepted line of the hourly file: its YEAR, MO and DY fields as written, and
      its fifth field, the relative humidity RH2M. */
  datatype HourlyRecord = HourlyRecord(year: string, month: string, day: string, humidity: string)
  {
    /** The date key: YEAR as written, then MO and DY each left-padded with '0' to
        two characters. */
    function DateKey(): string {
      year + PadStart(month, 2, '0') + PadStart(day, 2, '0')
    }

    /** `parseFloat(RH2M) >= 90`. */
    predicate Qualifies() {
      AtLeast(ParseFloat(humidity), Threshold)
    }
  }

  /** The lines the aggregator walks: the file split on '\n', preamble dropped. */
  function HourlyRows(hourlyText: string): seq<string> {
    DropFirst(Split(hourlyText, '\n'), PreambleLines)
  }

  /** What one hourly line gives: nothing for a blank line, for a line with fewer than
      five comma-separated fields, or for an empty YEAR, MO or DY; otherwise its record. */
  function ParseHourlyLine(line: string): (r: Option<HourlyRecord>)
    ensures r.Some? ==> !IsBlank(line)
    ensures r.Some? ==> r.value.year != "" && r.value.month != "" && r.value.day != ""
    ensures r.Some? ==> ',' !in r.value.year && ',' !in r.value.month && ',' !in r.value.day && ',' !in r.value.humidity
  {
    if IsBlank(line) then None
    else
      var fields := Split(line, ',');
      if |fields| < 5 || fields[0] == "" || fields[1] == "" || fields[2] == "" then None
      else Some(HourlyRecord(fields[0], fields[1], fields[2], fields[4]))
  }

  /** What a row contributes to the aggregation: nothing, or one hour of a date,
      qualifying or not. */
  datatype Entry = Skipped | Hour(key: string, qualifies: bool)

  /** The contribution of one row. */
  function Classify(line: string): Entry {
    match ParseHourlyLine(line)
    case None => Skipped
    case Some(r) => Hour(r.DateKey(), r.Qualifies())
  }

  /** The contributions of the rows, in order. */
  function Entries(rows: seq<string>): seq<Entry> {
    seq(|rows|, i requires 0 <= i < |rows| => Classify(rows[i]))
  }

  // ---------------------------------------------------------------------------
  // The specification: keys and counts as functions of the contributions

  /** The dates of the accepted rows. */
  function DateKeys(es: seq<Entry>): set<string> {
    if es == [] then {}
    else DateKeys(es[..|es| - 1]) + (if es[|es| - 1].Hour? then {es[|es| - 1].key} else {})
  }

  /** How many rows carry `key` and a qualifying humidity. */
  function QualifyingHours(es: seq<Entry>, key: string): nat {
    if es == [] then 0
    else QualifyingHours(es[..|es| - 1], key) + (if es[|es| - 1] == Hour(key, true) then 1 else 0)
  }

  /** How many rows carry `key` at all. */
  function AcceptedHours(es: seq<Entry>, key: string): nat {
    if es == [] then 0
    else AcceptedHours(es[..|es| - 1], key) + (if es[|es| - 1].Hour? && es[|es| - 1].key == key then 1 else 0)
  }

  /** The dictionary the aggregation builds from the rows: a key per date seen, mapped
      to the number of qualifying hours of that date. */
  function HourlyCounts(rows: seq<string>): map<string, nat> {
    var es := Entries(rows);
    map k | k in DateKeys(es) :: QualifyingHours(es, k)
  }

  // ---------------------------------------------------------------------------
  // The aggregation loop

  /** The `forEach` over the hourly rows that fills `rh90Map`. */
  method AggregateHourly(hourlyText: string) returns (rh90: map<string, nat>)
    ensures rh90 == HourlyCounts(HourlyRows(hourlyText))
  {
    var rows := DropFirst(Split(hourlyText, '\n'), PreambleLines);
    ghost var es := Entries(rows);
    rh90 := map[];
    for i := 0 to |rows|
      invariant rh90.Keys == DateKeys(es[..i])
      invariant forall k :: k in rh90 ==> rh90[k] == QualifyingHours(es[..i], k)
    {
      ghost var before := rh90;
      rh90 := CountLine(rh90, rows[i]);
      CountStep(es, i, before, rh90);
    }
    assert es[..|rows|] == es;
  }

  /** The body of the `forEach` callback: one hourly line updates the dictionary. */
  method CountLine(rh90: map<string, nat>, line: string) returns (updated: map<string, nat>)
    ensures updated == Tally(rh90, Classify(line))
  {
    if !IsBlank(line) {
      var fields := Split(line, ',');
      if |fields| >= 5 && fields[0] != "" && fields[1] != "" && fields[2] != "" {
        var date := fields[0] + PadStart(fields[1], 2, '0') + PadStart(fields[2], 2, '0');
        updated := CountHour(rh90, date, AtLeast(ParseFloat(fields[4]), Threshold));
        assert ParseHourlyLine(line) == Some(HourlyRecord(fields[0], fields[1], fields[2], fields[4]));
        return;
      }
    }
    assert ParseHourlyLine(line) == None;
    updated := rh90;
  }

  /** The two dictionary statements of the callback: an absent or zero entry for the
      date is set to zero, then a qualifying hour adds one. */
  method CountHour(rh90: map<string, nat>, date: string, qualifies: bool) returns (updated: map<string, nat>)
    ensures updated == Tally(rh90, Hour(date, qualifies))
  {
    updated := rh90;
    if date !in updated || updated[date] == 0 {
      updated := updated[date := 0];
    }
    if qualifies {
      updated := updated[date := updated[date] + 1];
    }
  }

  /** The dictionary after one more row, step by step as the callback updates it: an
      absent or zero entry is set to zero, then a qualifying hour adds one. */
  function Tally(counts: map<string, nat>, e: Entry): map<string, nat> {
    match e
    case Skipped => counts
    case Hour(key, qualifies) =>
      var reset := if key !in counts || counts[key] == 0 then counts[key := 0] else counts;
      if qualifies then reset[key := reset[key] + 1] else reset
  }

  /** What one hour does to the dictionary: its date's count becomes the previous count
      (zero when absent) plus one when it qualifies; every other entry is unchanged. */
  lemma TallyHour(counts: map<string, nat>, key: string, qualifies: bool)
    ensures Tally(counts, Hour(key, qualifies))
         == counts[key := (if key in counts then counts[key] else 0) + (if qualifies then 1 else 0)]
  {
    var seen := if key in counts then counts[key] else 0;
    var reset := if key !in counts || counts[key] == 0 then counts[key := 0] else counts;
    assert reset == counts[key := seen];
  }

  /** One row keeps the loop invariant: the dictionary still holds the keys and counts
      of the rows seen so far. */
  lemma CountStep(es: seq<Entry>, i: nat, before: map<string, nat>, after: map<string, nat>)
    requires i < |es|
    requires before.Keys == DateKeys(es[..i])
    requires forall k :: k in before ==> before[k] == QualifyingHours(es[..i], k)
    requires after == Tally(before, es[i])
    ensures after.Keys == DateKeys(es[..i + 1])
    ensures forall k :: k in after ==> after[k] == QualifyingHours(es[..i + 1], k)
  {
    assert es[..i + 1][..i] == es[..i];
    if es[i].Hour? {
      TallyHour(before, es[i].key, es[i].qualifies);
    }
    forall k | k in after
      ensures after[k] == QualifyingHours(es[..i + 1], k)
    {
      if k !in before {
        QualifyingHoursAbsent(es[..i], k);
      }
    }
  }

  /** A date with no accepted row has no qualifying hour. */
  lemma {:induction false} QualifyingHoursAbsent(es: seq<Entry>, key: string)
    requires key !in DateKeys(es)
    ensures QualifyingHours(es, key) == 0
    decreases |es|
  {
    if es != [] {
      QualifyingHoursAbsent(es[..|es| - 1], key);
    }
  }

  // ---------------------------------------------------------------------------
  // Properties of the specification

  /** Only accepted rows make keys: a key is present iff some row contributes an hour
      of that date. */
  lemma {:induction false} KeysAreAcceptedDates(es: seq<Entry>, key: string)
    ensures key in DateKeys(es) <==> exists i :: 0 <= i < |es| && es[i].Hour? && es[i].key == key
    decreases |es|
  {
    if es != [] {
      var init := es[..|es| - 1];
      KeysAreAcceptedDates(init, key);
      if key in DateKeys(init) {
        var i :| 0 <= i < |init| && init[i].Hour? && init[i].key == key;
        assert es[i] == init[i];
      }
      if exists i :: 0 <= i < |es| && es[i].Hour? && es[i].key == key {
        var i :| 0 <= i < |es| && es[i].Hour? && es[i].key == key;
        if i < |init| {
          assert init[i] == es[i];
        }
      }
    }
  }

  /** A key is present exactly when at least one row was accepted for it. */
  lemma {:induction false} KeyPresentIffAccepted(es: seq<Entry>, key: string)
    ensures key in DateKeys(es) <==> AcceptedHours(es, key) > 0
    decreases |es|
  {
    if es != [] {
      KeyPresentIffAccepted(es[..|es| - 1], key);
    }
  }

  /** Each accepted row adds at most one hour to its date, so a count never exceeds
      the number of accepted rows of its date. */
  lemma {:induction false} QualifyingAtMostAccepted(es: seq<Entry>, key: string)
    ensures QualifyingHours(es, key) <= AcceptedHours(es, key)
    decreases |es|
  {
    if es != [] {
      QualifyingAtMostAccepted(es[..|es| - 1], key);
    }
  }

  /** The count is the number of qualifying hours of the date, counted as a set of row
      positions. */
  lemma {:induction false} QualifyingHoursCountsRows(es: seq<Entry>, key: string)
    ensures QualifyingHours(es, key) == |set i | 0 <= i < |es| && es[i] == Hour(key, true)|
    decreases |es|
  {
    var all := set i | 0 <= i < |es| && es[i] == Hour(key, true);
    if es == [] {
      assert all == {};
    } else {
      var n := |es| - 1;
      var init := es[..n];
      QualifyingHoursCountsRows(init, key);
      var before := set i | 0 <= i < n && init[i] == Hour(key, true);
      var last := if es[n] == Hour(key, true) then {n} else {};
      assert all == before + last by {
        forall i | 0 <= i < n
          ensures init[i] == es[i]
        {
        }
      }
      assert n !in before;
    }
  }

  /** Appending one row changes only its own date, by exactly one when it qualifies;
      a skipped row changes nothing. */
  lemma RowStep(es: seq<Entry>, e: Entry, key: string)
    ensures DateKeys(es + [e]) == DateKeys(es) + (if e.Hour? then {e.key} else {})
    ensures QualifyingHours(es + [e], key) == QualifyingHours(es, key) + (if e == Hour(key, true) then 1 else 0)
  {
    assert (es + [e])[..|es|] == es;
  }

  /** What one line does to the dictionary: a skipped line changes nothing; an
      accepted line creates its date's key, at the previous count or zero, and adds one
      when its humidity reaches the threshold; every other entry is unchanged. */
  lemma LineTally(counts: map<string, nat>, line: string)
    ensures ParseHourlyLine(line) == None ==> Tally(counts, Classify(line)) == counts
    ensures ParseHourlyLine(line).Some? ==>
      var r := ParseHourlyLine(line).value;
      var key := r.DateKey();
      Tally(counts, Classify(line))
        == counts[key := (if key in counts then counts[key] else 0) + (if r.Qualifies() then 1 else 0)]
  {
    if ParseHourlyLine(line).Some? {
      var r := ParseHourlyLine(line).value;
      TallyHour(counts, r.DateKey(), r.Qualifies());
    }
  }

  /** An accepted line whose humidity is not a number (an empty RH2M, say) still
      creates its date's key, and leaves the count where it was. */
  lemma NaNHumidityCreatesKey(counts: map<string, nat>, line: string)
    requires ParseHourlyLine(line).Some? && ParseFloat(ParseHourlyLine(line).value.humidity) == NaN
    ensures var key := ParseHourlyLine(line).value.DateKey();
      Tally(counts, Classify(line)) == counts[key := (if key in counts then counts[key] else 0)]
  {
    LineTally(counts, line);
  }

  // ---------------------------------------------------------------------------
  // Which lines are accepted

  /** The lines of the preamble never reach the aggregation: after nine lines without
      '\n' and their separators, the rows are exactly the lines of what follows. */
  lemma PreambleSkipped(preamble: seq<string>, body: string)
    requires |preamble| == PreambleLines
    requires forall i :: 0 <= i < |preamble| ==> '\n' !in preamble[i]
    ensures HourlyRows(Join(preamble, '\n') + "\n" + body) == Split(body, '\n')
  {
    var lines := Split(body, '\n');
    var all := preamble + lines;
    forall i | 0 <= i < |all|
      ensures '\n' !in all[i]
    {
      if i >= |preamble| {
        assert all[i] == lines[i - |preamble|];
      }
    }
    JoinAppend(preamble, lines, '\n');
    SplitJoin(all, '\n');
    assert Join(lines, '\n') == body;
    assert all[PreambleLines..] == lines;
  }

  lemma {:induction false} JoinAppend(a: seq<string>, b: seq<string>, sep: char)
    requires |a| >= 1 && |b| >= 1
    ensures Join(a + b, sep) == Join(a, sep) + [sep] + Join(b, sep)
    decreases |a|
  {
    if |a| == 1 {
      assert (a + b)[1..] == b;
    } else {
      JoinAppend(a[1..], b, sep);
      assert (a + b)[1..] == a[1..] + b;
    }
  }

  /** A line laid out as the provider writes it, `YEAR,MO,DY,HR,RH2M`, with non-empty
      date fields, is accepted with those fields; the humidity is the fifth field. */
  lemma WellFormedLineAccepted(year: string, month: string, day: string, hour: string, humidity: string)
    requires year != "" && month != "" && day != ""
    requires ',' !in year && ',' !in month && ',' !in day && ',' !in hour && ',' !in humidity
    ensures ParseHourlyLine(year + "," + month + "," + day + "," + hour + "," + humidity)
         == Some(HourlyRecord(year, month, day, humidity))
  {
    var line := year + "," + month + "," + day + "," + hour + "," + humidity;
    assert line[|year|] == ',';
    assert !IsJsWhitespace(',');
    assert line == year + [','] + (month + [','] + (day + [','] + (hour + [','] + humidity)));
    SplitAfterPiece(year, ',', month + [','] + (day + [','] + (hour + [','] + humidity)));
    SplitAfterPiece(month, ',', day + [','] + (hour + [','] + humidity));
    SplitAfterPiece(day, ',', hour + [','] + humidity);
    SplitAfterPiece(hour, ',', humidity);
    SplitWithoutSeparator(humidity, ',');
  }

  /** A line with fewer than four commas has fewer than five fields and is skipped. */
  lemma {:induction false} FewFieldsSkipped(line: string)
    requires |Split(line, ',')| < 5
    ensures ParseHourlyLine(line) == None
  {
  }

  /** A line that starts with a comma has an empty YEAR and is skipped. */
  lemma EmptyYearSkipped(rest: string)
    ensures ParseHourlyLine("," + rest) == None
  {
    var line := "," + rest;
    assert line == [] + [','] + rest;
    SplitAfterPiece([], ',', rest);
  }

  /** A line whose second field is empty has an empty MO and is skipped. */
  lemma EmptyMonthSkipped(year: string, rest: string)
    requires ',' !in year
    ensures ParseHourlyLine(year + ",," + rest) == None
  {
    var line := year + ",," + rest;
    assert line == year + [','] + ([] + [','] + rest);
    SplitAfterPiece(year, ',', [] + [','] + rest);
    SplitAfterPiece([], ',', rest);
  }

  /** A line whose third field is empty has an empty DY and is skipped. */
  lemma EmptyDaySkipped(year: string, month: string, rest: string)
    requires ',' !in year && ',' !in month
    ensures ParseHourlyLine(year + "," + month + ",," + rest) == None
  {
    var line := year + "," + month + ",," + rest;
    assert line == year + [','] + (month + [','] + ([] + [','] + rest));
    SplitAfterPiece(year, ',', month + [','] + ([] + [','] + rest));
    SplitAfterPiece(month, ',', [] + [','] + rest);
    SplitAfterPiece([], ',', rest);
  }

  /** Fields after the fifth are ignored: a well-formed line followed by a comma and
      anything at all is accepted with the same record. */
  lemma ExtraFieldsAccepted(year: string, month: string, day: string, hour: string, humidity: string, extra: string)
    requires year != "" && month != "" && day != ""
    requires ',' !in year && ',' !in month && ',' !in day && ',' !in hour && ',' !in humidity
    ensures ParseHourlyLine(year + "," + month + "," + day + "," + hour + "," + humidity + "," + extra)
         == Some(HourlyRecord(year, month, day, humidity))
  {
    var line := year + "," + month + "," + day + "," + hour + "," + humidity + "," + extra;
    assert line[|year|] == ',';
    assert !IsJsWhitespace(',');
    assert line == year + [','] + (month + [','] + (day + [','] + (hour + [','] + (humidity + [','] + extra))));
    SplitAfterPiece(year, ',', month + [','] + (day + [','] + (hour + [','] + (humidity + [','] + extra))));
    SplitAfterPiece(month, ',', day + [','] + (hour + [','] + (humidity + [','] + extra)));
    SplitAfterPiece(day, ',', hour + [','] + (humidity + [','] + extra));
    SplitAfterPiece(hour, ',', humidity + [','] + extra);
    SplitAfterPiece(humidity, ',', extra);
  }

  /** A provider line for 1 January 2001 with 95 percent humidity counts one hour for
      key `20010101`. */
  lemma HumidHourExample(line: string)
    requires line == "2001,1,1,0,95"
    ensures Classify(line) == Hour("20010101", true)
  {
    var humidity := line[11..];
    assert humidity == "95";
    assert line == "2001,1,1,0," + humidity;
    ExampleLine(line, humidity);
    HumidReading(humidity);
  }

  lemma HumidReading(humidity: string)
    requires humidity == "95"
    ensures AtLeast(ParseFloat(humidity), Threshold)
  {
    assert AllDigits(humidity) && DigitsValue(humidity) == 95;
    IntegerTextAtLeast(humidity, "", Threshold);
    assert humidity + "" == humidity;
  }

  /** The same hour at 89.9 percent creates the key but does not count. */
  lemma DryHourExample(line: string)
    requires line == "2001,1,1,0,89.9"
    ensures Classify(line) == Hour("20010101", false)
  {
    var humidity := line[11..];
    assert humidity == "89.9";
    assert line == "2001,1,1,0," + humidity;
    ExampleLine(line, humidity);
    DryReading(humidity);
  }

  lemma DryReading(humidity: string)
    requires humidity == "89.9"
    ensures !AtLeast(ParseFloat(humidity), Threshold)
  {
    var i, f := humidity[..2], humidity[3..];
    assert i == "89" && f == "9";
    assert humidity == i + "." + f + "";
    assert AllDigits(i) && DigitsValue(i) == 89;
    DecimalTextAtLeast(i, f, "", Threshold);
  }

  /** An example line of 1 January 2001, hour 0, with the given humidity text. */
  lemma ExampleLine(line: string, humidity: string)
    requires ',' !in humidity
    requires line == "2001,1,1,0," + humidity
    ensures Classify(line) == Hour("20010101", AtLeast(ParseFloat(humidity), Threshold))
  {
    var record := HourlyRecord("2001", "1", "1", humidity);
    assert ParseHourlyLine(line) == Some(record) by {
      assert line == "2001" + "," + "1" + "," + "1" + "," + "0" + "," + humidity;
      WellFormedLineAccepted("2001", "1", "1", "0", humidity);
    }
    assert record.DateKey() == "20010101" by {
      assert PadStart("1", 2, '0') == "01";
    }
    ClassifyParsed(line, record);
  }

  lemma ClassifyParsed(line: string, record: HourlyRecord)
    requires ParseHourlyLine(line) == Some(record)
    ensures Classify(line) == Hour(record.DateKey(), record.Qualifies())
  {
  }
}
