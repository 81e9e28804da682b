/** `fetchAndProcessData` and `syncData` once the downloads are done: the staged hourly
    and daily files are given as text, the weather file `<nasapid>.WTH` is their merge,
    and synchronisation sanitizes it. */
module Pipeline {
  import opened Wrappers
  import opened Text
  import opened Calendar
  import opened HourlyAggregator
  import opened DailyMerger
  import opened Sanitizer

  /** The station `syncData` processes. */
  const SyncStation := "example1"

  /** What `syncData` returns. */
  const SyncMessage := "Data synchronization completed."

  /** The name of the weather file written for a station. */
  function WeatherFileName(nasapid: string): string {
    nasapid + ".WTH"
  }

  /** The content of the weather file: the daily file merged with the humid-hour
      counts of the hourly file. */
  function WeatherFile(hourlyText: string, dailyText: string): string {
    MergedText(dailyText, HourlyCounts(HourlyRows(hourlyText)))
  }

  /** The processing half of `fetchAndProcessData`: aggregate the hourly file, then
      merge the daily file with the counts; returns the output file's name and
      content. */
  method ProcessStagedFiles(nasapid: string, hourlyText: string, dailyText: string)
    returns (outputFile: string, content: string)
    ensures outputFile == WeatherFileName(nasapid)
    ensures content == WeatherFile(hourlyText, dailyText)
  {
    var rh90 := AggregateHourly(hourlyText);
    content := MergeDaily(dailyText, rh90);
    outputFile := nasapid + ".WTH";
  }

  /** `syncData`: process the staged files for station `example1`, then rewrite the
      weather file with `$WEATHER` replaced. */
  method SyncData(hourlyText: string, dailyText: string)
    returns (outputFile: string, content: string, message: string)
    ensures outputFile == WeatherFileName(SyncStation)
    ensures content == SanitizeWeather(WeatherFile(hourlyText, dailyText))
    ensures !Contains(content, Placeholder)
    ensures message == SyncMessage
  {
    var written;
    outputFile, written := ProcessStagedFiles(SyncStation, hourlyText, dailyText);
    content := SanitizeWeather(written);
    NoPlaceholderLeft(written);
    message := "Data synchronization completed.";
  }

  /** Synchronising again sanitizes an already sanitized file, which changes nothing. */
  lemma ResyncChangesNothing(hourlyText: string, dailyText: string)
    ensures var content := SanitizeWeather(WeatherFile(hourlyText, dailyText));
      SanitizeWeather(content) == content
  {
    SanitizeIdempotent(WeatherFile(hourlyText, dailyText));
  }

  /** The count a data line gets is the number of qualifying hours of its date in the
      hourly file: zero when the date has no accepted hour. */
  lemma DataLineGetsItsCount(hourlyText: string, token: string, rest: string)
    requires IsOrdinalToken(token) && InRange(OrdinalYear(token), OrdinalDay(token))
    requires rest == [] || IsJsWhitespace(rest[0])
    requires !Contains(token + rest, HeaderMarker)
    ensures var key := OrdinalKey(OrdinalYear(token), OrdinalDay(token));
      var hours := QualifyingHours(Entries(HourlyRows(hourlyText)), key);
      MergeLine(token + rest, HourlyCounts(HourlyRows(hourlyText)))
        == Some(RemoveAll(token + rest, '\r') + PadStart(NatToString(hours), CountWidth, ' '))
  {
    var rh90 := HourlyCounts(HourlyRows(hourlyText));
    var es := Entries(HourlyRows(hourlyText));
    var key := OrdinalKey(OrdinalYear(token), OrdinalDay(token));
    DataLineMerged(token, rest, rh90);
    CountFieldReadsBack(rh90, key);
    if key !in rh90 {
      QualifyingHoursAbsent(es, key);
    }
  }

  /** The hourly file and the daily file name a date alike: for a four-digit year, an
      hourly line whose YEAR, MO and DY are the date's numbers in plain decimal (no
      leading zero) has the key the daily line of that date is looked up under. */
  lemma HourlyAndDailyKeysAgree(d: Date, humidity: string)
    requires ValidDate(d) && 1000 <= d.year <= 9999
    ensures HourlyRecord(NatToString(d.year), NatToString(d.month), NatToString(d.day), humidity).DateKey()
         == IsoDateKey(d)
  {
    DateFieldBounds(d);
    IsoDateKeyPadded(d);
    assert Pow10(3) == 1000 && Pow10(4) == 10000 by {
      assert Pow10(1) == 10;
      assert Pow10(2) == 100;
    }
    NatToStringLength(d.year, 4);
  }

  /** Day 366 of 2001, a common year, reads the count of January 1, 2002. */
  lemma RolloverReadsNextYear(hourlyText: string, rest: string)
    requires rest == [] || IsJsWhitespace(rest[0])
    requires !Contains("2001366" + rest, HeaderMarker)
    ensures var hours := QualifyingHours(Entries(HourlyRows(hourlyText)), "20020101");
      MergeLine("2001366" + rest, HourlyCounts(HourlyRows(hourlyText)))
        == Some(RemoveAll("2001366" + rest, '\r') + PadStart(NatToString(hours), CountWidth, ' '))
  {
    RolloverToken("2001366");
    DataLineGetsItsCount(hourlyText, "2001366", rest);
  }

  /** The token `2001366` is a valid ordinal date looked up under `20020101`. */
  lemma RolloverToken(token: string)
    requires token == "2001366"
    ensures IsOrdinalToken(token) && InRange(OrdinalYear(token), OrdinalDay(token))
    ensures OrdinalKey(OrdinalYear(token), OrdinalDay(token)) == "20020101"
  {
    assert token[..4] == "2001" && token[4..] == "366";
    assert AllDigits(token);
    assert DigitsValue("20") == 20;
    DigitsValueAppend("20", '0');
    assert "20" + ['0'] == "200";
    DigitsValueAppend("200", '1');
    assert "200" + ['1'] == "2001";
    assert DigitsValue("366") == 366;
    CommonYearDay366Example(OrdinalYear(token), OrdinalDay(token));
  }
}
