/** How the two readers of the AIS "Base station time stamp" relate:
    `getAISDateTimeInfo` (integrate.py), which splits on separators, and
    `convertAISDatetime` (convertDateTime.py), which cuts at fixed positions. */
module TimestampAgreement {
  import opened PyResult
  import opened PyStr
  import opened Integrate
  import opened ConvertDateTime

  /** Every abbreviation of `month_dict` is also known to `getMonthAsInt`. */
  lemma DictMonthsKnown(k: string)
    requires k in MonthDict
    ensures |k| == 3 && ' ' !in k && GetMonthAsInt(k).Ok?
  {
    assert Lower(k) == [LowerChar(k[0]), k[1], k[2]];
  }

  /** The two month lookups differ in case handling: `getMonthAsInt` accepts
      `may` and `MAY`, `month_dict` has neither. */
  lemma MonthCaseDiffers()
    ensures GetMonthAsInt("may") == Ok(5) && GetMonthAsInt("MAY") == Ok(5)
    ensures "may" !in MonthDict && "MAY" !in MonthDict
  {
    assert Lower("may") == "may";
    assert Lower("MAY") == "may";
  }

  /** On a stamp laid out like the template `01 May 2014 18:54:40.480 UTC`
      (two-digit day, three-letter month, four-digit year, two-digit hour,
      minute and second, a decimal fraction, then a zone name), both readers
      succeed on the same fields: the fixed-position reader copies year, day, hour, minute and whole seconds as text, while
      `getAISDateTimeInfo` holds the numbers those digits denote, with the
      fraction of the second dropped by both, and a minute of 0. */
  lemma ReadersAgree(tzs: seq<Zone>, day: string, mon: string, year: string, hour: string,
                     minute: string, ss: string, frac: string, zone: string)
    requires |day| == 2 && AllDigits(day) && |year| == 4 && AllDigits(year)
    requires |hour| == 2 && AllDigits(hour) && |minute| == 2 && AllDigits(minute)
    requires |ss| == 2 && AllDigits(ss) && AllDigits(frac)
    requires mon in MonthDict
    requires ' ' !in zone && ZoneLookup(tzs, zone).Ok?
    ensures GetMonthAsInt(mon).Ok?
    ensures var stamp := AISStamp(day, mon, year, hour, minute, ss + "." + frac, zone);
            && ConvertAISDatetime(stamp) ==
                 Ok(year + "-" + MonthDict[mon] + "-" + day + " " + hour + ":" + minute + ":" + ss)
            && GetAISDateTimeInfo(tzs, stamp) ==
                 Ok(DateTime(DigitsValue(year), GetMonthAsInt(mon).value, DigitsValue(day),
                             DigitsValue(hour), 0, DigitsValue(ss), ZoneLookup(tzs, zone).value))
  {
    DictMonthsKnown(mon);
    ParsedStamp(tzs, day, mon, year, hour, minute, ss, frac, zone);
    ConvertedStamp(day, mon, year, hour, minute, ss, frac, zone);
  }

  /** `getAISDateTimeInfo` on an assembled stamp whose seconds are
      `digits.digits` and whose month and zone are known. */
  lemma ParsedStamp(tzs: seq<Zone>, day: string, mon: string, year: string, hour: string,
                    minute: string, ss: string, frac: string, zone: string)
    requires |day| > 0 && AllDigits(day) && |year| > 0 && AllDigits(year)
    requires |hour| > 0 && AllDigits(hour) && |minute| > 0 && AllDigits(minute)
    requires |ss| > 0 && AllDigits(ss) && AllDigits(frac)
    requires ' ' !in mon && GetMonthAsInt(mon).Ok?
    requires ' ' !in zone && ZoneLookup(tzs, zone).Ok?
    ensures GetAISDateTimeInfo(tzs, AISStamp(day, mon, year, hour, minute, ss + "." + frac, zone)) ==
            Ok(DateTime(DigitsValue(year), GetMonthAsInt(mon).value, DigitsValue(day),
                        DigitsValue(hour), 0, DigitsValue(ss), ZoneLookup(tzs, zone).value))
  {
    DigitsExclude(ss, ' ');
    DigitsExclude(ss, ':');
    DigitsExclude(frac, ' ');
    DigitsExclude(frac, ':');
    TruncateDecimalFraction(ss, frac);
    AISStampParse(tzs, day, mon, year, hour, minute, ss + "." + frac, zone);
  }

  /** `convertAISDatetime` on an assembled stamp whose fields have the
      template's widths. */
  lemma ConvertedStamp(day: string, mon: string, year: string, hour: string,
                       minute: string, ss: string, frac: string, zone: string)
    requires |day| == 2 && |year| == 4 && |hour| == 2 && |minute| == 2 && |ss| == 2
    requires |mon| == 3 && mon in MonthDict
    ensures ConvertAISDatetime(AISStamp(day, mon, year, hour, minute, ss + "." + frac, zone)) ==
            Ok(year + "-" + MonthDict[mon] + "-" + day + " " + hour + ":" + minute + ":" + ss)
  {
    var second := ss + "." + frac;
    var stamp := AISStamp(day, mon, year, hour, minute, second, zone);
    StampPositions(day, mon, year, hour, minute, second, zone);
    assert second[..2] == ss;
    assert Slice(stamp, 3, 6) == mon && Slice(stamp, 7, 11) == year && Slice(stamp, 0, 2) == day;
    assert Slice(stamp, 12, 14) == hour && Slice(stamp, 15, 17) == minute && Slice(stamp, 18, 20) == ss;
  }

  /** Where the fields of an assembled stamp sit when day, month, year, hour,
      minute and the whole seconds have the template's widths. */
  lemma StampPositions(day: string, mon: string, year: string, hour: string, minute: string, second: string, zone: string)
    requires |day| == 2 && |mon| == 3 && |year| == 4 && |hour| == 2 && |minute| == 2 && |second| >= 2
    ensures var stamp := AISStamp(day, mon, year, hour, minute, second, zone);
            && |stamp| >= 20
            && stamp[..2] == day && stamp[3..6] == mon && stamp[7..11] == year
            && stamp[12..14] == hour && stamp[15..17] == minute && stamp[18..20] == second[..2]
  {
    var clock := Clock(hour, minute, second);
    var rest3 := clock + " " + zone;
    var rest2 := year + " " + rest3;
    var rest1 := mon + " " + rest2;
    var stamp := day + " " + rest1;
    Cut(day, ' ', rest1);
    Cut(mon, ' ', rest2);
    Cut(year, ' ', rest3);
    Cut(clock, ' ', zone);
    Cut(hour, ':', minute + ":" + second);
    Cut(minute, ':', second);
    Window(stamp, 3, 3);
    Window(stamp, 7, 4);
    Window(stamp, 12, 2);
    Window(stamp, 15, 2);
    Window(stamp, 18, 2);
    Window(rest1, 4, 4);
    Window(rest2, 5, 2);
    Window(rest3, 0, 2);
    Window(rest3, 3, 2);
    Window(rest3, 6, 2);
    Window(clock, 3, 2);
    Window(clock, 6, 2);
    Window(minute + ":" + second, 3, 2);
  }

  /** Cutting `a sep b` around the separator gives `a` and `b` back. */
  lemma Cut(a: string, sep: char, b: string)
    ensures (a + [sep] + b)[..|a|] == a && (a + [sep] + b)[|a| + 1..] == b
  {
  }

  /** A window of a suffix is a window of the whole. */
  lemma Window(s: string, i: nat, n: nat)
    requires i + n <= |s|
    ensures s[i..][..n] == s[i..i + n]
  {
  }
}
