/** integrate.py: resolving AIS time zones and months, parsing the AIS
    "Base station time stamp", and joining photo timestamps into the GGC rows
    by photo label. */
module Integrate {
  import opened PyResult
  import opened PyStr
  import opened PyDict
  import opened Rows

  // ---------------------------------------------------------------------------
  // time zones (getTzInfo)

  /** A `tzinfo` object from the `date_and_time` module; only the name it is
      known by and its `stdname` attribute matter here. */
  datatype Zone = Zone(name: string, stdname: string)

  /** The lookup `getTzInfo` performs over the zone tuple `tzs`: the first zone
      whose `stdname` is exactly `n`, or UnknownTimeZone. */
  function ZoneLookup(tzs: seq<Zone>, n: string): (r: Result<Zone>)
    ensures r.Ok? <==> exists i :: 0 <= i < |tzs| && tzs[i].stdname == n
    ensures r.Ok? ==> exists i :: 0 <= i < |tzs| && tzs[i] == r.value && r.value.stdname == n &&
                                  forall j :: 0 <= j < i ==> tzs[j].stdname != n
    ensures r.Err? ==> r.error == UnknownTimeZone(n)
    decreases |tzs|
  {
    if |tzs| == 0 then Err(UnknownTimeZone(n))
    else if tzs[0].stdname == n then Ok(tzs[0])
    else
      var r := ZoneLookup(tzs[1..], n);
      assert forall i :: 1 <= i < |tzs| ==> tzs[i] == tzs[1..][i - 1];
      r
  }

  /** `getTzInfo(n)`: scan the zone tuple in order and return the first zone
      whose `stdname` equals `n`; raise UnknownTimeZone when none does. */
  method GetTzInfo(tzs: seq<Zone>, n: string) returns (r: Result<Zone>)
    ensures r == ZoneLookup(tzs, n)
  {
    var i := 0;
    while i < |tzs|
      invariant 0 <= i <= |tzs|
      invariant ZoneLookup(tzs[i..], n) == ZoneLookup(tzs, n)
    {
      if tzs[i].stdname == n {
        return Ok(tzs[i]);
      }
      assert tzs[i..][1..] == tzs[i + 1..];
      i := i + 1;
    }
    return Err(UnknownTimeZone(n));
  }

  // ---------------------------------------------------------------------------
  // months (getMonthAsInt)

  /** The table of `getMonthAsInt`, keyed by lower-case abbreviation. */
  const MonthNumbers: map<string, int> := map[
    "jan" := 1, "feb" := 2, "mar" := 3, "apr" := 4, "may" := 5, "jun" := 6,
    "jul" := 7, "aug" := 8, "sep" := 9, "oct" := 10, "nov" := 11, "dec" := 12
  ]

  /** `getMonthAsInt(mon)`: lower-case the abbreviation and look it up; an
      unknown abbreviation raises KeyError. */
  function GetMonthAsInt(mon: string): (r: Result<int>)
    ensures r.Ok? <==> Lower(mon) in MonthNumbers
    ensures r.Ok? ==> 1 <= r.value <= 12 && MonthAbbreviations[r.value - 1] == Lower(mon)
    ensures r.Err? ==> r.error == KeyError(Lower(mon))
  {
    var key := Lower(mon);
    if key in MonthNumbers then Ok(MonthNumbers[key]) else Err(KeyError(key))
  }

  /** The abbreviations in calendar order. */
  const MonthAbbreviations: seq<string> :=
    ["jan", "feb", "mar", "apr", "may", "jun", "jul", "aug", "sep", "oct", "nov", "dec"]

  /** The table and the calendar order are inverse to each other, so the
      twelve abbreviations name the twelve months, each a different one. */
  lemma MonthNumbersInverse()
    ensures forall k :: k in MonthNumbers ==> MonthAbbreviations[MonthNumbers[k] - 1] == k
    ensures forall i :: 0 <= i < 12 ==> MonthAbbreviations[i] in MonthNumbers && MonthNumbers[MonthAbbreviations[i]] == i + 1
  {
  }

  /** No two abbreviations share a month number. */
  lemma MonthNumbersInjective(a: string, b: string)
    requires a in MonthNumbers && b in MonthNumbers && a != b
    ensures MonthNumbers[a] != MonthNumbers[b]
  {
    MonthNumbersInverse();
  }

  /** Abbreviations that differ after lower-casing give different months. */
  lemma MonthsDistinct(a: string, b: string)
    requires GetMonthAsInt(a).Ok? && GetMonthAsInt(b).Ok? && Lower(a) != Lower(b)
    ensures GetMonthAsInt(a).value != GetMonthAsInt(b).value
  {
  }

  /** The lookup ignores case: a string and its lower-case form give the same
      month, or raise the same KeyError. */
  lemma MonthCaseInsensitive(mon: string)
    ensures GetMonthAsInt(mon) == GetMonthAsInt(Lower(mon))
  {
    LowerIdempotent(mon);
  }

  // ---------------------------------------------------------------------------
  // AIS timestamps (getAISDateTimeInfo)

  /** The `datetime` that `getAISDateTimeInfo` builds: its calendar and clock
      fields and its `tzinfo`. */
  datatype DateTime = DateTime(year: int, month: int, day: int, hour: int, minute: int, second: int, tz: Zone)

  /** `getAISDateTimeInfo(stamp)` for a stamp like `01 May 2014 18:54:40.480 UTC`:
      fields 0, 1, 2, 4 of the single-space split give day, month, year and zone,
      and the colon-separated parts of field 3 give hour, minute and second.
      The steps run in the source's order, so the first failing step decides the
      exception. The minute is parsed (and must be numeric) but is not passed to
      the `datetime` constructor, whose default minute is 0. */
  function GetAISDateTimeInfo(tzs: seq<Zone>, stamp: string): (r: Result<DateTime>)
    ensures r.Ok? ==> r.value.minute == 0
    ensures r.Ok? ==> 1 <= r.value.month <= 12
    ensures r.Ok? ==> |Split(stamp, ' ')| >= 5 && r.value.tz in tzs && r.value.tz.stdname == Split(stamp, ' ')[4]
    ensures r.Ok? ==> |Split(stamp, ' ')| >= 5 && |Split(Split(stamp, ' ')[3], ':')| >= 3
    ensures |Split(stamp, ' ')| < 5 ==> r.Err?
    ensures r.Ok? ==>
              var e := Split(stamp, ' ');
              var t := Split(e[3], ':');
              && ParseInt(e[0]) == Ok(r.value.day)
              && GetMonthAsInt(e[1]) == Ok(r.value.month)
              && ParseInt(e[2]) == Ok(r.value.year)
              && ParseInt(t[0]) == Ok(r.value.hour)
              && ParseInt(t[1]).Ok?
              && TruncateDecimal(t[2]) == Ok(r.value.second)
              && ZoneLookup(tzs, e[4]) == Ok(r.value.tz)
  {
    var elems := Split(stamp, ' ');
    var day :- ParseInt(elems[0]);
    var monthField :- At(elems, 1);
    var month :- GetMonthAsInt(monthField);
    var yearField :- At(elems, 2);
    var year :- ParseInt(yearField);
    var tzName :- At(elems, 4);
    var clock :- At(elems, 3);
    var tElems := Split(clock, ':');
    var hour :- ParseInt(tElems[0]);
    var minuteField :- At(tElems, 1);
    var minute :- ParseInt(minuteField);
    var secondField :- At(tElems, 2);
    var second :- TruncateDecimal(secondField);
    var tz :- ZoneLookup(tzs, tzName);
    Ok(DateTime(year, month, day, hour, 0, second, tz))
  }

  /** The clock field of an AIS stamp, `hour:minute:second`. */
  function Clock(hour: string, minute: string, second: string): string
  {
    hour + ":" + (minute + ":" + second)
  }

  /** An AIS stamp assembled from its fields: `day mon year hour:minute:second zone`. */
  function AISStamp(day: string, mon: string, year: string, hour: string, minute: string, second: string, zone: string): string
  {
    day + " " + (mon + " " + (year + " " + (Clock(hour, minute, second) + " " + zone)))
  }

  /** Splitting an assembled stamp on single spaces and its clock on colons
      gives back the fields. */
  lemma {:induction false} AISStampFields(day: string, mon: string, year: string, hour: string, minute: string, second: string, zone: string)
    requires ' ' !in day && ' ' !in mon && ' ' !in year && ' ' !in hour && ' ' !in minute && ' ' !in second && ' ' !in zone
    requires ':' !in hour && ':' !in minute && ':' !in second
    ensures Split(AISStamp(day, mon, year, hour, minute, second, zone), ' ') ==
            [day, mon, year, Clock(hour, minute, second), zone]
    ensures Split(Clock(hour, minute, second), ':') == [hour, minute, second]
  {
    var clock := Clock(hour, minute, second);
    assert ' ' !in clock;
    var rest3 := clock + " " + zone;
    var rest2 := year + " " + rest3;
    var rest1 := mon + " " + rest2;
    SplitNoSeparator(zone, ' ');
    SplitAfterField(clock, zone, ' ');
    assert Split(rest3, ' ') == [clock, zone];
    SplitAfterField(year, rest3, ' ');
    assert Split(rest2, ' ') == [year, clock, zone];
    SplitAfterField(mon, rest2, ' ');
    assert Split(rest1, ' ') == [mon, year, clock, zone];
    SplitAfterField(day, rest1, ' ');
    ClockFields(hour, minute, second);
  }

  /** Splitting an assembled clock on colons gives back hour, minute and second. */
  lemma {:induction false} ClockFields(hour: string, minute: string, second: string)
    requires ':' !in hour && ':' !in minute && ':' !in second
    ensures Split(Clock(hour, minute, second), ':') == [hour, minute, second]
  {
    SplitNoSeparator(second, ':');
    SplitAfterField(minute, second, ':');
    SplitAfterField(hour, minute + ":" + second, ':');
  }

  /** Parsing an assembled stamp whose numeric fields are digit strings: an
      unknown month raises KeyError, then an unknown zone raises
      UnknownTimeZone, and otherwise the result holds the parsed fields with
      the seconds truncated and the minute 0, whatever digits the minute field holds. */
  lemma AISStampParse(tzs: seq<Zone>, day: string, mon: string, year: string, hour: string, minute: string, second: string, zone: string)
    requires |day| > 0 && AllDigits(day) && |year| > 0 && AllDigits(year)
    requires |hour| > 0 && AllDigits(hour) && |minute| > 0 && AllDigits(minute)
    requires ' ' !in mon && ' ' !in second && ':' !in second && ' ' !in zone
    requires TruncateDecimal(second).Ok?
    ensures var r := GetAISDateTimeInfo(tzs, AISStamp(day, mon, year, hour, minute, second, zone));
            && (GetMonthAsInt(mon).Err? ==> r == Err(KeyError(Lower(mon))))
            && (GetMonthAsInt(mon).Ok? && ZoneLookup(tzs, zone).Err? ==> r == Err(UnknownTimeZone(zone)))
            && (GetMonthAsInt(mon).Ok? && ZoneLookup(tzs, zone).Ok? ==>
                  r == Ok(DateTime(DigitsValue(year), GetMonthAsInt(mon).value, DigitsValue(day),
                                   DigitsValue(hour), 0, TruncateDecimal(second).value, ZoneLookup(tzs, zone).value)))
  {
    DigitsExclude(day, ' ');
    DigitsExclude(year, ' ');
    DigitsExclude(hour, ' ');
    DigitsExclude(hour, ':');
    DigitsExclude(minute, ' ');
    DigitsExclude(minute, ':');
    AISStampFields(day, mon, year, hour, minute, second, zone);
  }

  /** The exception raised while reading the calendar fields, in the order of
      the source: a non-numeric day, then a missing or unknown month, then a
      missing or non-numeric year, then a missing zone field. */
  lemma CalendarErrors(tzs: seq<Zone>, stamp: string)
    ensures var e := Split(stamp, ' ');
            var r := GetAISDateTimeInfo(tzs, stamp);
            && (ParseInt(e[0]).Err? ==> r == Err(ValueError(e[0])))
            && (ParseInt(e[0]).Ok? && |e| < 2 ==> r == Err(IndexError))
            && (ParseInt(e[0]).Ok? && |e| >= 2 && GetMonthAsInt(e[1]).Err? ==> r == Err(KeyError(Lower(e[1]))))
            && (ParseInt(e[0]).Ok? && |e| >= 2 && GetMonthAsInt(e[1]).Ok? ==>
                  && (|e| < 3 ==> r == Err(IndexError))
                  && (|e| >= 3 && ParseInt(e[2]).Err? ==> r == Err(ValueError(e[2])))
                  && (|e| >= 3 && ParseInt(e[2]).Ok? && |e| < 5 ==> r == Err(IndexError)))
  {
  }

  /** Once the calendar fields are read, the exception raised while reading the
      clock field and the zone, in the order of the source: a non-numeric hour,
      a missing or non-numeric minute, missing or malformed seconds, then an
      unknown zone; when none of these happens the parse succeeds. */
  lemma ClockErrors(tzs: seq<Zone>, stamp: string)
    requires var e := Split(stamp, ' ');
             |e| >= 5 && ParseInt(e[0]).Ok? && GetMonthAsInt(e[1]).Ok? && ParseInt(e[2]).Ok?
    ensures var e := Split(stamp, ' ');
            var t := Split(e[3], ':');
            var r := GetAISDateTimeInfo(tzs, stamp);
            && (ParseInt(t[0]).Err? ==> r == Err(ValueError(t[0])))
            && (ParseInt(t[0]).Ok? && |t| < 2 ==> r == Err(IndexError))
            && (ParseInt(t[0]).Ok? && |t| >= 2 && ParseInt(t[1]).Err? ==> r == Err(ValueError(t[1])))
            && (ParseInt(t[0]).Ok? && |t| >= 2 && ParseInt(t[1]).Ok? ==>
                  && (|t| < 3 ==> r == Err(IndexError))
                  && (|t| >= 3 && TruncateDecimal(t[2]).Err? ==> r == Err(ValueError(t[2])))
                  && (|t| >= 3 && TruncateDecimal(t[2]).Ok? ==>
                        (r.Ok? <==> ZoneLookup(tzs, e[4]).Ok?) &&
                        (r.Err? ==> r == Err(UnknownTimeZone(e[4])))))
  {
  }

  /** A non-numeric minute still makes the parse fail, although the minute is
      never used. */
  lemma AISStampBadMinute(tzs: seq<Zone>, day: string, mon: string, year: string, hour: string, minute: string, second: string, zone: string)
    requires |day| > 0 && AllDigits(day) && |year| > 0 && AllDigits(year) && |hour| > 0 && AllDigits(hour)
    requires GetMonthAsInt(mon).Ok?
    requires ' ' !in mon && ' ' !in minute && ':' !in minute && ' ' !in second && ':' !in second && ' ' !in zone
    requires !(|minute| > 0 && AllDigits(minute))
    ensures GetAISDateTimeInfo(tzs, AISStamp(day, mon, year, hour, minute, second, zone)) == Err(ValueError(minute))
  {
    DigitsExclude(day, ' ');
    DigitsExclude(year, ' ');
    DigitsExclude(hour, ' ');
    DigitsExclude(hour, ':');
    AISStampFields(day, mon, year, hour, minute, second, zone);
  }

  /** The template of the source comment, `01 May 2014 18:54:40.480 UTC`, parses to 2014-05-01 18:00:40 in the zone named
      UTC: the seconds 40.480 are truncated to 40, and the minute 54 is lost. */
  lemma AISStampExample(tzs: seq<Zone>, stamp: string)
    requires stamp == "01 May 2014 18:54:40.480 UTC"
    requires ZoneLookup(tzs, "UTC").Ok?
    ensures GetAISDateTimeInfo(tzs, stamp) == Ok(DateTime(2014, 5, 1, 18, 0, 40, ZoneLookup(tzs, "UTC").value))
  {
    ExampleStampText();
    ExampleDigits();
    ExampleSeparators();
    ExampleSeconds();
    ExampleValues();
    AISStampParse(tzs, "01", "May", "2014", "18", "54", "40.480", "UTC");
  }

  lemma ExampleStampText()
    ensures AISStamp("01", "May", "2014", "18", "54", "40.480", "UTC") == "01 May 2014 18:54:40.480 UTC"
  {
  }

  lemma ExampleDigits()
    ensures |"01"| > 0 && AllDigits("01") && |"2014"| > 0 && AllDigits("2014")
    ensures |"18"| > 0 && AllDigits("18") && |"54"| > 0 && AllDigits("54")
  {
  }

  lemma ExampleSeparators()
    ensures ' ' !in "May" && ' ' !in "40.480" && ':' !in "40.480" && ' ' !in "UTC"
  {
  }

  lemma ExampleSeconds()
    ensures TruncateDecimal("40.480") == Ok(40)
  {
    TruncateDecimalFraction("40", "480");
    assert "40" + "." + "480" == "40.480";
    assert DigitsValue("40") == 40 by { assert "40"[..1] == "4"; }
  }

  lemma ExampleValues()
    ensures GetMonthAsInt("May") == Ok(5)
    ensures DigitsValue("01") == 1 && DigitsValue("18") == 18 && DigitsValue("2014") == 2014
  {
    assert Lower("May") == "may";
    assert DigitsValue("01") == 1 by { assert "01"[..1] == "0"; }
    assert DigitsValue("18") == 18 by { assert "18"[..1] == "1"; }
    assert DigitsValue("2014") == 2014 by {
      assert "2014"[..3] == "201" && "201"[..2] == "20" && "20"[..1] == "2";
    }
  }

  // ---------------------------------------------------------------------------
  // joining photo timestamps into the rows (joinDictData, getDictHeader)

  /** The body of the `joinDictData` loop for one row: strip trailing whitespace
      from its `Photo_Label`, look the label up in the photo table, and set
      `PhotoTimeStamp` to the entry's `time` and then `PhotoDateStamp` to its
      `date`. Each lookup raises KeyError when its key is missing. */
  function JoinRow(row: Row, photos: Dict<Dict<string>>): (r: Result<Row>)
    ensures r.Err? <==>
      || "Photo_Label" !in row.entries
      || RStrip(row.entries["Photo_Label"]) !in photos.entries
      || "date" !in photos.entries[RStrip(row.entries["Photo_Label"])].entries
      || "time" !in photos.entries[RStrip(row.entries["Photo_Label"])].entries
    ensures "Photo_Label" !in row.entries ==> r == Err(KeyError("Photo_Label"))
    ensures "Photo_Label" in row.entries && RStrip(row.entries["Photo_Label"]) !in photos.entries ==>
              r == Err(KeyError(RStrip(row.entries["Photo_Label"])))
    ensures r.Err? && "Photo_Label" in row.entries && RStrip(row.entries["Photo_Label"]) in photos.entries ==>
              var entry := photos.entries[RStrip(row.entries["Photo_Label"])];
              r == Err(KeyError(if "date" !in entry.entries then "date" else "time"))
    ensures r.Ok? ==>
              var entry := photos.entries[RStrip(row.entries["Photo_Label"])];
              && r.value.Get("PhotoTimeStamp") == entry.Get("time")
              && r.value.Get("PhotoDateStamp") == entry.Get("date")
              && (forall f :: f != "PhotoTimeStamp" && f != "PhotoDateStamp" ==> r.value.Get(f) == row.Get(f))
              && r.value.keys == row.keys
                                 + (if "PhotoTimeStamp" in row.entries then [] else ["PhotoTimeStamp"])
                                 + (if "PhotoDateStamp" in row.entries then [] else ["PhotoDateStamp"])
              && (row.Valid() ==> r.value.Valid())
  {
    var photoLabel :- row.Get("Photo_Label");
    var key := RStrip(photoLabel);
    var entry :- photos.Get(key);
    var date :- entry.Get("date");
    var time :- entry.Get("time");
    Ok(row.Set("PhotoTimeStamp", time).Set("PhotoDateStamp", date))
  }

  /** JoinRow with the photo table fixed, as the per-row update of the loop. */
  function JoinWith(photos: Dict<Dict<string>>): Row -> Result<Row>
  {
    row => JoinRow(row, photos)
  }

  /** `joinDictData(data_dict, ph_timestamp_dict, output_fp)`: update every row
      in place, in order; the first row that raises leaves the rows before it
      updated and the rest untouched. The output path is not used by the
      source and is not a parameter here. */
  method JoinDictData(rows: array<Row>, photos: Dict<Dict<string>>) returns (outcome: Outcome)
    modifies rows
    ensures (rows[..], outcome) == ApplyRows(old(rows[..]), JoinWith(photos))
  {
    ghost var before := rows[..];
    var i := 0;
    while i < rows.Length
      invariant 0 <= i <= rows.Length
      invariant forall j :: 0 <= j < i ==> JoinRow(before[j], photos).Ok? && rows[j] == JoinRow(before[j], photos).value
      invariant forall j :: i <= j < rows.Length ==> rows[j] == before[j]
    {
      var r := JoinRow(rows[i], photos);
      if r.Err? {
        ApplyRowsStoppedAt(before, JoinWith(photos), rows[..], i);
        return Raised(r.error);
      }
      rows[i] := r.value;
      i := i + 1;
    }
    ApplyRowsStoppedAt(before, JoinWith(photos), rows[..], i);
    return Completed;
  }

  /** After a join that completes, the list has the same length and order and
      every row carries the time and date of its photo, with its other fields unchanged. */
  lemma JoinedRows(rows: seq<Row>, photos: Dict<Dict<string>>)
    requires ApplyRows(rows, JoinWith(photos)).1 == Completed
    ensures var out := ApplyRows(rows, JoinWith(photos)).0;
            && |out| == |rows|
            && forall i :: 0 <= i < |rows| ==>
                 && "Photo_Label" in rows[i].entries
                 && RStrip(rows[i].entries["Photo_Label"]) in photos.entries
                 && var entry := photos.entries[RStrip(rows[i].entries["Photo_Label"])];
                    && out[i].Get("PhotoTimeStamp") == entry.Get("time")
                    && out[i].Get("PhotoDateStamp") == entry.Get("date")
                    && forall f :: f != "PhotoTimeStamp" && f != "PhotoDateStamp" ==> out[i].Get(f) == rows[i].Get(f)
  {
    ApplyRowsEffect(rows, JoinWith(photos));
    ApplyRowsCompletes(rows, JoinWith(photos));
  }

  /** A join that raises names the first row whose label (after stripping) is
      missing: the rows before it are joined, it and the rows after are untouched. */
  lemma JoinStopsAtMissingLabel(rows: seq<Row>, photos: Dict<Dict<string>>, k: nat)
    requires k < |rows|
    requires forall i :: 0 <= i <= k ==> "Photo_Label" in rows[i].entries
    requires forall i :: 0 <= i < k ==> JoinRow(rows[i], photos).Ok?
    requires RStrip(rows[k].entries["Photo_Label"]) !in photos.entries
    ensures var (out, outcome) := ApplyRows(rows, JoinWith(photos));
            && outcome == Raised(KeyError(RStrip(rows[k].entries["Photo_Label"])))
            && |out| == |rows|
            && (forall i :: 0 <= i < k ==> out[i] == JoinRow(rows[i], photos).value)
            && (forall i :: k <= i < |rows| ==> out[i] == rows[i])
  {
    var f := JoinWith(photos);
    assert forall i :: 0 <= i < |rows| ==> f(rows[i]) == JoinRow(rows[i], photos);
    ApplyRowsStopsAt(rows, f, k);
  }

  /** `getDictHeader(d)`: the field names, in insertion order, of the entry
      whose key was inserted first; IndexError for an empty dict. */
  function GetDictHeader<V>(d: Dict<Dict<V>>): (r: Result<seq<string>>)
    requires d.Valid()
    ensures r.Err? <==> |d.keys| == 0
    ensures r.Err? ==> r.error == IndexError
    ensures r.Ok? ==> d.keys[0] in d.entries && r.value == d.entries[d.keys[0]].keys
    ensures r.Ok? ==> d.keys[0] in d.entries &&
                      (d.entries[d.keys[0]].Valid() ==>
                         forall f :: f in r.value <==> f in d.entries[d.keys[0]].entries)
  {
    var firstKey :- At(d.keys, 0);
    Ok(d.entries[firstKey].keys)
  }
}
