/** convertDateTime.py: rewriting an AIS "Base station time stamp" such as
    `01 May 2014 18:54:40.480 UTC` as the SQLite datetime `2014-05-01 18:54:40`
    by fixed character positions. */
module ConvertDateTime {
  import opened PyResult
  import opened PyStr

  /** `month_dict`: capitalised English abbreviation to two-digit month. */
  const MonthDict: map<string, string> := map[
    "Jan" := "01", "Feb" := "02", "Mar" := "03", "Apr" := "04", "May" := "05", "Jun" := "06",
    "Jul" := "07", "Aug" := "08", "Sep" := "09", "Oct" := "10", "Nov" := "11", "Dec" := "12"
  ]

  /** The two-digit month strings `01` to `12`. */
  const MonthDigits: set<string> :=
    {"01", "02", "03", "04", "05", "06", "07", "08", "09", "10", "11", "12"}

  /** `convertAISDatetime(stamp)`: year from characters 7-10, month key from
      characters 3-5, day from 0-1, hour from 12-13, minute from 15-16 and
      second from 18-19, joined as `year-month-day hour:minute:second`. Slices
      past the end are shortened as in Python; a month key not in the table
      (case-sensitive, or shorter than three characters) raises KeyError. */
  function ConvertAISDatetime(stamp: string): (r: Result<string>)
    ensures r.Ok? <==> |stamp| >= 6 && stamp[3..6] in MonthDict
    ensures r.Ok? ==> r.value == Slice(stamp, 7, 11) + "-" + MonthDict[stamp[3..6]] + "-" + Slice(stamp, 0, 2)
                                + " " + Slice(stamp, 12, 14) + ":" + Slice(stamp, 15, 17) + ":" + Slice(stamp, 18, 20)
    ensures r.Err? ==> r.error == KeyError(Slice(stamp, 3, 6))
  {
    var year := Slice(stamp, 7, 11);
    var monthKey := Slice(stamp, 3, 6);
    if monthKey !in MonthDict then Err(KeyError(monthKey))
    else
      var month := MonthDict[monthKey];
      var day := Slice(stamp, 0, 2);
      var hour := Slice(stamp, 12, 14);
      var minute := Slice(stamp, 15, 17);
      var second := Slice(stamp, 18, 20);
      assert |stamp| >= 6 && monthKey == stamp[3..6];
      Ok(year + "-" + month + "-" + day + " " + hour + ":" + minute + ":" + second)
  }

  /** On a stamp of at least 20 characters the output is 19 characters long,
      each field copied from its fixed position, and the month field is one of
      `01` to `12`. */
  lemma ConvertLayout(stamp: string)
    requires |stamp| >= 20 && stamp[3..6] in MonthDict
    ensures var out := ConvertAISDatetime(stamp).value;
            && |out| == 19
            && out[..4] == stamp[7..11]
            && out[4] == '-' && out[5..7] == MonthDict[stamp[3..6]] && out[7] == '-'
            && out[8..10] == stamp[..2]
            && out[10] == ' '
            && out[11..13] == stamp[12..14] && out[13] == ':'
            && out[14..16] == stamp[15..17] && out[16] == ':'
            && out[17..] == stamp[18..20]
            && out[5..7] in MonthDigits
  {
    var year, month, day := stamp[7..11], MonthDict[stamp[3..6]], stamp[..2];
    var hour, minute, second := stamp[12..14], stamp[15..17], stamp[18..20];
    assert Slice(stamp, 7, 11) == year && Slice(stamp, 0, 2) == day;
    assert Slice(stamp, 12, 14) == hour && Slice(stamp, 15, 17) == minute && Slice(stamp, 18, 20) == second;
    MonthDictDigits(stamp[3..6]);
    Layout(year, month, day, hour, minute, second);
  }

  /** Every value of `month_dict` is one of `01` to `12`. */
  lemma MonthDictDigits(k: string)
    requires k in MonthDict
    ensures |MonthDict[k]| == 2 && MonthDict[k] in MonthDigits
  {
  }

  /** Where the fields sit in `year-month-day hour:minute:second` when they
      have the widths 4, 2, 2, 2, 2 and 2. */
  lemma Layout(year: string, month: string, day: string, hour: string, minute: string, second: string)
    requires |year| == 4 && |month| == 2 && |day| == 2 && |hour| == 2 && |minute| == 2 && |second| == 2
    ensures var out := year + "-" + month + "-" + day + " " + hour + ":" + minute + ":" + second;
            && |out| == 19
            && out[..4] == year && out[4] == '-' && out[5..7] == month && out[7] == '-'
            && out[8..10] == day && out[10] == ' '
            && out[11..13] == hour && out[13] == ':'
            && out[14..16] == minute && out[16] == ':'
            && out[17..] == second
  {
  }

  /** The positions that are not copied into the output. */
  predicate Ignored(i: nat)
  {
    i == 2 || i == 6 || i == 11 || i == 14 || i == 17 || i >= 20
  }

  /** Characters 2, 6, 11, 14, 17 and everything from 20 on, including the
      fractional seconds and the zone, do not affect the output. */
  lemma ConvertIgnores(a: string, b: string)
    requires |a| >= 20 && |b| >= 20
    requires forall i :: 0 <= i < 20 && !Ignored(i) ==> a[i] == b[i]
    ensures ConvertAISDatetime(a) == ConvertAISDatetime(b)
  {
    assert a[3..6] == b[3..6];
    if a[3..6] in MonthDict {
      ConvertLayout(a);
      ConvertLayout(b);
      var oa, ob := ConvertAISDatetime(a).value, ConvertAISDatetime(b).value;
      assert a[7..11] == b[7..11] && a[..2] == b[..2] && a[12..14] == b[12..14];
      assert a[15..17] == b[15..17] && a[18..20] == b[18..20];
      assert forall i :: 0 <= i < 19 ==> oa[i] == ob[i] by {
        forall i | 0 <= i < 19 ensures oa[i] == ob[i] {
          if i < 4 { assert oa[i] == oa[..4][i]; assert ob[i] == ob[..4][i]; }
          else if 5 <= i < 7 { assert oa[i] == oa[5..7][i - 5]; assert ob[i] == ob[5..7][i - 5]; }
          else if 8 <= i < 10 { assert oa[i] == oa[8..10][i - 8]; assert ob[i] == ob[8..10][i - 8]; }
          else if 11 <= i < 13 { assert oa[i] == oa[11..13][i - 11]; assert ob[i] == ob[11..13][i - 11]; }
          else if 14 <= i < 16 { assert oa[i] == oa[14..16][i - 14]; assert ob[i] == ob[14..16][i - 14]; }
          else if 17 <= i { assert oa[i] == oa[17..][i - 17]; assert ob[i] == ob[17..][i - 17]; }
        }
      }
    }
  }

  /** The template stamp: `01 May 2014 18:54:40.480 UTC` becomes `2014-05-01 18:54:40`. */
  lemma ConvertExample(stamp: string)
    requires stamp == "01 May 2014 18:54:40.480 UTC"
    ensures ConvertAISDatetime(stamp) == Ok("2014-05-01 18:54:40")
  {
    ExampleSlices(stamp);
    assert ConvertAISDatetime(stamp).value == "2014" + "-" + "05" + "-" + "01" + " " + "18" + ":" + "54" + ":" + "40";
    assert "2014" + "-" + "05" + "-" + "01" + " " + "18" + ":" + "54" + ":" + "40" == "2014-05-01 18:54:40";
  }

  lemma ExampleSlices(stamp: string)
    requires stamp == "01 May 2014 18:54:40.480 UTC"
    ensures |stamp| >= 6 && stamp[3..6] == "May" && MonthDict["May"] == "05"
    ensures Slice(stamp, 3, 6) == "May"
    ensures Slice(stamp, 7, 11) == "2014" && Slice(stamp, 0, 2) == "01"
    ensures Slice(stamp, 12, 14) == "18" && Slice(stamp, 15, 17) == "54" && Slice(stamp, 18, 20) == "40"
  {
    assert stamp[3] == 'M' && stamp[4] == 'a' && stamp[5] == 'y';
    assert stamp[3..6] == "May";
  }

  /** The month key is case-sensitive: `may` and `MAY` raise KeyError. */
  lemma ConvertCaseSensitive(lower: string, upper: string)
    requires lower == "01 may 2014 18:54:40.480 UTC" && upper == "01 MAY 2014 18:54:40.480 UTC"
    ensures ConvertAISDatetime(lower) == Err(KeyError("may"))
    ensures ConvertAISDatetime(upper) == Err(KeyError("MAY"))
  {
    assert Slice(lower, 3, 6) == "may";
    assert Slice(upper, 3, 6) == "MAY";
  }
}
