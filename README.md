# TeerlinkWhaleTracker string and record core, in Dafny

This project models the string and record logic of TeerlinkWhaleTracker's
data-integration scripts. The scripts attach photo timestamps and vessel names
to the GGC rows that record whales sighted from vessels, and reformat the
timestamps of AIS ("Automatic Identification System") position reports. There are three parts:

- **integrate.py**:
  - `getTzInfo`: finds a time zone by its standard name in the zone tuple `tzs`.
  - `getMonthAsInt`: a case-insensitive table of month abbreviations.
  - `getAISDateTimeInfo`: parses an AIS "Base station time stamp" such as
    `01 May 2014 18:54:40.480 UTC` into calendar fields and a zone.
  - `joinDictData`: writes each photo's EXIF date and time into the GGC data
    rows, keyed by the right-stripped photo label, and updates each row in place.
  - `getDictHeader`: gives the field names of the first entry of a dict.
- **convertDateTime.py**: `month_dict` and `convertAISDatetime`, which rewrite
  an AIS stamp as an SQLite datetime `YYYY-MM-DD HH:MM:SS` by cutting it at
  fixed character positions.
- **addVesselName.py**: `getVesselName`, which turns characters 13–14 of a
  photo label into one of six vessel names, and the loop that adds a `Vessel`
  field to every row in place.

How Python is modelled:

- A raised exception is an `Err` of the `Result` type in `PyResult`. Each
  `:-` step in a function stands for one Python operation that may raise, so
  the first failing statement decides the exception, as in the source.
- A Python dict is a `PyDict.Dict`: its keys in insertion order plus the
  key–value map. Assignment keeps an existing key in place and appends a
  new key.
- A list of rows that a loop updates in place is an `array`. Both loops are
  proved equal to the specification function `Rows.ApplyRows`. Its lemmas
  describe what the loop leaves behind: the rows before the first failure
  are updated, the rest are untouched, and the first failure's exception is
  raised.
- `getTzInfo` is a loop method, `Integrate.GetTzInfo`. It is proved equal to
  the recursive first-match function `Integrate.ZoneLookup`.
- The module `TimestampAgreement` relates the two readers of AIS stamps on a
  stamp laid out like the template in the comment at integrate.py:105,
  `01 May 2014 18:54:40.480 UTC`. It also proves that their month tables
  differ in case handling.

Behaviour worth knowing:

- `getAISDateTimeInfo` parses the minute but never passes it to the
  `datetime` constructor, so every parsed stamp has minute 0. The model
  reproduces this (`Integrate.GetAISDateTimeInfo`, `Integrate.AISStampExample`).
  The template `01 May 2014 18:54:40.480 UTC` therefore gives 18:00:40, not
  18:54:40, while `convertAISDatetime` turns the same stamp into
  `2014-05-01 18:54:40`.
- The minute must still be numeric: `int()` of it runs and raises
  `ValueError` on anything else, even though its value is thrown away.
- An unknown month raises `KeyError` of the lower-cased abbreviation.
- A photo label missing from the photo table raises `KeyError` and stops the
  join: the rows already updated stay updated, the rest stay untouched.
- An unknown zone raises `UnknownTimeZone` out of `getAISDateTimeInfo`;
  nothing in the modelled code catches it.

## Model

| member | source | states |
|---|---|---|
| Integrate.ZoneLookup | integrate.py:78-82 | Succeeds exactly when some zone's `stdname` equals the name. The zone returned is the first such zone, and no earlier zone matches. Otherwise the error is `UnknownTimeZone(name)`. |
| Integrate.GetTzInfo | integrate.py:78-82 | The scan over the zone tuple returns exactly `ZoneLookup`: the first exact, case-sensitive match, or `UnknownTimeZone`. |
| Integrate.GetMonthAsInt | integrate.py:85-101 | Succeeds exactly when the lower-cased abbreviation is one of the twelve keys. The value is the month number in 1..12 whose calendar-order abbreviation is the lower-cased string. Otherwise the error is `KeyError` of the lower-cased string. |
| Integrate.MonthNumbersInverse | integrate.py:87-100 | The table maps the twelve abbreviations, in calendar order, to 1..12. Every key's number indexes back to that key. |
| Integrate.MonthNumbersInjective | integrate.py:87-100 | Two different abbreviations never share a month number. |
| Integrate.MonthsDistinct | integrate.py:86-101 | Two abbreviations that differ after lower-casing, and are both known, give different month numbers. |
| Integrate.MonthCaseInsensitive | integrate.py:86-101 | `getMonthAsInt(s)` equals `getMonthAsInt(s.lower())`, for both results and errors. |
| Integrate.GetAISDateTimeInfo | integrate.py:104-120 | A result always has minute 0 and a month in 1..12. Its zone is in `tzs` and has `stdname` equal to space-field 4. Success needs at least five space fields and at least three colon parts in field 3, and fewer than five space fields always fails. On success, for any number of fields beyond these: the day is `int` of space-field 0, the month is `getMonthAsInt` of field 1, the year is `int` of field 2, the hour is `int` of colon-part 0 of field 3, colon-part 1 is numeric, the second is `int(float())` of colon-part 2, and the zone is the lookup of field 4. |
| Integrate.CalendarErrors | integrate.py:107-112 | The exception of a failing parse, in statement order: `ValueError` of a non-numeric day; `IndexError` for a missing month field, else `KeyError` of an unknown lower-cased month; `IndexError` for a missing year field, else `ValueError` of a non-numeric year; `IndexError` when there is no zone field. |
| Integrate.ClockErrors | integrate.py:114-120 | Once day, month and year are read and five fields exist: `ValueError` of a non-numeric hour; `IndexError` for a missing minute part, else `ValueError` of a non-numeric minute; `IndexError` for a missing seconds part, else `ValueError` of malformed seconds; then success exactly when the zone is known, and `UnknownTimeZone` of field 4 otherwise. |
| Integrate.AISStampFields | integrate.py:107-115 | Splitting `day mon year h:m:s zone` on single spaces gives back the five fields, when none of them contains a space. |
| Integrate.ClockFields | integrate.py:114-115 | Splitting `h:m:s` on colons gives back hour, minute and second, when none of them contains a colon. |
| Integrate.AISStampParse | integrate.py:107-120 | For an assembled stamp with digit fields: an unknown month gives `KeyError`, then an unknown zone gives `UnknownTimeZone`. Otherwise the result holds the day, month, year and hour values, a minute of 0 and the truncated seconds. |
| Integrate.AISStampBadMinute | integrate.py:117 | A minute that is not a digit string raises `ValueError(minute)`, even though the minute is never used. |
| Integrate.AISStampExample | integrate.py:105-120 | `01 May 2014 18:54:40.480 UTC` parses to 2014-05-01 18:00:40 in the UTC zone: the seconds are truncated and the minute is lost. |
| Integrate.JoinRow | integrate.py:55-62 | Fails exactly when `Photo_Label`, the stripped label, `date` or `time` is missing. It raises `KeyError("Photo_Label")`, `KeyError(stripped label)`, `KeyError("date")` or `KeyError("time")` for the first of these that is missing. On success, `PhotoTimeStamp` and `PhotoDateStamp` are the entry's `time` and `date`, and every other field is unchanged. The key list is the old one, followed by `PhotoTimeStamp` and then `PhotoDateStamp` for each that was not already a field, and the dict stays well-formed. |
| Integrate.JoinDictData | integrate.py:53-63 | The array after the loop and the outcome are exactly `ApplyRows` of the old rows under `JoinRow`. |
| Integrate.JoinedRows | integrate.py:54-63 | A join that completes keeps the length and order of the rows. Every row's stripped label is in the table. Each row carries its entry's time and date, and its other fields are unchanged. |
| Integrate.JoinStopsAtMissingLabel | integrate.py:54-58 | If the first failing row has a stripped label missing from the table, the join raises `KeyError` of that label. The earlier rows are joined, and that row and the later ones are unchanged. |
| Integrate.GetDictHeader | integrate.py:46-50 | Raises `IndexError` exactly when the dict is empty. Otherwise it returns the key list, in insertion order, of the entry whose key was inserted first; a name is in the header exactly when it is a field of that entry. |
| ConvertDateTime.ConvertAISDatetime | convertDateTime.py:8-16 | Succeeds exactly when characters 3–5 exist and are a key of `month_dict`, case-sensitively. The text is then `year-month-day hour:minute:second` built from the clamped slices `[7:11]`, the month digits, `[0:2]`, `[12:14]`, `[15:17]` and `[18:20]`, also on stamps shorter than 20 characters. Otherwise the error is `KeyError` of the clamped slice `[3:6]`. |
| ConvertDateTime.MonthDictDigits | convertDateTime.py:6 | Every value of `month_dict` is a two-character month from `01` to `12`. |
| ConvertDateTime.ConvertLayout | convertDateTime.py:6-16 | For a stamp of length ≥ 20 the output is 19 characters. Its fields are `[7:11]`, the month digits, `[:2]`, `[12:14]`, `[15:17]` and `[18:20]`, joined by `-`, `-`, space, `:` and `:`. The month field is one of `01`..`12`. |
| ConvertDateTime.ConvertIgnores | convertDateTime.py:9-16 | Characters 2, 6, 11, 14, 17 and from 20 on do not affect the output. |
| ConvertDateTime.ConvertExample | convertDateTime.py:8-16 | `01 May 2014 18:54:40.480 UTC` becomes `2014-05-01 18:54:40`. |
| ConvertDateTime.ConvertCaseSensitive | convertDateTime.py:6-11 | The stamps with `may` and `MAY` raise `KeyError("may")` and `KeyError("MAY")`. |
| AddVesselName.GetVesselName | addVesselName.py:10-13 | Succeeds exactly when the label has ≥ 15 characters and `label[13:15]` is one of the six codes. The name is the table's entry for that code, one of the six vessel names. Otherwise the error is `KeyError` of the clamped slice. |
| AddVesselName.VesselNameByCode | addVesselName.py:12 | Two labels with the same characters 13–14 get the same result. |
| AddVesselName.VesselCodeKeys | addVesselName.py:11 | The codes are exactly `MA SE SO EX NA UN`. Lower-case and mixed-case codes are not keys. |
| AddVesselName.VesselCodeNames | addVesselName.py:11 | The values are exactly the six vessel names, each belonging to one code. |
| AddVesselName.TagRow | addVesselName.py:12-21 | Fails exactly when `Photo_Label` is missing, raising `KeyError('Photo_Label')`, or its code is unknown, raising `KeyError` of the clamped slice `label[13:15]`. On success, `Vessel` is `getVesselName(Photo_Label)` of the unstripped label. Every other field is unchanged. The key list is the old one, with `Vessel` appended when it was not already a field, and the dict stays well-formed. |
| AddVesselName.TagStopsAtUnknownCode | addVesselName.py:11-21 | If the first failing row has a label with no known code at `[13:15]`, tagging raises `KeyError` of that slice. The earlier rows are tagged, and that row and the later ones are unchanged. |
| AddVesselName.TagVessels | addVesselName.py:20-21 | The array after the loop and the outcome are exactly `ApplyRows` of the old rows under `TagRow`. |
| AddVesselName.TaggedRows | addVesselName.py:20-21 | A tagging loop that completes keeps the row count and order. Every row gets the vessel name for its label's code, and its other fields are unchanged. |
| TimestampAgreement.DictMonthsKnown | convertDateTime.py:6 | Every key of `month_dict` is three characters long, has no space, and is accepted by `getMonthAsInt`. |
| TimestampAgreement.MonthCaseDiffers | convertDateTime.py:10-11 | `getMonthAsInt` maps `may` and `MAY` to 5, while neither is a key of `month_dict`. |
| TimestampAgreement.ReadersAgree | convertDateTime.py:8-16 | On a stamp laid out like `01 May 2014 18:54:40.480 UTC` (the template at integrate.py:105), with a month key of `month_dict` and a known zone, both readers succeed. `convertAISDatetime` gives `YYYY-MM-DD HH:MM:SS` from the same fields whose values `getAISDateTimeInfo` holds. The fraction is dropped by both, and the latter's minute is 0. |
| TimestampAgreement.ParsedStamp | integrate.py:107-120 | `getAISDateTimeInfo` of such a stamp is the record of the field values, with the truncated seconds and minute 0. |
| TimestampAgreement.ConvertedStamp | convertDateTime.py:9-16 | `convertAISDatetime` of such a stamp is `year-MM-day hour:minute:ss`, with the fraction and the zone dropped. |
| PyStr.Split | integrate.py:107 | `s.split(sep)` gives at least one part, and no part contains the separator. Joining the parts with the separator gives `s` back. |
| PyStr.SplitAfterField | integrate.py:107 | Splitting `a sep b`, where `a` has no separator, gives `[a]` followed by the split of `b`. |
| PyStr.SplitJoin | integrate.py:115 | Splitting the join of separator-free parts gives the parts back. |
| PyStr.RStrip | integrate.py:57 | `s.rstrip()` is a prefix of `s` that does not end in whitespace, and only whitespace follows it in `s`. |
| PyStr.RStripUnique | integrate.py:57 | These three properties determine the stripped string. |
| PyStr.RStripIdempotent | integrate.py:57 | Stripping twice is stripping once. |
| PyStr.Slice | convertDateTime.py:9-15 | Python's clamped `s[lo:hi]`: its length and its characters. |
| PyStr.ParseInt | integrate.py:109 | `int(s)` succeeds exactly on a non-empty ASCII digit string, with the decimal value of its digits. Otherwise it raises `ValueError(s)`. |
| PyStr.Lower | integrate.py:86 | `s.lower()` on ASCII letters: same length, each character unchanged or an upper-case ASCII letter moved to its lower-case letter, and no upper-case ASCII letter left. |
| PyStr.TruncateDecimal | integrate.py:118 | `int(float(s))` succeeds exactly when `s` splits on `.` into at most two digit strings that are not both empty. The value is that of the digits before the point; otherwise it raises `ValueError(s)`. |
| PyStr.TruncateDecimalWhole | integrate.py:118 | `int(float(w))` of a digit string is its value. |
| PyStr.TruncateDecimalFraction | integrate.py:118 | `int(float(w.f))` is the value of `w`: the fraction is truncated, not rounded. |
| PyDict.Dict.Get | integrate.py:58 | `d[k]` gives the entry exactly when `k` is a key. Otherwise it raises `KeyError(k)`. |
| PyDict.Dict.Set | integrate.py:61-62 | `d[k] = v` keeps the dict well-formed and makes `d[k]` equal `v`. Every other key is unchanged. An existing key keeps its place and the key list is unchanged; a new key is appended at the end. |
| PyResult.At | integrate.py:48 | `xs[i]` gives the `i`-th element exactly when `i` is below the length, and raises `IndexError` otherwise. |
| Rows.ApplyRows | integrate.py:54-62 | The rows after the loop are as many as before, and when the loop raises, the exception is the one some row's update raises. |
| Rows.FirstFailure | integrate.py:54-62 | The index of the first row whose update raises, or the length when none does. |
| Rows.ApplyRowsEffect | integrate.py:54-62 | The loop keeps the length. Rows before the first failure are updated and rows from it on are unchanged. It raises exactly the first failure's exception, or completes. |
| Rows.ApplyRowsCompletes | addVesselName.py:20-21 | The loop completes exactly when no row's update raises. |
| Rows.ApplyRowsStopsAt | integrate.py:54-62 | When rows before `k` succeed and row `k` raises, the loop stops at `k` with row `k`'s exception. |
| Rows.ApplyRowsStoppedAt | integrate.py:54-62 | A loop state where the rows before `i` are updated, the rest are untouched, and row `i` raises unless `i` is the end, equals `ApplyRows`. |

## Left out

- File, directory and EXIF I/O: `getCSVData`, `getPhotoData`, `recordDict`, `getAISData` and `main` in integrate.py, the script at convertDateTime.py:18-28, and `getData` and the CSV writing in addVesselName.py. They are plumbing around library calls.
- groomTime.py and addGPS.py, whose `getAISData` is an empty stub. Also left out is any nearest-in-time matching of photos to AIS reports, which no shown file implements.
- Integrate.GetAISDateTimeInfo: the `datetime` constructor's calendar and clock range checks (day within month, hour 0–23, second 0–59), UTC offsets and instant comparison are not modelled. The result is a plain record, so out-of-range fields that Python would reject are accepted.
- Integrate.Zone: the zone objects come from `date_and_time`, which is not part of this model. The tuple `tzs` is a parameter, and a zone is only its name and `stdname`.
- PyStr.ParseInt: Python's `int()` leniency is not modelled. That covers signs, surrounding whitespace, underscores and non-ASCII digits. Only ASCII digit strings are accepted.
- PyStr.TruncateDecimal: `float()` forms other than `digits[.digits]` are rejected. That covers signs, exponents, `inf`, `nan` and surrounding whitespace. Rounding of more than 15–17 significant digits is not modelled, nor the `OverflowError` that `int(float(s))` raises when the integer part has 309 or more digits (`float` gives `inf`); the model returns the digits' value there.
- PyStr.Lower: lower-cases ASCII letters only. Python's full Unicode lower-casing cannot change which of the twelve ASCII month keys a string matches, because the only non-ASCII character that lower-cases to ASCII letters only is the Kelvin sign (to `k`), and no month abbreviation contains a `k`. So `getMonthAsInt`'s success and value are the same. Its `KeyError` text can differ for non-ASCII input.
- Integrate.GetDictHeader: requires the dict's representation invariant, which every Python dict has. The statement about the header's contents is stated for a well-formed first entry.
- Integrate.JoinDictData: rows are values stored in an array. Aliasing between rows is not modelled, and neither is returning the same list object. The return value is the `Outcome`, and the updated array is the list. The unused `output_fp` parameter is dropped.
- AddVesselName.TagVessels: as above, rows are values in an array. `header = list(data[0].keys())` and the CSV writing that follow the loop are not modelled.
- The month-number agreement between `month_dict` and `getMonthAsInt` (that `May`'s `05` is the 5 `getMonthAsInt` returns) is not proved as a lemma over all twelve keys. `TimestampAgreement.ReadersAgree` states the two outputs in terms of each table's own entry.
