/** The Python string built-ins the modelled code relies on: `str.split` with a
    one-character separator, `str.lower`, `str.rstrip`, slicing, `int(s)` and
    `int(float(s))` on decimal digit strings. */
module PyStr {
  import opened PyResult

  // ---------------------------------------------------------------------------
  // split / join

  /** `sep.join(parts)` for a one-character separator. */
  function Join(parts: seq<string>, sep: char): string
  {
    if |parts| == 0 then ""
    else if |parts| == 1 then parts[0]
    else parts[0] + [sep] + Join(parts[1..], sep)
  }

  /** `s.split(sep)` for a one-character separator: every occurrence of `sep`
      separates two fields, so adjacent separators give an empty field and the
      empty string gives one empty field. */
  function Split(s: string, sep: char): (parts: seq<string>)
    ensures |parts| >= 1
    ensures forall i :: 0 <= i < |parts| ==> sep !in parts[i]
    ensures Join(parts, sep) == s
    decreases |s|
  {
    if |s| == 0 then [""]
    else
      var rest := Split(s[1..], sep);
      if s[0] == sep then
        assert ([""] + rest)[1..] == rest;
        assert s == [sep] + s[1..];
        [""] + rest
      else
        var parts := [[s[0]] + rest[0]] + rest[1..];
        assert parts[1..] == rest[1..];
        assert |rest| > 1 ==> Join(rest, sep) == rest[0] + [sep] + Join(rest[1..], sep);
        assert |rest| > 1 ==> Join(parts, sep) == [s[0]] + (rest[0] + [sep] + Join(rest[1..], sep));
        assert s == [s[0]] + s[1..];
        parts
  }

  /** A string without the separator splits into itself. */
  lemma {:induction false} SplitNoSeparator(a: string, sep: char)
    requires sep !in a
    ensures Split(a, sep) == [a]
    decreases |a|
  {
    if |a| > 0 {
      SplitNoSeparator(a[1..], sep);
      assert [a[0]] + a[1..] == a;
    }
  }

  /** The first field of `a + [sep] + b` is `a`, and the rest is the split of `b`. */
  lemma {:induction false} SplitAfterField(a: string, b: string, sep: char)
    requires sep !in a
    ensures Split(a + [sep] + b, sep) == [a] + Split(b, sep)
    decreases |a|
  {
    var s := a + [sep] + b;
    if |a| == 0 {
      assert s[1..] == b;
    } else {
      assert s[1..] == a[1..] + [sep] + b;
      SplitAfterField(a[1..], b, sep);
      assert [a[0]] + a[1..] == a;
    }
  }

  /** Split undoes Join for any non-empty list of separator-free fields; with the
      ensures of Split this makes the two mutually inverse. */
  lemma {:induction false} SplitJoin(parts: seq<string>, sep: char)
    requires |parts| >= 1
    requires forall i :: 0 <= i < |parts| ==> sep !in parts[i]
    ensures Split(Join(parts, sep), sep) == parts
    decreases |parts|
  {
    if |parts| == 1 {
      SplitNoSeparator(parts[0], sep);
    } else {
      SplitJoin(parts[1..], sep);
      SplitAfterField(parts[0], Join(parts[1..], sep), sep);
      assert [parts[0]] + parts[1..] == parts;
    }
  }

  // ---------------------------------------------------------------------------
  // lower

  /** Lower-cases an ASCII capital letter and leaves every other character alone. */
  function LowerChar(c: char): char
  {
    if 'A' <= c <= 'Z' then (c as int + 32) as char else c
  }

  /** `s.lower()` on the ASCII letters. */
  function Lower(s: string): (r: string)
    ensures |r| == |s|
    ensures forall i :: 0 <= i < |s| ==> r[i] == s[i] || ('A' <= s[i] <= 'Z' && r[i] as int == s[i] as int + 32)
    ensures forall i :: 0 <= i < |r| ==> !('A' <= r[i] <= 'Z')
  {
    seq(|s|, i requires 0 <= i < |s| => LowerChar(s[i]))
  }

  /** Lower-casing twice is lower-casing once. */
  lemma LowerIdempotent(s: string)
    ensures Lower(Lower(s)) == Lower(s)
  {
  }

  // ---------------------------------------------------------------------------
  // rstrip

  /** The characters for which Python's `str.isspace()` holds, by code point. */
  predicate IsSpace(c: char)
  {
    var n := c as int;
    || 0x09 <= n <= 0x0D
    || 0x1C <= n <= 0x20
    || n == 0x85 || n == 0xA0 || n == 0x1680
    || 0x2000 <= n <= 0x200A
    || n == 0x2028 || n == 0x2029 || n == 0x202F || n == 0x205F || n == 0x3000
  }

  /** `s.rstrip()`: the longest prefix of `s` that does not end in whitespace. */
  function RStrip(s: string): (r: string)
    ensures r <= s
    ensures r == [] || !IsSpace(r[|r| - 1])
    ensures forall i :: |r| <= i < |s| ==> IsSpace(s[i])
    decreases |s|
  {
    if |s| > 0 && IsSpace(s[|s| - 1]) then RStrip(s[..|s| - 1]) else s
  }

  /** Stripping never goes past a point after which there is only whitespace. */
  lemma {:induction false} RStripWithin(s: string, t: string)
    requires t <= s
    requires forall i :: |t| <= i < |s| ==> IsSpace(s[i])
    ensures RStrip(s) <= t
    decreases |s|
  {
    if |s| > |t| {
      assert IsSpace(s[|s| - 1]);
      RStripWithin(s[..|s| - 1], t);
    } else {
      assert s == t;
    }
  }

  /** Stripping never removes a prefix that ends in a non-whitespace character. */
  lemma {:induction false} RStripKeeps(s: string, t: string)
    requires t <= s
    requires t == [] || !IsSpace(t[|t| - 1])
    ensures t <= RStrip(s)
    decreases |s|
  {
    if |s| > |t| && IsSpace(s[|s| - 1]) {
      RStripKeeps(s[..|s| - 1], t);
    }
  }

  /** The three properties in the contract of RStrip determine its result. */
  lemma RStripUnique(s: string, t: string)
    requires t <= s
    requires t == [] || !IsSpace(t[|t| - 1])
    requires forall i :: |t| <= i < |s| ==> IsSpace(s[i])
    ensures t == RStrip(s)
  {
    RStripWithin(s, t);
    RStripKeeps(s, t);
  }

  /** Stripping twice is stripping once. */
  lemma RStripIdempotent(s: string)
    ensures RStrip(RStrip(s)) == RStrip(s)
  {
    var r := RStrip(s);
    RStripUnique(r, r);
  }

  // ---------------------------------------------------------------------------
  // slicing

  function Min(a: int, b: int): int
  {
    if a <= b then a else b
  }

  /** Python's `s[lo:hi]` for non-negative bounds: both bounds are clamped to
      the length, and an empty slice results when `lo` is not below `hi`. */
  function Slice(s: string, lo: nat, hi: nat): (r: string)
    ensures |r| == if lo <= hi && lo <= |s| then Min(hi, |s|) - lo else 0
    ensures forall i :: 0 <= i < |r| ==> r[i] == s[lo + i]
  {
    var a := Min(lo, |s|);
    var b := Min(hi, |s|);
    if a <= b then s[a..b] else ""
  }

  // ---------------------------------------------------------------------------
  // int() and int(float()) on decimal digit strings

  predicate IsDigit(c: char)
  {
    '0' <= c <= '9'
  }

  predicate AllDigits(s: string)
  {
    forall i :: 0 <= i < |s| ==> IsDigit(s[i])
  }

  /** A digit string contains no separator character. */
  lemma DigitsExclude(s: string, c: char)
    requires AllDigits(s) && !IsDigit(c)
    ensures c !in s
  {
  }

  /** The value of a string of decimal digits (0 for the empty string). */
  function DigitsValue(s: string): nat
    requires AllDigits(s)
    decreases |s|
  {
    if |s| == 0 then 0
    else 10 * DigitsValue(s[..|s| - 1]) + (s[|s| - 1] as int - '0' as int)
  }

  /** Python's `int(s)` on a string of ASCII decimal digits; anything else raises
      ValueError. */
  function ParseInt(s: string): (r: Result<nat>)
    ensures r.Ok? <==> |s| > 0 && AllDigits(s)
    ensures r.Ok? ==> r.value == DigitsValue(s)
    ensures r.Err? ==> r.error == ValueError(s)
  {
    if |s| > 0 && AllDigits(s) then Ok(DigitsValue(s)) else Err(ValueError(s))
  }

  /** Python's `int(float(s))` on a non-negative decimal: `digits`, `digits.`,
      `.digits` or `digits.digits`. The conversion truncates: the result is the
      value of the digits before the point. */
  function TruncateDecimal(s: string): (r: Result<nat>)
    ensures r.Ok? <==>
              var parts := Split(s, '.');
              && |parts| <= 2
              && (forall i :: 0 <= i < |parts| ==> AllDigits(parts[i]))
              && |s| >= |parts|
    ensures r.Ok? ==> AllDigits(Split(s, '.')[0]) && r.value == DigitsValue(Split(s, '.')[0])
    ensures r.Err? ==> r.error == ValueError(s)
  {
    var parts := Split(s, '.');
    if |parts| == 1 && |s| > 0 && AllDigits(s) then Ok(DigitsValue(s))
    else if |parts| == 2 && AllDigits(parts[0]) && AllDigits(parts[1]) && |parts[0]| + |parts[1]| > 0 then
      Ok(DigitsValue(parts[0]))
    else Err(ValueError(s))
  }

  /** A whole number converts to its own value. */
  lemma TruncateDecimalWhole(w: string)
    requires |w| > 0 && AllDigits(w)
    ensures TruncateDecimal(w) == Ok(DigitsValue(w))
  {
    SplitNoSeparator(w, '.');
  }

  /** The fractional digits are dropped, not rounded. */
  lemma TruncateDecimalFraction(w: string, f: string)
    requires AllDigits(w) && AllDigits(f) && |w| + |f| > 0
    ensures TruncateDecimal(w + "." + f) == Ok(DigitsValue(w))
  {
    SplitJoin([w, f], '.');
    assert Join([w, f], '.') == w + "." + f;
  }
}
