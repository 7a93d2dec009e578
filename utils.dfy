/** `src/utils.py`: the timestamp in a video's file name, seconds since
    midnight, and the one-match rule for locating a file.

    The regular expression `(\d{4}-\d{2}-\d{2})[_\s](\d{2}-\d{2}-\d{2})` has a
    fixed length of 19 characters, so `re.search` is the leftmost position
    where all 19 characters fit their places. `datetime.strptime` with
    `%Y-%m-%d %H-%M-%S` then accepts the matched digits exactly when they
    form a valid Gregorian date and time of day. */
module Utils {
  import opened Common

  datatype DateTime = DateTime(year: int, month: int, day: int, hour: int, minute: int, second: int, microsecond: int)

  // ---------------------------------------------------------------------
  // Characters of the pattern

  /** `\d`, restricted to the ASCII digits. */
  predicate IsDigit(c: char)
  {
    '0' <= c <= '9'
  }

  /** `\s` for a `str` pattern: the characters Python treats as white
      space. */
  predicate IsSpace(c: char)
  {
    || c == ' ' || ('\t' <= c <= '\r') || ('\U{1c}' <= c <= '\U{1f}') || c == '\U{85}' || c == '\U{a0}'
    || c == '\U{1680}' || ('\U{2000}' <= c <= '\U{200a}') || c == '\U{2028}' || c == '\U{2029}'
    || c == '\U{202f}' || c == '\U{205f}' || c == '\U{3000}'
  }

  /** `[_\s]`: the separator between the date and the time. */
  predicate IsSeparator(c: char)
  {
    c == '_' || IsSpace(c)
  }

  /** The fixed length of a match. */
  const PatternLength: nat := 19

  /** Offsets 4, 7, 13 and 16 hold a dash and offset 10 the separator; all
      other offsets hold a digit. */
  predicate FitsAt(c: char, offset: nat)
  {
    if offset == 4 || offset == 7 || offset == 13 || offset == 16 then c == '-'
    else if offset == 10 then IsSeparator(c)
    else IsDigit(c)
  }

  /** The 19 characters fit the pattern, each in its place. */
  predicate FitsPattern(w: string)
  {
    |w| == PatternLength && forall p :: 0 <= p < |w| ==> FitsAt(w[p], p)
  }

  /** The pattern matches `s` starting at index i. */
  predicate MatchesAt(s: string, i: nat)
  {
    i + PatternLength <= |s| && FitsPattern(s[i..i + PatternLength])
  }

  /** `re.search` from index i on: the leftmost match position. */
  function LeftmostMatch(s: string, i: nat): (r: Option<nat>)
    ensures r.Some? ==> i <= r.value && MatchesAt(s, r.value)
    ensures r.Some? ==> forall j :: i <= j < r.value ==> !MatchesAt(s, j)
    ensures r.None? ==> forall j :: i <= j ==> !MatchesAt(s, j)
    decreases |s| - i
  {
    if i + PatternLength > |s| then None
    else if MatchesAt(s, i) then Some(i)
    else LeftmostMatch(s, i + 1)
  }

  // ---------------------------------------------------------------------
  // Numbers and calendar

  /** The decimal value of a string of digits. */
  function Number(ds: string): (v: nat)
    requires forall k :: 0 <= k < |ds| ==> IsDigit(ds[k])
  {
    if |ds| == 0 then 0
    else Number(ds[..|ds| - 1]) * 10 + DigitValue(ds[|ds| - 1])
  }

  function DigitValue(c: char): (v: nat)
    requires IsDigit(c)
    ensures v < 10
  {
    c as int - '0' as int
  }

  /** Two digits have a value below 100, four digits below 10000. */
  lemma {:induction false} NumberBound(ds: string)
    requires forall k :: 0 <= k < |ds| ==> IsDigit(ds[k])
    ensures |ds| == 2 ==> Number(ds) < 100
    ensures |ds| == 4 ==> Number(ds) < 10000
    ensures |ds| <= 4
      ==> Number(ds) < (if |ds| == 0 then 1 else if |ds| == 1 then 10 else if |ds| == 2 then 100 else if |ds| == 3 then 1000 else 10000)
  {
    if |ds| > 0 {
      NumberBound(ds[..|ds| - 1]);
    }
  }

  lemma TwoDigits(ds: string)
    requires |ds| == 2 && IsDigit(ds[0]) && IsDigit(ds[1])
    ensures Number(ds) == 10 * DigitValue(ds[0]) + DigitValue(ds[1])
  {
    var init := ds[..1];
    assert init[..0] == [] && init[0] == ds[0];
    assert Number(init) == DigitValue(ds[0]);
  }

  lemma FourDigits(ds: string)
    requires |ds| == 4 && forall k :: 0 <= k < 4 ==> IsDigit(ds[k])
    ensures Number(ds) == 1000 * DigitValue(ds[0]) + 100 * DigitValue(ds[1]) + 10 * DigitValue(ds[2]) + DigitValue(ds[3])
  {
    assert ds[..3][..2] == ds[..2];
    TwoDigits(ds[..2]);
  }

  predicate IsLeapYear(y: int)
  {
    y % 4 == 0 && (y % 100 != 0 || y % 400 == 0)
  }

  function DaysInMonth(y: int, m: int): (d: int)
    requires 1 <= m <= 12
    ensures 28 <= d <= 31
    ensures m == 2 ==> (d == 29 <==> IsLeapYear(y))
    ensures m == 2 ==> d == (if IsLeapYear(y) then 29 else 28)
    ensures m != 2 ==> (d == 30 <==> m == 4 || m == 6 || m == 9 || m == 11)
    ensures m != 2 ==> d >= 30
  {
    if m == 2 then (if IsLeapYear(y) then 29 else 28)
    else if m == 4 || m == 6 || m == 9 || m == 11 then 30
    else 31
  }

  /** The twelve month lengths add up to the Gregorian year: 366 days in a
      leap year, 365 otherwise. */
  lemma YearLength(y: int)
    ensures DaysInMonth(y, 1) + DaysInMonth(y, 2) + DaysInMonth(y, 3) + DaysInMonth(y, 4)
          + DaysInMonth(y, 5) + DaysInMonth(y, 6) + DaysInMonth(y, 7) + DaysInMonth(y, 8)
          + DaysInMonth(y, 9) + DaysInMonth(y, 10) + DaysInMonth(y, 11) + DaysInMonth(y, 12)
          == if IsLeapYear(y) then 366 else 365
  {
  }

  /** What `datetime` accepts: year 1 to 9999, a real day of the month, and
      a time of day. */
  predicate ValidDateTime(t: DateTime)
  {
    && 1 <= t.year <= 9999
    && 1 <= t.month <= 12
    && 1 <= t.day <= DaysInMonth(t.year, t.month)
    && ValidTime(t)
  }

  predicate ValidTime(t: DateTime)
  {
    0 <= t.hour < 24 && 0 <= t.minute < 60 && 0 <= t.second < 60 && 0 <= t.microsecond < 1000000
  }

  /** The six digit fields of a match, joined as `"{date} {time}"` and
      read by the format `%Y-%m-%d %H-%M-%S`: each field is the decimal
      value of its own digits, in the order year, month, day, hour, minute,
      second. */
  function Fields(w: string): (t: DateTime)
    requires FitsPattern(w)
    ensures t.microsecond == 0
    ensures 0 <= t.year < 10000
    ensures 0 <= t.month < 100 && 0 <= t.day < 100 && 0 <= t.hour < 100 && 0 <= t.minute < 100 && 0 <= t.second < 100
    ensures t.year == 1000 * DigitValue(w[0]) + 100 * DigitValue(w[1]) + 10 * DigitValue(w[2]) + DigitValue(w[3])
    ensures t.month == 10 * DigitValue(w[5]) + DigitValue(w[6])
    ensures t.day == 10 * DigitValue(w[8]) + DigitValue(w[9])
    ensures t.hour == 10 * DigitValue(w[11]) + DigitValue(w[12])
    ensures t.minute == 10 * DigitValue(w[14]) + DigitValue(w[15])
    ensures t.second == 10 * DigitValue(w[17]) + DigitValue(w[18])
  {
    var year, month, day := w[0..4], w[5..7], w[8..10];
    var hour, minute, second := w[11..13], w[14..16], w[17..19];
    assert forall k :: 0 <= k < 4 ==> year[k] == w[k];
    assert forall k :: 0 <= k < 2 ==> month[k] == w[5 + k] && day[k] == w[8 + k];
    assert forall k :: 0 <= k < 2 ==> hour[k] == w[11 + k] && minute[k] == w[14 + k] && second[k] == w[17 + k];
    NumberBound(year);
    NumberBound(month);
    NumberBound(day);
    NumberBound(hour);
    NumberBound(minute);
    NumberBound(second);
    FourDigits(year);
    TwoDigits(month);
    TwoDigits(day);
    TwoDigits(hour);
    TwoDigits(minute);
    TwoDigits(second);
    DateTime(Number(year), Number(month), Number(day), Number(hour), Number(minute), Number(second), 0)
  }

  function FieldsAt(s: string, i: nat): (t: DateTime)
    requires MatchesAt(s, i)
  {
    Fields(s[i..i + PatternLength])
  }

  /** `extract_aest_from_filename`: None when nothing matches; otherwise the
      leftmost match is parsed, and a calendar value `datetime` refuses
      raises ValueError (a later match is not tried). */
  function ExtractAestFromFilename(name: string): (r: Result<Option<DateTime>, Error>)
    ensures r == Ok(None) <==> forall j :: !MatchesAt(name, j)
    ensures r.Ok? && r.value.Some? ==> ValidDateTime(r.value.value) && r.value.value.microsecond == 0
    ensures r.Err? ==> r.error == ValueError
  {
    match LeftmostMatch(name, 0)
    case None => Ok(None)
    case Some(i) =>
      var t := FieldsAt(name, i);
      if ValidDateTime(t) then Ok(Some(t)) else Err(ValueError)
  }

  /** With a match, the outcome is decided by the leftmost one alone. */
  lemma LeftmostDecides(name: string, i: nat)
    requires MatchesAt(name, i) && forall j :: 0 <= j < i ==> !MatchesAt(name, j)
    ensures ExtractAestFromFilename(name)
      == (if ValidDateTime(FieldsAt(name, i)) then Ok(Some(FieldsAt(name, i))) else Err(ValueError))
  {
    var r := LeftmostMatch(name, 0);
    assert r.Some? && r.value == i;
  }

  /** Whether the date and time were separated by `_` or by white space
      makes no difference: every match, and every field, is the same. */
  lemma SeparatorIrrelevant(s: string, p: nat, c1: char, c2: char)
    requires p < |s| && IsSeparator(c1) && IsSeparator(c2)
    ensures ExtractAestFromFilename(s[p := c1]) == ExtractAestFromFilename(s[p := c2])
  {
    var s1, s2 := s[p := c1], s[p := c2];
    assert DifferOnlyBySeparatorAt(s1, s2, p);
    forall j: nat ensures MatchesAt(s1, j) == MatchesAt(s2, j) {
      SameMatch(s1, s2, p, j);
    }
    var r1 := LeftmostMatch(s1, 0);
    if r1.Some? {
      LeftmostDecides(s2, r1.value);
      SameFields(s1, s2, p, r1.value);
    }
  }

  /** Two strings that differ at most at p, where both hold a separator. */
  predicate DifferOnlyBySeparatorAt(s1: string, s2: string, p: nat)
  {
    |s1| == |s2| && p < |s1| && IsSeparator(s1[p]) && IsSeparator(s2[p])
    && forall k :: 0 <= k < |s1| && k != p ==> s1[k] == s2[k]
  }

  /** A separator fits only the separator's place. */
  lemma SeparatorPlace(c: char, q: nat)
    requires IsSeparator(c) && FitsAt(c, q)
    ensures q == 10
  {
  }

  lemma SameMatch(s1: string, s2: string, p: nat, j: nat)
    requires DifferOnlyBySeparatorAt(s1, s2, p)
    ensures MatchesAt(s1, j) == MatchesAt(s2, j)
  {
    if j + PatternLength <= |s1| {
      var w1, w2 := s1[j..j + PatternLength], s2[j..j + PatternLength];
      forall q | 0 <= q < PatternLength
        ensures FitsAt(w1[q], q) == FitsAt(w2[q], q)
      {
        if j + q == p {
          if FitsAt(w1[q], q) {
            SeparatorPlace(s1[p], q);
          }
          if FitsAt(w2[q], q) {
            SeparatorPlace(s2[p], q);
          }
        } else {
          assert w1[q] == s1[j + q] == s2[j + q] == w2[q];
        }
      }
    }
  }

  lemma SameFields(s1: string, s2: string, p: nat, i: nat)
    requires DifferOnlyBySeparatorAt(s1, s2, p)
    requires MatchesAt(s1, i) && MatchesAt(s2, i)
    ensures FieldsAt(s1, i) == FieldsAt(s2, i)
  {
    var w1, w2 := s1[i..i + PatternLength], s2[i..i + PatternLength];
    if i <= p < i + PatternLength {
      assert w1[p - i] == s1[p];
      SeparatorPlace(s1[p], p - i);
    }
    assert forall q :: 0 <= q < PatternLength && q != 10 ==> w1[q] == w2[q];
    assert w1[0..4] == w2[0..4];
    assert w1[5..7] == w2[5..7];
    assert w1[8..10] == w2[8..10];
    assert w1[11..13] == w2[11..13];
    assert w1[14..16] == w2[14..16];
    assert w1[17..19] == w2[17..19];
  }

  /** A match at the very start of the name. */
  lemma ExtractAtStart(name: string)
    requires MatchesAt(name, 0)
    ensures ExtractAestFromFilename(name)
      == (if ValidDateTime(FieldsAt(name, 0)) then Ok(Some(FieldsAt(name, 0))) else Err(ValueError))
  {
    LeftmostDecides(name, 0);
  }

  /** A well-formed name is read field by field. */
  lemma ExtractWellFormedName()
    ensures ExtractAestFromFilename("2024-03-05_07-08-09.mp4") == Ok(Some(DateTime(2024, 3, 5, 7, 8, 9, 0)))
  {
    var a := "2024-03-05_07-08-09.mp4";
    var w := a[0..19];
    assert w == "2024-03-05_07-08-09";
    assert FitsPattern(w);
    assert Fields(w) == DateTime(2024, 3, 5, 7, 8, 9, 0) by {
      assert w[0..4] == "2024" && w[5..7] == "03" && w[8..10] == "05";
      assert w[11..13] == "07" && w[14..16] == "08" && w[17..19] == "09";
      FourDigits("2024");
      TwoDigits("03");
      TwoDigits("05");
      TwoDigits("07");
      TwoDigits("08");
      TwoDigits("09");
    }
    ExtractAtStart(a);
  }

  /** February 30th raises ValueError. */
  lemma ExtractFebruaryThirtieth()
    ensures ExtractAestFromFilename("2024-02-30 10-00-00") == Err(ValueError)
  {
    var b := "2024-02-30 10-00-00";
    assert b[0..19] == b;
    assert FitsPattern(b);
    assert Fields(b).month == 2 && Fields(b).day == 30 by {
      assert b[5..7] == "02" && b[8..10] == "30";
      TwoDigits("02");
      TwoDigits("30");
    }
    ExtractAtStart(b);
  }

  /** An invalid month in the leftmost match raises, although a valid
      timestamp follows later in the name. */
  lemma ExtractLeftmostOnly()
    ensures ExtractAestFromFilename("2024-13-01_00-00-00 2024-01-01_00-00-00") == Err(ValueError)
  {
    var c := "2024-13-01_00-00-00 2024-01-01_00-00-00";
    var w := c[0..19];
    assert w == "2024-13-01_00-00-00";
    assert FitsPattern(w);
    assert Fields(w).month == 13 by {
      assert w[5..7] == "13";
      TwoDigits("13");
    }
    ExtractAtStart(c);
  }

  /** Leap years follow the Gregorian rule. */
  lemma LeapDayExamples()
    ensures ValidDateTime(DateTime(2000, 2, 29, 0, 0, 0, 0)) && ValidDateTime(DateTime(2024, 2, 29, 0, 0, 0, 0))
    ensures !ValidDateTime(DateTime(1900, 2, 29, 0, 0, 0, 0)) && !ValidDateTime(DateTime(2023, 2, 29, 0, 0, 0, 0))
  {
  }

  // ---------------------------------------------------------------------
  // Seconds since midnight

  function SecondsOfDay(t: DateTime): int
  {
    t.hour * 3600 + t.minute * 60 + t.second
  }

  /** `(utc_time - midnight)` in microseconds. */
  function MicrosOfDay(t: DateTime): int
  {
    SecondsOfDay(t) * 1000000 + t.microsecond
  }

  /** `round(seconds, 1)` in tenths of a second: the nearest tenth, an exact
      half going to the even tenth. */
  function DecimalTenths(t: DateTime): (n: int)
    requires ValidTime(t)
    ensures 0 <= n <= 864000
    ensures 2 * Abs(n * 100000 - MicrosOfDay(t)) <= 100000
    ensures t.microsecond == 0 ==> n == 10 * SecondsOfDay(t)
  {
    var n := RoundHalfEven(MicrosOfDay(t), 100000);
    if t.microsecond == 0 then
      assert MicrosOfDay(t) == (10 * SecondsOfDay(t)) * 100000;
      RoundHalfEvenUnique(MicrosOfDay(t), 100000, 10 * SecondsOfDay(t));
      n
    else n
  }

  /** `utc_to_decimal`: seconds since midnight to a tenth; never negative,
      at most 86400 (reached in the last twentieth of a second of the
      day), and exactly `h*3600 + m*60 + s` on a whole second. */
  function UtcToDecimal(t: DateTime): (r: real)
    requires ValidTime(t)
    ensures 0.0 <= r <= 86400.0
    ensures t.microsecond == 0 ==> r == SecondsOfDay(t) as real
  {
    DecimalTenths(t) as real / 10.0
  }

  /** The date plays no part. */
  lemma TimeOfDayOnly(t1: DateTime, t2: DateTime)
    requires ValidTime(t1) && ValidTime(t2)
    requires t1.hour == t2.hour && t1.minute == t2.minute && t1.second == t2.second && t1.microsecond == t2.microsecond
    ensures UtcToDecimal(t1) == UtcToDecimal(t2)
  {
  }

  /** The last instant of the day rounds up to 86400.0. The half-tenth
      cases show the model's exact half-to-even rounding: for 12:00:00.05
      the program rounds a float64 value just above the half and gets
      43200.1. */
  lemma UtcToDecimalExamples()
    ensures UtcToDecimal(DateTime(2024, 1, 1, 23, 59, 59, 999999)) == 86400.0
    ensures UtcToDecimal(DateTime(2024, 1, 1, 12, 0, 0, 50000)) == 43200.0
    ensures UtcToDecimal(DateTime(2024, 1, 1, 12, 0, 0, 150000)) == 43200.2
  {
    RoundHalfEvenUnique(86399999999, 100000, 864000);
    RoundHalfEvenUnique(43200050000, 100000, 432000);
    RoundHalfEvenUnique(43200150000, 100000, 432002);
  }

  // ---------------------------------------------------------------------
  // Locating a file

  /** `find_file` once the recursive glob has listed the matches. */
  function FindFile(matches: seq<string>): (r: Result<string, Error>)
    ensures r.Ok? <==> |matches| == 1
    ensures r.Ok? ==> matches == [r.value]
    ensures |matches| == 0 ==> r == Err(FileNotFoundError)
    ensures |matches| > 1 ==> r == Err(RuntimeError)
  {
    if |matches| == 0 then Err(FileNotFoundError)
    else if |matches| > 1 then Err(RuntimeError)
    else Ok(matches[0])
  }
}
