/**
 What `parse_asn1_time` reads and counts, pinned to the text and to the Gregorian calendar without the functions of
 module Asn1Time that cut, read or count.
 */
module CalendarFacts {
  import opened Asn1Time
  import opened Bytes

  // ---------- the text ----------

  /** The number that decimal digits denote, the last digit having weight one. */
  predicate Denotes(digits: bytes, n: int) {
    if digits == [] then n == 0
    else
      var last := digits[|digits| - 1];
      '0' as int <= last <= '9' as int && n >= 0 && n % 10 == last - '0' as int &&
      Denotes(digits[..|digits| - 1], n / 10)
  }

  /** At least one digit, with at most one plus sign in front. */
  predicate Numeral(s: bytes, n: int) {
    (s != [] && Denotes(s, n)) || (|s| > 1 && s[0] == '+' as int && Denotes(s[1..], n))
  }

  /** The number the text denotes, or the default. */
  ghost predicate Reads(s: bytes, otherwise: int, n: int) {
    if exists m :: Numeral(s, m) then Numeral(s, n) else n == otherwise
  }

  lemma {:induction false} DecimalPositive(s: bytes)
    requires AllDigits(s)
    ensures Decimal(s) >= 0
  {
    if s != [] {
      DecimalPositive(s[..|s| - 1]);
    }
  }

  lemma {:induction false} DenotesIs(s: bytes, n: int)
    ensures Denotes(s, n) <==> AllDigits(s) && n == Decimal(s)
  {
    if s != [] {
      var t, last := s[..|s| - 1], s[|s| - 1];
      DenotesIs(t, n / 10);
      assert s == t + [last];
      if Denotes(s, n) {
        assert forall i :: 0 <= i < |s| ==> s[i] == if i < |t| then t[i] else last;
        assert n == n / 10 * 10 + n % 10;
      }
      if AllDigits(s) {
        assert forall i :: 0 <= i < |t| ==> t[i] == s[i];
        DecimalPositive(t);
      }
    }
  }

  lemma NumeralIs(s: bytes, n: int)
    ensures Numeral(s, n) <==> ParseNumber(s) == Some(n)
  {
    hide Denotes, Decimal, AllDigits;
    DenotesIs(s, n);
    if |s| > 1 {
      DenotesIs(s[1..], n);
      PlusIsNoDigit(s);
    }
  }

  lemma PlusIsNoDigit(s: bytes)
    requires s != []
    ensures s[0] == 43 ==> !AllDigits(s)
  {
  }

  lemma ReadsIs(s: bytes, otherwise: int, n: int)
    ensures Reads(s, otherwise, n) <==> n == Field(s, otherwise)
  {
    hide Numeral, ParseNumber;
    forall m
      ensures Numeral(s, m) <==> ParseNumber(s) == Some(m)
    {
      NumeralIs(s, m);
    }
  }

  /** Octets 0 to 11 of a UTCTime: year of century, month, day, hour, minute and second, two octets each. */
  lemma UtcFields(s: bytes, c: Civil, y2: int)
    requires |s| >= 12 && Reads(s[0..2], 0, y2)
    ensures Fields(0x17, s) == c
       <==> c.year == (if y2 < 50 then 2000 + y2 else 1900 + y2) &&
            Reads(s[2..4], 1, c.month) && Reads(s[4..6], 1, c.day) && Reads(s[6..8], 0, c.hour) &&
            Reads(s[8..10], 0, c.minute) && Reads(s[10..12], 0, c.second)
  {
    hide Reads, Field;
    ReadsIs(s[0..2], 0, y2);
    assert s[..2] == s[0..2];
    ReadsIs(s[2..4], 1, c.month);
    ReadsIs(s[4..6], 1, c.day);
    ReadsIs(s[6..8], 0, c.hour);
    ReadsIs(s[8..10], 0, c.minute);
    ReadsIs(s[10..12], 0, c.second);
  }

  /** Octets 0 to 13 of a GeneralizedTime: four for the year, then two each. */
  lemma GeneralizedFields(s: bytes, c: Civil)
    requires |s| >= 14
    ensures Fields(0x18, s) == c
       <==> Reads(s[0..4], 1970, c.year) && Reads(s[4..6], 1, c.month) && Reads(s[6..8], 1, c.day) &&
            Reads(s[8..10], 0, c.hour) && Reads(s[10..12], 0, c.minute) && Reads(s[12..14], 0, c.second)
  {
    hide Reads, Field;
    assert s[..4] == s[0..4];
    ReadsIs(s[0..4], 1970, c.year);
    ReadsIs(s[4..6], 1, c.month);
    ReadsIs(s[6..8], 1, c.day);
    ReadsIs(s[8..10], 0, c.hour);
    ReadsIs(s[10..12], 0, c.minute);
    ReadsIs(s[12..14], 0, c.second);
  }

  // ---------- the calendar ----------

  /** Month lengths and the leap rule of the Gregorian calendar. */
  lemma Months(y: int, m: int)
    requires 1 <= m <= 12
    ensures DaysIn(y, m) == if m == 2 && y % 4 == 0 && (y % 100 == 0 ==> y % 400 == 0) then 29
                            else [31, 28, 31, 30, 31, 30, 31, 31, 30, 31, 30, 31][m - 1]
  {
  }

  /** Four hundred years are 146097 days, whatever the date. */
  lemma Cycle(c: Civil)
    requires Valid(c)
    ensures Valid(c.(year := c.year + 400))
    ensures UnixSeconds(c.(year := c.year + 400)) == UnixSeconds(c) + 146097 * 86400
  {
    var y := c.year;
    LeapCycle(y);
    assert (y - 1 + 400) / 4 == (y - 1) / 4 + 100 && (y - 1 + 400) / 100 == (y - 1) / 100 + 4 &&
           (y - 1 + 400) / 400 == (y - 1) / 400 + 1;
    SameMonths(y, c.month);
  }

  lemma LeapCycle(y: int)
    ensures Leap(y + 400) == Leap(y)
  {
    SameRemainder(y, 4, 100);
    SameRemainder(y, 100, 4);
    SameRemainder(y, 400, 1);
  }

  lemma SameRemainder(y: int, m: int, k: int)
    requires m > 0
    ensures (y + m * k) % m == y % m
  {
    ModUnique(y + m * k, m, y / m + k, y % m);
  }

  lemma SameMonths(y: int, m: int)
    requires 1 <= m <= 12
    ensures DaysBeforeMonth(y + 400, m) == DaysBeforeMonth(y, m) && DaysIn(y + 400, m) == DaysIn(y, m)
  {
    LeapCycle(y);
  }

  /** 1 January of the years of known instants, in days since the epoch. */
  lemma KnownYears()
    ensures DaysBeforeYear(1970) == 0 && DaysBeforeYear(2000) == 10957 && DaysBeforeYear(2038) == 24837
    ensures DaysBeforeYear(2100) == 47482
  {
  }

  /** Off the calendar too the count is a date's: days, hours, minutes and seconds add up from the month's start. */
  lemma CountedAnyway(c: Civil)
    requires c.month <= 13 && c.year >= 0
    ensures var m := if c.month < 1 then 1 else c.month;
            var start := if m == 13 then Civil(c.year + 1, 1, 1, 0, 0, 0) else Civil(c.year, m, 1, 0, 0, 0);
            var origin := if c.year < 1970 then Civil(c.year, 1, 1, 0, 0, 0) else Civil(1970, 1, 1, 0, 0, 0);
            Counted(c) == UnixSeconds(start) - UnixSeconds(origin) +
                          (c.day - 1) * 86400 + c.hour * 3600 + c.minute * 60 + c.second
  {
    hide DaysBeforeYear, DaysBeforeMonth, UnixSeconds;
    var m := if c.month < 1 then 1 else c.month;
    YearStep(c.year);
    EpochYear();
    StartOf(c.year, 1);
    StartOf(c.year + 1, 1);
    StartOf(1970, 1);
    FirstMonth(c.year);
    FirstMonth(c.year + 1);
    FirstMonth(1970);
    if m < 13 {
      StartOf(c.year, m);
    }
  }

  lemma StartOf(y: int, m: int)
    requires y >= 0 && 1 <= m <= 12
    ensures Valid(Civil(y, m, 1, 0, 0, 0))
    ensures UnixSeconds(Civil(y, m, 1, 0, 0, 0)) == (DaysBeforeYear(y) + DaysBeforeMonth(y, m)) * 86400
  {
    hide DaysBeforeYear, DaysBeforeMonth;
  }
}
