/** ASN.1 times to Unix seconds (`parse_asn1_time` of src/crypto_parsing.rs) against the Gregorian calendar. */
module Asn1Time {
  import opened Bytes

  // ---------- the calendar ----------

  datatype Civil = Civil(year: int, month: int, day: int, hour: int, minute: int, second: int)

  predicate Leap(y: int) {
    (y % 4 == 0 && y % 100 != 0) || y % 400 == 0
  }

  function DaysIn(y: int, m: int): int {
    if m == 2 then (if Leap(y) then 29 else 28)
    else if m == 4 || m == 6 || m == 9 || m == 11 then 30
    else 31
  }

  /** A date and time of the proleptic Gregorian calendar, from year 0 on. */
  predicate Valid(c: Civil) {
    0 <= c.year && 1 <= c.month <= 12 && 1 <= c.day <= DaysIn(c.year, c.month) &&
    0 <= c.hour < 24 && 0 <= c.minute < 60 && 0 <= c.second < 60
  }

  /** The number of leap years up to and including y. */
  function LeapsThrough(y: int): int {
    y / 4 - y / 100 + y / 400
  }

  /** Days from 1 January 1970 to 1 January of year y, in closed form; negative before 1970. */
  function DaysBeforeYear(y: int): int {
    365 * (y - 1970) + LeapsThrough(y - 1) - LeapsThrough(1969)
  }

  /** Days of the year before month m, in closed form (m = 13 stands for the whole year). */
  function DaysBeforeMonth(y: int, m: int): int
    requires 1 <= m <= 13
  {
    [0, 31, 59, 90, 120, 151, 181, 212, 243, 273, 304, 334, 365][m - 1] + if m > 2 && Leap(y) then 1 else 0
  }

  function DayNumber(c: Civil): int
    requires Valid(c)
  {
    DaysBeforeYear(c.year) + DaysBeforeMonth(c.year, c.month) + (c.day - 1)
  }

  function UnixSeconds(c: Civil): int
    requires Valid(c)
  {
    DayNumber(c) * 86400 + c.hour * 3600 + c.minute * 60 + c.second
  }

  lemma LeapStep(y: int)
    requires y >= 0
    ensures LeapsThrough(y) == LeapsThrough(y - 1) + if Leap(y) then 1 else 0
  {
    QuotientStep(y, 4);
    QuotientStep(y, 100);
    QuotientStep(y, 400);
    CenturiesDivide(y, 100, 4);
    CenturiesDivide(y, 400, 100);
  }

  lemma QuotientStep(y: int, m: int)
    requires m > 1
    ensures y / m == (y - 1) / m + if y % m == 0 then 1 else 0
  {
    var q, r := (y - 1) / m, (y - 1) % m;
    if r == m - 1 {
      assert m * (q + 1) == m * q + m;
      DivUnique(y, m, q + 1, 0);
      ModUnique(y, m, q + 1, 0);
    } else {
      DivUnique(y, m, q, r + 1);
      ModUnique(y, m, q, r + 1);
    }
  }

  /** A multiple of m is a multiple of every divisor of m. */
  lemma CenturiesDivide(y: int, m: int, d: int)
    requires (m == 100 && d == 4) || (m == 400 && d == 100)
    ensures y % m == 0 ==> y % d == 0
  {
    if y % m == 0 {
      ModUnique(y, d, y / m * (m / d), 0);
    }
  }

  lemma YearStep(y: int)
    requires y >= 0
    ensures DaysBeforeYear(y + 1) == DaysBeforeYear(y) + DaysBeforeMonth(y, 13)
  {
    LeapStep(y);
  }

  lemma MonthStep(y: int, m: int)
    requires 1 <= m <= 12
    ensures DaysBeforeMonth(y, m + 1) == DaysBeforeMonth(y, m) + DaysIn(y, m)
  {
  }

  // ---------- the parser ----------

  datatype TimeError = InvalidString | UnknownTag

  /** The value of a run of decimal digits. */
  function Decimal(s: bytes): int {
    if s == [] then 0 else Decimal(s[..|s| - 1]) * 10 + (s[|s| - 1] as int - 48)
  }

  predicate IsDigit(c: byte) {
    48 <= c <= 57
  }

  predicate AllDigits(s: bytes) {
    forall i :: 0 <= i < |s| ==> IsDigit(s[i])
  }

  /** `str::parse` of an unsigned integer: an optional plus sign and at least one digit, nothing else. */
  function ParseNumber(s: bytes): Option<int> {
    var digits := if |s| > 1 && s[0] == 43 then s[1..] else s;
    if digits != [] && AllDigits(digits) then Some(Decimal(digits)) else None
  }

  /**
   A field with its default. (The month is read into a signed type; a negative one, like the default 1, runs the month
   loop no times, so reading it as unsigned changes nothing.)
   */
  function Field(s: bytes, otherwise: int): int {
    if ParseNumber(s).Some? then ParseNumber(s).value else otherwise
  }

  /** The number of octets of the date-time proper. */
  function Width(tag: byte): nat {
    if tag == 0x17 then 12 else 14
  }

  /** Where the month starts. */
  function YearEnd(tag: byte): nat {
    Width(tag) - 10
  }

  function YearOf(y2: int): int {
    if y2 < 50 then 2000 + y2 else 1900 + y2
  }

  /** The fields of a UTCTime (tag 0x17) or a GeneralizedTime (tag 0x18). */
  function Fields(tag: byte, content: bytes): Civil
    requires |content| >= Width(tag)
  {
    var o := YearEnd(tag);
    Civil(if tag == 0x17 then YearOf(Field(content[..o], 0)) else Field(content[..o], 1970),
          Field(content[o..o + 2], 1), Field(content[o + 2..o + 4], 1), Field(content[o + 4..o + 6], 0),
          Field(content[o + 6..o + 8], 0), Field(content[o + 8..o + 10], 0))
  }

  /** A `str` can be cut at o: no continuation byte stands there. */
  predicate Boundary(content: bytes, o: nat) {
    o <= |content| && (o < |content| ==> !(0x80 <= content[o] < 0xC0))
  }

  /** The text can be cut into its fields. */
  predicate Cuttable(tag: byte, content: bytes) {
    var o := YearEnd(tag);
    Boundary(content, o) && Boundary(content, o + 2) && Boundary(content, o + 4) && Boundary(content, o + 6) &&
    Boundary(content, o + 8) && Boundary(content, o + 10)
  }

  /** No slice, table index or subtraction of the function fails: what else is wrong with a time goes unnoticed. */
  predicate Countable(tag: byte, content: bytes) {
    Cuttable(tag, content) && Fields(tag, content).month <= 13 && Fields(tag, content).day >= 1
  }

  /** The count the function returns for its fields, on the calendar or not. */
  function Counted(c: Civil): int
    requires c.month <= 13
  {
    var days := (if c.year < 1970 then 0 else DaysBeforeYear(c.year)) +
                DaysBeforeMonth(c.year, if c.month < 1 then 1 else c.month) + (c.day - 1);
    days * 86400 + c.hour * 3600 + c.minute * 60 + c.second
  }

  /** `utf8` says whether the bytes are valid UTF-8. */
  method ParseAsn1Time(tag: byte, content: bytes, utf8: bytes -> bool) returns (res: Result<int, TimeError>)
    requires utf8(content) && (tag == 0x17 || tag == 0x18) ==> Countable(tag, content)
    ensures res == if !utf8(content) then Err(InvalidString)
                   else if tag != 0x17 && tag != 0x18 then Err(UnknownTag)
                   else Ok(Counted(Fields(tag, content)))
  {
    if !utf8(content) {
      return Err(InvalidString);
    }
    if tag != 0x17 && tag != 0x18 {
      return Err(UnknownTag);
    }
    var f := Fields(tag, content);
    var days := CountDays(f.year, f.month);
    days := days + (f.day - 1);
    return Ok(days * 86400 + f.hour * 3600 + f.minute * 60 + f.second);
  }

  /** The year and month loops. */
  method CountDays(y: int, mo: int) returns (days: int)
    requires mo <= 13
    ensures days == (if y < 1970 then 0 else DaysBeforeYear(y)) + DaysBeforeMonth(y, if mo < 1 then 1 else mo)
  {
    days := 0;
    var year := 1970;
    while year < y
      invariant 1970 <= year && (year <= y || year == 1970) && days == DaysBeforeYear(year)
    {
      YearStep(year);
      days := days + if (year % 4 == 0 && year % 100 != 0) || year % 400 == 0 then 366 else 365;
      year := year + 1;
    }
    ghost var years := days;
    var daysInMonth := [0, 31, 28, 31, 30, 31, 30, 31, 31, 30, 31, 30, 31];
    var month := 1;
    while month < mo
      invariant 1 <= month && (month <= mo || month == 1) && days == years + DaysBeforeMonth(y, month)
    {
      MonthStep(y, month);
      var dim := daysInMonth[month];
      if month == 2 && ((y % 4 == 0 && y % 100 != 0) || y % 400 == 0) {
        dim := 29;
      }
      days := days + dim;
      month := month + 1;
    }
  }

  // ---------- Unix time counts civil seconds ----------

  const EPOCH := Civil(1970, 1, 1, 0, 0, 0)

  /** The next second of the calendar. */
  function Next(c: Civil): Civil {
    if c.second < 59 then c.(second := c.second + 1)
    else if c.minute < 59 then c.(minute := c.minute + 1, second := 0)
    else if c.hour < 23 then c.(hour := c.hour + 1, minute := 0, second := 0)
    else if c.day < DaysIn(c.year, c.month) then Civil(c.year, c.month, c.day + 1, 0, 0, 0)
    else if c.month < 12 then Civil(c.year, c.month + 1, 1, 0, 0, 0)
    else Civil(c.year + 1, 1, 1, 0, 0, 0)
  }

  lemma NextDay(c: Civil)
    requires Valid(c) && c.second == 59 && c.minute == 59 && c.hour == 23
    ensures Valid(Next(c)) && DayNumber(Next(c)) == DayNumber(c) + 1
  {
    hide LeapsThrough, DaysBeforeYear, DaysBeforeMonth, Leap;
    MonthStep(c.year, c.month);
    YearStep(c.year);
    FirstMonth(c.year + 1);
  }

  lemma FirstMonth(y: int)
    ensures DaysBeforeMonth(y, 1) == 0 && DaysIn(y, 1) == 31
  {
  }

  /** Every further second of the calendar counts one. */
  lemma SecondsCount(c: Civil)
    requires Valid(c)
    ensures Valid(Next(c)) && UnixSeconds(Next(c)) == UnixSeconds(c) + 1 && Next(c).year >= c.year
  {
    hide DayNumber, DaysIn;
    if c.second == 59 && c.minute == 59 && c.hour == 23 {
      NextDay(c);
    } else {
      SameDate(c, Next(c));
    }
  }

  lemma SameDate(a: Civil, b: Civil)
    requires Valid(a) && Valid(b) && (a.year, a.month, a.day) == (b.year, b.month, b.day)
    ensures DayNumber(a) == DayNumber(b)
  {
  }

  lemma EpochIsZero()
    ensures Valid(EPOCH) && UnixSeconds(EPOCH) == 0
  {
  }

  /** Every number of seconds is reached. */
  lemma {:induction false} SecondsReached(n: nat) returns (c: Civil)
    ensures Valid(c) && UnixSeconds(c) == n && c.year >= 1970
  {
    hide UnixSeconds, Valid, Next;
    if n == 0 {
      c := EPOCH;
      EpochIsZero();
    } else {
      c := SecondsReached(n - 1);
      SecondsCount(c);
      c := Next(c);
    }
  }

  predicate DateLess(a: Civil, b: Civil) {
    a.year < b.year || (a.year == b.year && (a.month < b.month || (a.month == b.month && a.day < b.day)))
  }

  /** The calendar order of (year, month, day, hour, minute, second). */
  predicate Less(a: Civil, b: Civil) {
    DateLess(a, b) ||
    ((a.year, a.month, a.day) == (b.year, b.month, b.day) &&
      (a.hour < b.hour || (a.hour == b.hour && (a.minute < b.minute || (a.minute == b.minute && a.second < b.second)))))
  }

  lemma {:induction false} YearsGrow(y: int, z: int)
    requires 0 <= y < z
    decreases z
    ensures DaysBeforeYear(y) + DaysBeforeMonth(y, 13) <= DaysBeforeYear(z)
  {
    YearStep(z - 1);
    if y < z - 1 {
      YearsGrow(y, z - 1);
    }
  }

  lemma {:induction false} MonthsGrow(y: int, m: int, n: int)
    requires 1 <= m < n <= 13
    decreases n
    ensures DaysBeforeMonth(y, m) + DaysIn(y, m) <= DaysBeforeMonth(y, n)
  {
  }

  lemma DatesGrow(a: Civil, b: Civil)
    requires Valid(a) && Valid(b) && DateLess(a, b)
    ensures DayNumber(a) < DayNumber(b)
  {
    if a.year < b.year {
      YearsGrow(a.year, b.year);
      MonthsGrow(a.year, a.month, 13);
    } else if a.month < b.month {
      MonthsGrow(a.year, a.month, b.month);
    }
  }

  /** Unix seconds are strictly increasing in calendar order, hence injective. */
  lemma SecondsGrow(a: Civil, b: Civil)
    requires Valid(a) && Valid(b)
    ensures UnixSeconds(a) < UnixSeconds(b) <==> Less(a, b)
    ensures UnixSeconds(a) == UnixSeconds(b) <==> a == b
  {
    if DateLess(a, b) {
      DatesGrow(a, b);
    } else if DateLess(b, a) {
      DatesGrow(b, a);
    }
  }

  /** On the calendar the function is right exactly from 1970 on: earlier years it counts as 1970. */
  lemma CountedRightIff(c: Civil)
    requires Valid(c)
    ensures Counted(c) == UnixSeconds(c) <==> c.year >= 1970
  {
    hide LeapsThrough, Leap, DaysIn, DaysBeforeYear, DaysBeforeMonth;
    CountedYears(c);
    if c.year < 1970 {
      YearsGrow(c.year, 1970);
      YearPositive(c.year);
      EpochYear();
    }
  }

  lemma CountedYears(c: Civil)
    requires Valid(c)
    ensures Counted(c) == UnixSeconds(c) +
            ((if c.year < 1970 then 0 else DaysBeforeYear(c.year)) - DaysBeforeYear(c.year)) * 86400
  {
    hide DaysBeforeYear, DaysBeforeMonth, DaysIn;
  }

  lemma EpochYear()
    ensures DaysBeforeYear(1970) == 0
  {
  }

  lemma YearPositive(y: int)
    ensures DaysBeforeMonth(y, 13) > 0
  {
  }

  // ---------- printed times ----------

  function TwoDigits(n: int): (r: bytes)
    requires 0 <= n < 100
    ensures |r| == 2 && IsDigit(r[0]) && IsDigit(r[1])
  {
    [48 + n / 10, 48 + n % 10]
  }

  function ClockText(c: Civil): bytes
    requires Valid(c)
  {
    TwoDigits(c.month) + TwoDigits(c.day) + TwoDigits(c.hour) + TwoDigits(c.minute) + TwoDigits(c.second)
  }

  /** The digits of a UTCTime, whose two-digit years run from 1950 to 2049 (RFC 5280, section 4.1.2.5.1). */
  function UtcTimeText(c: Civil): bytes
    requires Valid(c) && 1950 <= c.year < 2050
  {
    TwoDigits(c.year % 100) + ClockText(c)
  }

  function GeneralizedTimeText(c: Civil): bytes
    requires Valid(c) && c.year < 10000
  {
    TwoDigits(c.year / 100) + TwoDigits(c.year % 100) + ClockText(c)
  }

  lemma FieldOfTwo(n: nat, otherwise: int)
    requires n < 100
    ensures Field(TwoDigits(n), otherwise) == n
  {
    var s := TwoDigits(n);
    assert s[..1][..0] == [];
    assert Decimal(s[..1]) == Decimal([]) * 10 + n / 10;
  }

  lemma FieldOfFour(n: nat, otherwise: int)
    requires n < 10000
    ensures Field(TwoDigits(n / 100) + TwoDigits(n % 100), otherwise) == n
  {
    var a, b := n / 100, n % 100;
    var s := TwoDigits(a) + TwoDigits(b);
    FieldOfTwo(a, 0);
    assert s[..3][..2] == TwoDigits(a);
    assert Decimal(s[..3]) == Decimal(s[..3][..2]) * 10 + b / 10;
    assert Decimal(s) == (a * 10 + b / 10) * 10 + b % 10;
  }

  /** Reading the printed form of a date-time, whatever follows the digits, gives its fields back. */
  lemma UtcTimeParses(c: Civil, rest: bytes)
    requires Valid(c) && 1950 <= c.year < 2050 && Boundary(rest, 0)
    ensures Countable(0x17, UtcTimeText(c) + rest) && Fields(0x17, UtcTimeText(c) + rest) == c
  {
    hide Decimal, TwoDigits, DaysIn, Field;
    var s := UtcTimeText(c) + rest;
    assert s[..2] == TwoDigits(c.year % 100);
    FieldOfTwo(c.year % 100, 0);
    ClockParses(c, s, 2);
    CutsOf(c, s, 2, rest);
    assert YearOf(c.year % 100) == c.year;
  }

  lemma GeneralizedTimeParses(c: Civil, rest: bytes)
    requires Valid(c) && c.year < 10000 && Boundary(rest, 0)
    ensures Countable(0x18, GeneralizedTimeText(c) + rest) && Fields(0x18, GeneralizedTimeText(c) + rest) == c
  {
    hide Decimal, TwoDigits, DaysIn, Field;
    var s := GeneralizedTimeText(c) + rest;
    assert s[..4] == TwoDigits(c.year / 100) + TwoDigits(c.year % 100);
    FieldOfFour(c.year, 1970);
    ClockParses(c, s, 4);
    CutsOf(c, s, 4, rest);
  }

  lemma CutsOf(c: Civil, s: bytes, o: nat, rest: bytes)
    requires Valid(c) && |s| == o + 10 + |rest| && s[o..o + 10] == ClockText(c) && s[o + 10..] == rest &&
             Boundary(rest, 0)
    ensures Boundary(s, o) && Boundary(s, o + 2) && Boundary(s, o + 4) && Boundary(s, o + 6) && Boundary(s, o + 8)
    ensures Boundary(s, o + 10)
  {
    var t := ClockText(c);
    PartOf(s, o, t, 0);
    PartOf(s, o, t, 2);
    PartOf(s, o, t, 4);
    PartOf(s, o, t, 6);
    PartOf(s, o, t, 8);
    assert rest != [] ==> s[o + 10] == rest[0];
    assert IsDigit(t[0]) && IsDigit(t[2]) && IsDigit(t[4]) && IsDigit(t[6]) && IsDigit(t[8]);
    assert s[o..o + 10][0] == s[o];
  }

  lemma ClockParses(c: Civil, s: bytes, o: nat)
    requires Valid(c) && |s| >= o + 10 && s[o..o + 10] == ClockText(c)
    ensures Field(s[o..o + 2], 1) == c.month && Field(s[o + 2..o + 4], 1) == c.day &&
            Field(s[o + 4..o + 6], 0) == c.hour
    ensures Field(s[o + 6..o + 8], 0) == c.minute && Field(s[o + 8..o + 10], 0) == c.second
  {
    hide Decimal, TwoDigits, Field;
    var t := ClockText(c);
    PartOf(s, o, t, 0);
    PartOf(s, o, t, 2);
    PartOf(s, o, t, 4);
    PartOf(s, o, t, 6);
    PartOf(s, o, t, 8);
    ClockParts(c);
    FieldOfTwo(c.month, 1);
    FieldOfTwo(c.day, 1);
    FieldOfTwo(c.hour, 0);
    FieldOfTwo(c.minute, 0);
    FieldOfTwo(c.second, 0);
  }

  lemma PartOf(s: bytes, o: nat, t: bytes, k: nat)
    requires |s| >= o + 10 && s[o..o + 10] == t && k <= 8
    ensures s[o + k..o + k + 2] == t[k..k + 2]
  {
    assert t[k] == s[o + k] && t[k + 1] == s[o + k + 1];
  }

  lemma ClockParts(c: Civil)
    requires Valid(c)
    ensures var t := ClockText(c);
            t[0..2] == TwoDigits(c.month) && t[2..4] == TwoDigits(c.day) && t[4..6] == TwoDigits(c.hour) &&
            t[6..8] == TwoDigits(c.minute) && t[8..10] == TwoDigits(c.second)
  {
  }
}
