/** The parts of JavaScript's `Date` the components use, on the proleptic
    Gregorian calendar: month lengths, day numbers, weekdays, stepping one
    day, the `YYYY-MM-DD` form that `toISOString().split('T')[0]` yields,
    and the parse of the two ISO forms into milliseconds since the epoch. */
module Dates {
  import opened Wrappers
  import opened Text

  /** A calendar date; `month` is 1-based (January is 1). */
  datatype Date = Date(year: int, month: nat, day: nat)

  predicate IsLeapYear(y: int)
  {
    y % 4 == 0 && (y % 100 != 0 || y % 400 == 0)
  }

  function DaysInMonth(y: int, m: nat): (n: nat)
    requires 1 <= m <= 12
    ensures 28 <= n <= 31
    ensures m == 2 ==> (n == 29 <==> IsLeapYear(y)) && (n == 28 <==> !IsLeapYear(y))
    ensures (m == 4 || m == 6 || m == 9 || m == 11) <==> n == 30
  {
    if m == 2 then (if IsLeapYear(y) then 29 else 28)
    else if m == 4 || m == 6 || m == 9 || m == 11 then 30
    else 31
  }

  predicate ValidDate(d: Date)
  {
    1 <= d.month <= 12 && 1 <= d.day <= DaysInMonth(d.year, d.month)
  }

  /** The years `toISOString` writes with exactly four digits. */
  predicate InIsoRange(d: Date)
  {
    0 <= d.year <= 9999
  }

  function YearLength(y: int): nat
  {
    if IsLeapYear(y) then 366 else 365
  }

  /** Days from 0000-01-01 to the first of January of year `y`: 365 per year
      plus one per leap year in between (multiples of 4, minus multiples of
      100, plus multiples of 400). */
  function DaysBeforeYear(y: int): int
  {
    365 * y + (y + 3) / 4 - (y + 99) / 100 + (y + 399) / 400
  }

  lemma DaysBeforeNextYear(y: int)
    ensures DaysBeforeYear(y + 1) == DaysBeforeYear(y) + YearLength(y)
  {
    Quot4(y);
    Quot100(y);
    Quot400(y);
    assert y % 400 == 0 ==> y % 100 == 0 by {
      var m := 4 * (y / 400);
      assert y == 400 * (y / 400) + y % 400;
      MultipleOf100(m);
      assert y % 400 == 0 ==> y == 100 * m;
    }
    assert y % 100 == 0 ==> y % 4 == 0 by {
      var m := 25 * (y / 100);
      assert y == 100 * (y / 100) + y % 100;
      MultipleOf4(m);
      assert y % 100 == 0 ==> y == 4 * m;
    }
  }

  lemma MultipleOf4(m: int)
    ensures (4 * m) % 4 == 0
  {
    assert (4 * m) / 4 == m;
  }

  lemma MultipleOf100(m: int)
    ensures (100 * m) % 100 == 0
  {
    assert (100 * m) / 100 == m;
  }

  /** Each rounded-up quotient in `DaysBeforeYear` steps by one exactly
      when the year is a multiple of the divisor. */
  lemma Quot4(y: int)
    ensures (y + 4) / 4 - (y + 3) / 4 == if y % 4 == 0 then 1 else 0
  {
    var q := y / 4;
    assert y == 4 * q + y % 4;
    assert (y + 4) / 4 == q + 1;
    assert (y + 3) / 4 == if y % 4 == 0 then q else q + 1;
  }

  lemma Quot100(y: int)
    ensures (y + 100) / 100 - (y + 99) / 100 == if y % 100 == 0 then 1 else 0
  {
    var q := y / 100;
    assert y == 100 * q + y % 100;
    assert (y + 100) / 100 == q + 1;
    assert (y + 99) / 100 == if y % 100 == 0 then q else q + 1;
  }

  lemma Quot400(y: int)
    ensures (y + 400) / 400 - (y + 399) / 400 == if y % 400 == 0 then 1 else 0
  {
    var q := y / 400;
    assert y == 400 * q + y % 400;
    assert (y + 400) / 400 == q + 1;
    assert (y + 399) / 400 == if y % 400 == 0 then q else q + 1;
  }

  lemma {:induction false} DaysBeforeYearMonotone(x: int, y: int)
    requires x < y
    ensures DaysBeforeYear(x) + YearLength(x) <= DaysBeforeYear(y)
    decreases y - x
  {
    DaysBeforeNextYear(x);
    if x + 1 < y {
      DaysBeforeYearMonotone(x + 1, y);
    }
  }

  /** Days from the first of January to the first of month `m` of year `y`. */
  function DaysBeforeMonth(y: int, m: nat): nat
    requires 1 <= m <= 12
  {
    (match m
     case 1 => 0 case 2 => 31 case 3 => 59 case 4 => 90 case 5 => 120 case 6 => 151
     case 7 => 181 case 8 => 212 case 9 => 243 case 10 => 273 case 11 => 304 case _ => 334)
    + (if m > 2 && IsLeapYear(y) then 1 else 0)
  }

  lemma DaysBeforeMonthMonotone(y: int, m1: nat, m2: nat)
    requires 1 <= m1 < m2 <= 12
    ensures DaysBeforeMonth(y, m1) + DaysInMonth(y, m1) <= DaysBeforeMonth(y, m2)
  {
  }

  lemma DecemberEndsYear(y: int)
    ensures DaysBeforeMonth(y, 12) + DaysInMonth(y, 12) == YearLength(y)
  {
  }

  /** Days from 0000-01-01 to `d`. */
  function DayNumber(d: Date): int
    requires ValidDate(d)
  {
    DaysBeforeYear(d.year) + DaysBeforeMonth(d.year, d.month) + d.day - 1
  }

  /** A valid date's day number lies inside its year. */
  lemma DayNumberWithinYear(d: Date)
    requires ValidDate(d)
    ensures DaysBeforeYear(d.year) <= DayNumber(d) < DaysBeforeYear(d.year) + YearLength(d.year)
  {
    if d.month < 12 {
      DaysBeforeMonthMonotone(d.year, d.month, 12);
    }
    DecemberEndsYear(d.year);
  }

  /** Chronological order on (year, month, day). */
  predicate DateBefore(a: Date, b: Date)
  {
    a.year < b.year || (a.year == b.year && (a.month < b.month || (a.month == b.month && a.day < b.day)))
  }

  /** Day numbers order dates chronologically. */
  lemma DayNumberOrder(a: Date, b: Date)
    requires ValidDate(a) && ValidDate(b)
    ensures DateBefore(a, b) <==> DayNumber(a) < DayNumber(b)
  {
    DayNumberWithinYear(a);
    DayNumberWithinYear(b);
    if a.year < b.year {
      DaysBeforeYearMonotone(a.year, b.year);
    } else if b.year < a.year {
      DaysBeforeYearMonotone(b.year, a.year);
    } else if a.month < b.month {
      DaysBeforeMonthMonotone(a.year, a.month, b.month);
    } else if b.month < a.month {
      DaysBeforeMonthMonotone(a.year, b.month, a.month);
    }
  }

  /** Two valid dates with the same day number are the same date. */
  lemma DayNumberInjective(a: Date, b: Date)
    requires ValidDate(a) && ValidDate(b) && DayNumber(a) == DayNumber(b)
    ensures a == b
  {
    DayNumberOrder(a, b);
    DayNumberOrder(b, a);
  }

  /** `getDay()`: 0 is Sunday. Day 0 (0000-01-01) was a Saturday. */
  function Weekday(d: Date): (w: nat)
    requires ValidDate(d)
    ensures w < 7
  {
    (DayNumber(d) + 6) % 7
  }

  /** Two anchors: 1970-01-01 was a Thursday and 2024-01-01 a Monday. */
  lemma WeekdayAnchors()
    ensures Weekday(Date(1970, 1, 1)) == 4
    ensures Weekday(Date(2024, 1, 1)) == 1
  {
  }

  /** `setDate(getDate() + 1)`. */
  function NextDay(d: Date): (r: Date)
    requires ValidDate(d)
    ensures ValidDate(r)
  {
    if d.day < DaysInMonth(d.year, d.month) then Date(d.year, d.month, d.day + 1)
    else if d.month < 12 then Date(d.year, d.month + 1, 1)
    else Date(d.year + 1, 1, 1)
  }

  /** `setDate(getDate() - 1)`. */
  function PrevDay(d: Date): (r: Date)
    requires ValidDate(d)
    ensures ValidDate(r)
  {
    if d.day > 1 then Date(d.year, d.month, d.day - 1)
    else if d.month > 1 then Date(d.year, d.month - 1, DaysInMonth(d.year, d.month - 1))
    else Date(d.year - 1, 12, 31)
  }

  lemma NextDayNumber(d: Date)
    requires ValidDate(d)
    ensures DayNumber(NextDay(d)) == DayNumber(d) + 1
  {
    if d.day == DaysInMonth(d.year, d.month) {
      if d.month == 12 {
        DaysBeforeNextYear(d.year);
        DecemberEndsYear(d.year);
      }
    }
  }

  lemma PrevDayNumber(d: Date)
    requires ValidDate(d)
    ensures DayNumber(PrevDay(d)) == DayNumber(d) - 1
  {
    if d.day == 1 && d.month == 1 {
      DaysBeforeNextYear(d.year - 1);
      DecemberEndsYear(d.year - 1);
    }
  }

  /** The date `i` days before `d`: `setDate(getDate() - i)`. */
  function DaysBack(d: Date, i: nat): (r: Date)
    requires ValidDate(d)
    ensures ValidDate(r)
  {
    if i == 0 then d else PrevDay(DaysBack(d, i - 1))
  }

  lemma {:induction false} DaysBackNumber(d: Date, i: nat)
    requires ValidDate(d)
    ensures DayNumber(DaysBack(d, i)) == DayNumber(d) - i
  {
    if i > 0 {
      DaysBackNumber(d, i - 1);
      PrevDayNumber(DaysBack(d, i - 1));
    }
  }

  // ---------------------------------------------------------------------
  // Fixed-width decimal fields

  function Pow10(w: nat): (p: nat)
    ensures p >= 1
  {
    if w == 0 then 1 else 10 * Pow10(w - 1)
  }

  predicate AllDigits(s: string)
  {
    forall i :: 0 <= i < |s| ==> '0' <= s[i] <= '9'
  }

  /** `n` written with exactly `w` digits, zero-padded on the left. */
  function Digits(n: nat, w: nat): (r: string)
    ensures |r| == w && AllDigits(r)
  {
    if w == 0 then "" else Digits(n / 10, w - 1) + [DigitChar(n % 10)]
  }

  lemma {:induction false} DigitsValueOfDigits(n: nat, w: nat)
    requires n < Pow10(w)
    ensures DigitsValue(Digits(n, w)) == n
  {
    if w > 0 {
      DigitsValueOfDigits(n / 10, w - 1);
      var s := Digits(n, w);
      assert s[..|s| - 1] == Digits(n / 10, w - 1);
    }
  }

  lemma {:induction false} DigitsOfDigitsValue(s: string)
    requires AllDigits(s)
    ensures DigitsValue(s) < Pow10(|s|)
    ensures Digits(DigitsValue(s), |s|) == s
  {
    if s != [] {
      var p := s[..|s| - 1];
      DigitsOfDigitsValue(p);
      var v := DigitsValue(s);
      var d := s[|s| - 1] as int - '0' as int;
      assert v == DigitsValue(p) * 10 + d;
      assert v / 10 == DigitsValue(p) && v % 10 == d;
      assert DigitChar(d) == s[|s| - 1];
      assert s == p + [s[|s| - 1]];
    }
  }

  lemma DigitsInjective(a: nat, b: nat, w: nat)
    requires a < Pow10(w) && b < Pow10(w) && Digits(a, w) == Digits(b, w)
    ensures a == b
  {
    DigitsValueOfDigits(a, w);
    DigitsValueOfDigits(b, w);
  }

  /** Zero-padded fields of one width compare as strings like their values. */
  lemma {:induction false} DigitsOrder(a: nat, b: nat, w: nat)
    requires a < Pow10(w) && b < Pow10(w)
    ensures LexLess(Digits(a, w), Digits(b, w)) <==> a < b
  {
    if w == 0 {
      LexLessIrreflexive("");
    } else {
      var a1, b1 := Digits(a / 10, w - 1), Digits(b / 10, w - 1);
      LexLessFixedWidth(a1, [DigitChar(a % 10)], b1, [DigitChar(b % 10)]);
      DigitsOrder(a / 10, b / 10, w - 1);
      if a1 == b1 {
        DigitsInjective(a / 10, b / 10, w - 1);
      }
    }
  }

  // ---------------------------------------------------------------------
  // The ISO calendar-date string

  /** The year as `toISOString` writes it: four digits for 0..9999, else a
      sign and six digits. */
  function YearString(y: int): string
  {
    if 0 <= y <= 9999 then Digits(y, 4)
    else (if y < 0 then "-" else "+") + Digits(if y < 0 then -y else y, 6)
  }

  /** `YYYY-MM-DD`, what `toISOString().split('T')[0]` yields for `d`. */
  function IsoDate(d: Date): string
  {
    YearString(d.year) + ("-" + (Digits(d.month, 2) + ("-" + Digits(d.day, 2))))
  }

  lemma IsoDateShape(d: Date)
    requires ValidDate(d) && InIsoRange(d)
    ensures |IsoDate(d)| == 10 && IsoDate(d)[4] == '-' && IsoDate(d)[7] == '-'
    ensures IsoDate(d)[..4] == Digits(d.year, 4)
    ensures IsoDate(d)[5..7] == Digits(d.month, 2)
    ensures IsoDate(d)[8..] == Digits(d.day, 2)
  {
  }

  /** On four-digit years, comparing ISO date strings as JavaScript compares
      strings is comparing the dates chronologically. */
  lemma IsoDateOrder(a: Date, b: Date)
    requires ValidDate(a) && InIsoRange(a) && ValidDate(b) && InIsoRange(b)
    ensures LexLess(IsoDate(a), IsoDate(b)) <==> DayNumber(a) < DayNumber(b)
  {
    IsoLexBefore(a, b);
    DayNumberOrder(a, b);
  }

  /** The string order of ISO dates is the (year, month, day) order. */
  lemma IsoLexBefore(a: Date, b: Date)
    requires ValidDate(a) && InIsoRange(a) && ValidDate(b) && InIsoRange(b)
    ensures LexLess(IsoDate(a), IsoDate(b)) <==> DateBefore(a, b)
  {
    var ya, yb := Digits(a.year, 4), Digits(b.year, 4);
    var ta, tb := "-" + (Digits(a.month, 2) + ("-" + Digits(a.day, 2))), "-" + (Digits(b.month, 2) + ("-" + Digits(b.day, 2)));
    assert IsoDate(a) == ya + ta && IsoDate(b) == yb + tb;
    LexLessFixedWidth(ya, ta, yb, tb);
    assert Pow10(4) == 10000;
    DigitsOrder(a.year, b.year, 4);
    if ya == yb { DigitsInjective(a.year, b.year, 4); }
    MonthDayLex(a.month, a.day, b.month, b.day);
  }

  lemma MonthDayLex(am: nat, ad: nat, bm: nat, bd: nat)
    requires am < 100 && ad < 100 && bm < 100 && bd < 100
    ensures LexLess("-" + (Digits(am, 2) + ("-" + Digits(ad, 2))), "-" + (Digits(bm, 2) + ("-" + Digits(bd, 2)))) <==>
            am < bm || (am == bm && ad < bd)
  {
    var ma, mb := Digits(am, 2), Digits(bm, 2);
    var da, db := Digits(ad, 2), Digits(bd, 2);
    assert Pow10(2) == 100;
    LexLessFixedWidth("-", ma + ("-" + da), "-", mb + ("-" + db));
    LexLessFixedWidth(ma, "-" + da, mb, "-" + db);
    LexLessFixedWidth("-", da, "-", db);
    LexLessIrreflexive("-");
    DigitsOrder(am, bm, 2);
    DigitsOrder(ad, bd, 2);
    if ma == mb { DigitsInjective(am, bm, 2); }
  }

  /** Different dates in the four-digit range have different ISO strings. */
  lemma IsoDateInjective(a: Date, b: Date)
    requires ValidDate(a) && InIsoRange(a) && ValidDate(b) && InIsoRange(b)
    requires IsoDate(a) == IsoDate(b)
    ensures a == b
  {
    LexLessIrreflexive(IsoDate(a));
    IsoDateOrder(a, b);
    IsoDateOrder(b, a);
    DayNumberInjective(a, b);
  }

  /** The date in a `YYYY-MM-DD` string, when there is a valid one. */
  function ParseIsoDate(s: string): Option<Date>
  {
    if |s| == 10 && s[4] == '-' && s[7] == '-' && AllDigits(s[..4]) && AllDigits(s[5..7]) && AllDigits(s[8..]) then
      var d := Date(DigitsValue(s[..4]), DigitsValue(s[5..7]), DigitsValue(s[8..]));
      if ValidDate(d) then Some(d) else None
    else None
  }

  lemma ParseIsoDateOfIsoDate(d: Date)
    requires ValidDate(d) && InIsoRange(d)
    ensures ParseIsoDate(IsoDate(d)) == Some(d)
  {
    IsoDateShape(d);
    DigitsValueOfDigits(d.year, 4);
    DigitsValueOfDigits(d.month, 2);
    DigitsValueOfDigits(d.day, 2);
  }

  lemma IsoDateOfParseIsoDate(s: string)
    requires ParseIsoDate(s).Some?
    ensures ValidDate(ParseIsoDate(s).value) && InIsoRange(ParseIsoDate(s).value)
    ensures IsoDate(ParseIsoDate(s).value) == s
  {
    var d := ParseIsoDate(s).value;
    ParsedFields(s);
    DigitsOfDigitsValue(s[..4]);
    DigitsOfDigitsValue(s[5..7]);
    DigitsOfDigitsValue(s[8..]);
    assert Pow10(4) == 10000;
    IsoDateOfParts(d, s[..4], s[5..7], s[8..]);
    IsoParts(s);
  }

  lemma ParsedFields(s: string)
    requires ParseIsoDate(s).Some?
    ensures |s| == 10 && s[4] == '-' && s[7] == '-'
    ensures AllDigits(s[..4]) && AllDigits(s[5..7]) && AllDigits(s[8..])
    ensures ValidDate(ParseIsoDate(s).value)
    ensures ParseIsoDate(s).value == Date(DigitsValue(s[..4]), DigitsValue(s[5..7]), DigitsValue(s[8..]))
  {
  }

  lemma IsoDateOfParts(d: Date, y: string, m: string, dd: string)
    requires 0 <= d.year <= 9999
    requires Digits(d.year, 4) == y && Digits(d.month, 2) == m && Digits(d.day, 2) == dd
    ensures IsoDate(d) == y + ("-" + (m + ("-" + dd)))
  {
  }

  lemma IsoParts(s: string)
    requires |s| == 10 && s[4] == '-' && s[7] == '-'
    ensures s == s[..4] + ("-" + (s[5..7] + ("-" + s[8..])))
  {
  }

  // ---------------------------------------------------------------------
  // Instants: milliseconds since 1970-01-01T00:00:00.000Z

  const MsPerDay: nat := 1000 * 60 * 60 * 24

  /** Day number of 1970-01-01. */
  const EpochDay: int := 719528

  lemma EpochDayIsNewYear1970()
    ensures DayNumber(Date(1970, 1, 1)) == EpochDay
  {
  }

  /** `new Date(IsoDate(d)).getTime()`: midnight UTC of `d`. */
  function MidnightMs(d: Date): int
    requires ValidDate(d)
  {
    (DayNumber(d) - EpochDay) * MsPerDay
  }

  /** Milliseconds into the day of an `HH:MM:SS.sss` time. */
  function TimeOfDayMs(t: string): Option<int>
  {
    if |t| == 12 && t[2] == ':' && t[5] == ':' && t[8] == '.'
       && AllDigits(t[..2]) && AllDigits(t[3..5]) && AllDigits(t[6..8]) && AllDigits(t[9..]) then
      var hh, mm, ss, ms := DigitsValue(t[..2]), DigitsValue(t[3..5]), DigitsValue(t[6..8]), DigitsValue(t[9..]);
      if hh < 24 && mm < 60 && ss < 60 then Some(((hh * 60 + mm) * 60 + ss) * 1000 + ms) else None
    else None
  }

  /** A time of day stays within the day. */
  lemma TimeOfDayWithinDay(t: string)
    requires TimeOfDayMs(t).Some?
    ensures 0 <= TimeOfDayMs(t).value < MsPerDay
  {
    DigitsOfDigitsValue(t[..2]);
    DigitsOfDigitsValue(t[3..5]);
    DigitsOfDigitsValue(t[6..8]);
    DigitsOfDigitsValue(t[9..]);
  }

  lemma MidnightTime()
    ensures TimeOfDayMs("00:00:00.000") == Some(0)
  {
    var t := "00:00:00.000";
    assert t[..2] == "00" && t[3..5] == "00" && t[6..8] == "00" && t[9..] == "000";
    assert DigitsValue("00") == 0 by {
      assert "00"[..1] == "0" && "0"[..0] == "";
    }
    assert DigitsValue("000") == 0 by {
      assert "000"[..2] == "00" && "00"[..1] == "0" && "0"[..0] == "";
    }
  }

  /** `new Date(s).getTime()` for the two ISO forms the application writes:
      a date (`YYYY-MM-DD`, midnight UTC) and `toISOString`'s
      `YYYY-MM-DDTHH:MM:SS.sssZ`. `None` stands for NaN. */
  function ParseInstant(s: string): Option<int>
  {
    if |s| == 10 then
      match ParseIsoDate(s)
      case Some(d) => Some(MidnightMs(d))
      case None => None
    else if |s| == 24 && s[10] == 'T' && s[23] == 'Z' then
      match (ParseIsoDate(s[..10]), TimeOfDayMs(s[11..23]))
      case (Some(d), Some(t)) => Some(MidnightMs(d) + t)
      case _ => None
    else None
  }

  /** `toISOString` of midnight UTC parses back to that midnight. */
  lemma ParseInstantMidnight(d: Date)
    requires ValidDate(d) && InIsoRange(d)
    ensures ParseInstant(IsoDate(d) + "T00:00:00.000Z") == Some(MidnightMs(d))
  {
    var s := IsoDate(d) + "T00:00:00.000Z";
    IsoDateShape(d);
    ParseIsoDateOfIsoDate(d);
    assert s[..10] == IsoDate(d) && s[10..] == "T00:00:00.000Z";
    assert s[11..23] == s[10..][1..13] == "00:00:00.000";
    MidnightTime();
  }

  /** A date-only string denotes midnight UTC of its date. */
  lemma ParseInstantOfDate(s: string)
    requires ParseIsoDate(s).Some?
    ensures ParseInstant(s) == Some(MidnightMs(ParseIsoDate(s).value))
  {
  }

  /** Midnights are ordered as their dates. */
  lemma MidnightMsOrder(a: Date, b: Date)
    requires ValidDate(a) && ValidDate(b)
    ensures MidnightMs(a) < MidnightMs(b) <==> DayNumber(a) < DayNumber(b)
    ensures MidnightMs(a) == MidnightMs(b) <==> DayNumber(a) == DayNumber(b)
  {
    var x, y := DayNumber(a) - EpochDay, DayNumber(b) - EpochDay;
    if x < y {
      assert x * MsPerDay < y * MsPerDay;
    } else if y < x {
      assert y * MsPerDay < x * MsPerDay;
    }
  }

  /** Two midnights lie a whole number of days apart, so the rounded-up
      day count between them is exact. */
  lemma MidnightDays(a: Date, b: Date)
    requires ValidDate(a) && ValidDate(b)
    ensures MidnightMs(b) - MidnightMs(a) == (DayNumber(b) - DayNumber(a)) * MsPerDay
    ensures CeilDiv(MidnightMs(b) - MidnightMs(a), MsPerDay) == DayNumber(b) - DayNumber(a)
  {
    CeilDivExact(DayNumber(b) - DayNumber(a), MsPerDay);
  }

  /** An instant string falls on the day its date part names. */
  lemma ParseInstantWithinDay(s: string)
    requires ParseInstant(s).Some?
    ensures ParseIsoDate(s[..10]).Some?
    ensures MidnightMs(ParseIsoDate(s[..10]).value) <= ParseInstant(s).value
                                                     < MidnightMs(ParseIsoDate(s[..10]).value) + MsPerDay
  {
    if |s| == 24 {
      TimeOfDayWithinDay(s[11..23]);
    } else {
      assert s[..10] == s;
    }
  }

  // ---------------------------------------------------------------------
  // Rounding

  /** `Math.ceil(a / b)` for a positive divisor. */
  function CeilDiv(a: int, b: int): (r: int)
    requires b > 0
    ensures (r - 1) * b < a <= r * b
  {
    -((-a) / b)
  }

  /** A whole multiple of the divisor divides exactly. */
  lemma CeilDivExact(k: int, b: int)
    requires b > 0
    ensures CeilDiv(k * b, b) == k
  {
    var r := CeilDiv(k * b, b);
    assert (r - 1 - k) * b < 0 by {
      assert (r - 1 - k) * b == (r - 1) * b - k * b;
    }
    assert (k - r) * b <= 0 by {
      assert (k - r) * b == k * b - r * b;
    }
    NegativeFactor(r - 1 - k, b);
    NonPositiveFactor(k - r, b);
  }

  lemma NegativeFactor(x: int, b: int)
    requires b > 0 && x * b < 0
    ensures x < 0
  {
    assert x >= 0 ==> x * b >= 0;
  }

  lemma NonPositiveFactor(x: int, b: int)
    requires b > 0 && x * b <= 0
    ensures x <= 0
  {
    assert x > 0 ==> x * b > 0;
  }

  /** `Math.round(x)`: the nearest integer, halves rounded up. */
  function Round(x: real): (r: int)
    ensures r as real <= x + 0.5 < r as real + 1.0
  {
    (x + 0.5).Floor
  }
}
