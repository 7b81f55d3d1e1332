/** adm_time_from_timestamp: the loops over years and months give the Gregorian date. */
module AdmTime {

  const SECOND_OF_DAY: nat := 86400

  predicate Leap(y: nat) { (y % 4 == 0 && y % 100 != 0) || y % 400 == 0 }

  function YearLength(y: nat): nat { if Leap(y) then 366 else 365 }

  function MonthLength(y: nat, m: nat): (n: nat)
    requires 1 <= m <= 12
    ensures 28 <= n <= 31
  {
    if m == 2 then (if Leap(y) then 29 else 28)
    else if m == 4 || m == 6 || m == 9 || m == 11 then 30
    else 31
  }

  /** Days from 1970-01-01 to the first of January of year y. */
  function DaysBeforeYear(y: nat): nat {
    if y <= 1970 then 0 else DaysBeforeYear(y - 1) + YearLength(y - 1)
  }

  function DaysBeforeMonth(y: nat, m: nat): nat
    requires 1 <= m <= 13
  {
    if m == 1 then 0 else DaysBeforeMonth(y, m - 1) + MonthLength(y, m - 1)
  }

  datatype Date = Date(year: nat, month: nat, day: nat)

  predicate ValidDate(d: Date) {
    d.year >= 1970 && 1 <= d.month <= 12 && 1 <= d.day <= MonthLength(d.year, d.month)
  }

  function DayNumber(d: Date): nat
    requires ValidDate(d)
  {
    DaysBeforeYear(d.year) + DaysBeforeMonth(d.year, d.month) + d.day - 1
  }

  // ---- the calendar has one date per day ----

  function LeapsBefore(y: nat): nat
    requires y > 0
  {
    (y - 1) / 4 - (y - 1) / 100 + (y - 1) / 400
  }

  lemma Quotients(y: nat, k: nat)
    requires y > 0 && (k == 4 || k == 100 || k == 400)
    ensures y / k == (y - 1) / k + (if y % k == 0 then 1 else 0)
  {
  }

  lemma LeapsStep(y: nat)
    requires y > 0
    ensures LeapsBefore(y + 1) == LeapsBefore(y) + (if Leap(y) then 1 else 0)
  {
    Quotients(y, 4);
    Quotients(y, 100);
    Quotients(y, 400);
    assert y == y / 100 * 100 + y % 100;
    assert y == y / 400 * 400 + y % 400;
  }

  /** The count of days by the rule of leap years. */
  lemma {:induction false} DaysBeforeYearClosed(y: nat)
    requires y >= 1970
    ensures DaysBeforeYear(y) == 365 * (y - 1970) + LeapsBefore(y) - LeapsBefore(1970)
  {
    if y > 1970 {
      DaysBeforeYearClosed(y - 1);
      LeapsStep(y - 1);
    }
  }

  lemma {:induction false} YearsApart(a: nat, b: nat)
    requires 1970 <= a < b
    ensures DaysBeforeYear(a) + YearLength(a) <= DaysBeforeYear(b)
  {
    if a < b - 1 {
      YearsApart(a, b - 1);
    }
  }

  lemma {:induction false} MonthsApart(y: nat, a: nat, b: nat)
    requires 1 <= a < b <= 13
    ensures DaysBeforeMonth(y, a) + MonthLength(y, a) <= DaysBeforeMonth(y, b)
  {
    if a < b - 1 {
      MonthsApart(y, a, b - 1);
    }
  }

  lemma TwelveMonths(y: nat)
    ensures DaysBeforeMonth(y, 13) == YearLength(y)
  {
    assert DaysBeforeMonth(y, 2) == 31;
    assert DaysBeforeMonth(y, 3) == 31 + MonthLength(y, 2);
    assert DaysBeforeMonth(y, 5) == DaysBeforeMonth(y, 3) + 61;
    assert DaysBeforeMonth(y, 7) == DaysBeforeMonth(y, 5) + 61;
    assert DaysBeforeMonth(y, 9) == DaysBeforeMonth(y, 7) + 62;
    assert DaysBeforeMonth(y, 11) == DaysBeforeMonth(y, 9) + 61;
    assert DaysBeforeMonth(y, 13) == DaysBeforeMonth(y, 11) + 61;
  }

  lemma InYear(d: Date)
    requires ValidDate(d)
    ensures DayNumber(d) < DaysBeforeYear(d.year) + YearLength(d.year)
  {
    TwelveMonths(d.year);
    MonthsApart(d.year, d.month, 13);
  }

  /** No two dates share a day. */
  lemma DateUnique(d: Date, e: Date)
    requires ValidDate(d) && ValidDate(e) && DayNumber(d) == DayNumber(e)
    ensures d == e
  {
    InYear(d);
    InYear(e);
    if d.year < e.year {
      YearsApart(d.year, e.year);
    } else if e.year < d.year {
      YearsApart(e.year, d.year);
    } else if d.month < e.month {
      MonthsApart(d.year, d.month, e.month);
    } else if e.month < d.month {
      MonthsApart(d.year, e.month, d.month);
    }
  }

  /** The lengths of the twelve months, one after the other. */
  const LENGTHS: seq<nat> := [31, 28, 31, 30, 31, 30, 31, 31, 30, 31, 30, 31]

  lemma MonthTable(y: nat, m: nat)
    requires 1 <= m <= 12
    ensures MonthLength(y, m) == LENGTHS[m - 1]
      + if m == 2 && (y % 400 == 0 || (y % 4 == 0 && y % 100 > 0)) then 1 else 0
  {
  }

  /** The day number by the civil calendar formula, with years that begin in March. */
  lemma DayNumberClosed(d: Date)
    requires ValidDate(d)
    ensures var y := if d.month <= 2 then d.year - 1 else d.year;
      DayNumber(d) == 365 * y + y / 4 - y / 100 + y / 400 + (153 * ((d.month + 9) % 12) + 2) / 5 + d.day - 719469
  {
    hide *;
    Unfolded(d);
    DaysBeforeYearClosed(d.year);
    MonthStarts(d.year, d.month);
    if d.month <= 2 {
      Winter(d.month);
      Leaps(d.year);
    } else {
      Summer(d.month);
      LeapsStep(d.year);
      Leaps(d.year + 1);
    }
    Leaps(1970);
  }

  lemma Unfolded(d: Date)
    requires ValidDate(d)
    ensures DayNumber(d) == DaysBeforeYear(d.year) + DaysBeforeMonth(d.year, d.month) + d.day - 1
    ensures d.year >= 1970 && 1 <= d.month <= 12
  {
  }

  lemma Leaps(y: nat)
    requires y > 0
    ensures LeapsBefore(y) == (y - 1) / 4 - (y - 1) / 100 + (y - 1) / 400
    ensures LeapsBefore(1970) == 477
  {
  }

  lemma Winter(m: nat)
    requires 1 <= m <= 2
    ensures (153 * ((m + 9) % 12) + 2) / 5 == 31 * (m - 1) + 306
  {
  }

  lemma Summer(m: nat)
    requires 3 <= m <= 12
    ensures (m + 9) % 12 == m - 3
  {
  }

  lemma MonthStarts(y: nat, m: nat)
    requires 1 <= m <= 12
    ensures DaysBeforeMonth(y, m) ==
      if m <= 2 then 31 * (m - 1)
      else 59 + (if Leap(y) then 1 else 0) + (153 * (m - 3) + 2) / 5
  {
    hide Leap;
    assert DaysBeforeMonth(y, 2) == 31;
    assert DaysBeforeMonth(y, 3) == 31 + MonthLength(y, 2);
    assert DaysBeforeMonth(y, 4) == DaysBeforeMonth(y, 3) + 31;
    assert DaysBeforeMonth(y, 5) == DaysBeforeMonth(y, 3) + 61;
    assert DaysBeforeMonth(y, 6) == DaysBeforeMonth(y, 5) + 31;
    assert DaysBeforeMonth(y, 7) == DaysBeforeMonth(y, 5) + 61;
    assert DaysBeforeMonth(y, 8) == DaysBeforeMonth(y, 7) + 31;
    assert DaysBeforeMonth(y, 9) == DaysBeforeMonth(y, 7) + 62;
    assert DaysBeforeMonth(y, 10) == DaysBeforeMonth(y, 9) + 30;
    assert DaysBeforeMonth(y, 11) == DaysBeforeMonth(y, 9) + 61;
    assert DaysBeforeMonth(y, 12) == DaysBeforeMonth(y, 11) + 30;
  }

  // ---- the conversion ----

  class Time {
    var year: nat
    var month: nat
    var day: nat
    var hour: nat
    var min: nat
    var sec: nat

    function Today(): Date
      reads this
    {
      Date(year, month, day)
    }
  }

  const YEARS: nat := 65536

  /** Days in the first k turns of the year loop, whose 16-bit year wraps around. */
  function DaysInTurns(k: nat): nat {
    if k == 0 then 0 else DaysInTurns(k - 1) + YearLength((1970 + k - 1) % YEARS)
  }

  lemma {:induction false} TurnsAreYears(k: nat)
    requires 1970 + k <= YEARS
    ensures DaysInTurns(k) == DaysBeforeYear(1970 + k)
  {
    hide YearLength, DaysInTurns;
    NextTurn(0);
    if k > 0 {
      TurnsAreYears(k - 1);
      NextTurn(k - 1);
      NextYear(1970 + k - 1);
    }
  }

  lemma NextYear(y: nat)
    requires y >= 1970
    ensures DaysBeforeYear(y + 1) == DaysBeforeYear(y) + YearLength(y)
  {
  }

  lemma {:induction false} TurnsGrow(j: nat, k: nat)
    requires j <= k
    ensures DaysInTurns(j) <= DaysInTurns(k)
  {
    if j < k {
      TurnsGrow(j, k - 1);
    }
  }

  lemma YearLengths(y: nat)
    ensures YearLength(y) == if Leap(y) then 366 else 365
  {
  }

  lemma NextTurn(k: nat)
    ensures DaysInTurns(0) == 0 && DaysInTurns(k + 1) == DaysInTurns(k) + YearLength((1970 + k) % YEARS)
  {
  }

  /** The loop over years: what is left is a day of the year reached after k turns. */
  method YearLoop(days: nat) returns (i: nat, left: nat, ghost k: nat)
    ensures i == (1970 + k) % YEARS && days == DaysInTurns(k) + left && left < YearLength(i)
  {
    hide DaysInTurns, YearLength, Leap;
    i, left, k := 1970, days, 0;
    NextTurn(0);
    while left > 365
      invariant i == (1970 + k) % YEARS && days == DaysInTurns(k) + left
      decreases left
    {
      YearLengths(i);
      NextTurn(k);
      if Leap(i) {
        left := left - 366;
      } else {
        left := left - 365;
      }
      i := (i + 1) % YEARS;
      k := k + 1;
    }
    YearLengths(i);
    if left == 365 && !Leap(i) {
      NextTurn(k);
      left := left - 365;
      i := (i + 1) % YEARS;
      k := k + 1;
      YearLengths(i);
    }
  }

  /** Below the first day of year 65536 no wrap has happened; from there on no 16-bit year is right. */
  lemma WrapAt(days: nat, k: nat, left: nat)
    requires days == DaysInTurns(k) + left && left < YearLength((1970 + k) % YEARS)
    ensures days < DaysBeforeYear(YEARS) <==> 1970 + k < YEARS
  {
    TurnsAreYears(YEARS - 1970);
    if 1970 + k < YEARS {
      TurnsGrow(k + 1, YEARS - 1970);
      NextTurn(k);
    } else {
      TurnsGrow(YEARS - 1970, k);
    }
  }

  lemma TooLate(d: Date, days: nat)
    requires ValidDate(d) && d.year < YEARS && days >= DaysBeforeYear(YEARS)
    ensures DayNumber(d) != days
  {
    InYear(d);
    YearsApart(d.year, YEARS);
  }

  method MonthLoop(y: nat, days: nat) returns (j: nat, left: nat)
    requires days < YearLength(y)
    ensures j < 12 && days == DaysBeforeMonth(y, j + 1) + left && left < MonthLength(y, j + 1)
  {
    TwelveMonths(y);
    j, left := 0, days;
    while j < 12
      invariant j <= 12 && days == DaysBeforeMonth(y, j + 1) + left
    {
      var day := MonthLength(y, j + 1);
      if left < day {
        return;
      }
      left := left - day;
      j := j + 1;
    }
  }

  /** The date is the one of the UTC day, exactly up to the end of year 65535; the hour is shifted
      by 8 without carrying into the day. */
  method FromTimestamp(sec: nat, t: Time)
    modifies t
    ensures ValidDate(t.Today()) && DayNumber(t.Today()) == sec / 86400 <==> sec / 86400 < DaysBeforeYear(65536)
    ensures t.year < 65536
    ensures t.hour == (sec / 3600 % 24 + 8) % 24 && t.min == sec / 60 % 60 && t.sec == sec % 60
  {
    hide DaysBeforeYear, DaysInTurns, YearLength, DaysBeforeMonth;
    var s := sec % SECOND_OF_DAY;
    var i, dayOfYear, k := YearLoop(sec / SECOND_OF_DAY);
    var j, dayOfMonth := MonthLoop(i, dayOfYear);
    t.year := i;
    t.month := j + 1;
    t.day := dayOfMonth + 1;
    t.hour := (s / 3600 + 8) % 24;
    t.min := s % 3600 / 60;
    t.sec := s % 3600 % 60;
    ClockParts(sec);
    WrapAt(sec / SECOND_OF_DAY, k, dayOfYear);
    if 1970 + k < YEARS {
      TurnsAreYears(k);
    } else if ValidDate(t.Today()) {
      TooLate(t.Today(), sec / SECOND_OF_DAY);
    }
  }

  lemma ClockParts(sec: nat)
    ensures var s := sec % SECOND_OF_DAY;
      s / 3600 == sec / 3600 % 24 && s % 3600 / 60 == sec / 60 % 60 && s % 3600 % 60 == sec % 60
  {
    var d, s := sec / SECOND_OF_DAY, sec % SECOND_OF_DAY;
    var h, m, x := s / 3600, s % 3600 / 60, s % 3600 % 60;
    assert sec == 86400 * d + 3600 * h + 60 * m + x && h < 24 && m < 60 && x < 60;
    Quotient(sec, 24 * d + h, 60 * m + x, 3600);
    Quotient(24 * d + h, d, h, 24);
    Quotient(sec, 60 * (24 * d + h) + m, x, 60);
    Quotient(60 * (24 * d + h) + m, 24 * d + h, m, 60);
  }

  /** Quotient and remainder are the only numbers that fit. */
  lemma Quotient(n: nat, q: nat, r: nat, k: nat)
    requires r < k && n == q * k + r
    ensures n / k == q && n % k == r
  {
    var e := q - n / k;
    assert e * k == n % k - r;
    assert e >= 1 ==> e * k >= k;
    assert e <= -1 ==> e * k + k <= 0;
  }

  /** Read as a time eight hours east of UTC, the date is right exactly in the first 16 UTC hours. */
  lemma NoDayCarry(sec: nat)
    ensures (sec + 8 * 3600) / 86400 == sec / 86400 <==> sec / 3600 % 24 < 16
  {
    ClockParts(sec);
    var d, s := sec / SECOND_OF_DAY, sec % SECOND_OF_DAY;
    assert sec + 28800 == d * SECOND_OF_DAY + (s + 28800);
    if s < 57600 {
      assert (sec + 28800) / SECOND_OF_DAY == d;
    } else {
      assert sec + 28800 == (d + 1) * SECOND_OF_DAY + (s - 57600);
      assert (sec + 28800) / SECOND_OF_DAY == d + 1;
    }
  }
}
