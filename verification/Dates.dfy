/** Gregorian dates, their day numbers, and what differences of day numbers are
    worth. */
module Dates {

  datatype Date = Date(y: int, m: int, d: int)

  predicate IsLeapYear(y: int) { y % 4 == 0 && (y % 100 != 0 || y % 400 == 0) }

  /** Days before each month of a year that is not a leap year. */
  const MDAY: seq<int> := [0, 0, 31, 59, 90, 120, 151, 181, 212, 243, 273, 304, 334, 365]

  /** Twelve months of 28 to 31 days, February having 29 in a leap year. */
  function MonthLength(y: int, m: int): int
    requires 1 <= m <= 12
  {
    MDAY[m + 1] - MDAY[m] + if m == 2 && IsLeapYear(y) then 1 else 0
  }

  ghost predicate Valid(a: Date) {
    a.y >= 1 && 1 <= a.m <= 12 && 1 <= a.d <= MonthLength(a.y, a.m)
  }

  function ToNumber(a: Date): int
    requires 1 <= a.m <= 12
  {
    365 * a.y + a.y / 4 - a.y / 100 + a.y / 400
    + MDAY[a.m] + (if a.m > 2 && IsLeapYear(a.y) then 1 else 0)
    + a.d - 1
  }

  /** `operator<`. */
  predicate Less(a: Date, b: Date) {
    a.y < b.y || (a.y == b.y && (a.m < b.m || (a.m == b.m && a.d < b.d)))
  }

  /** `operator-`. */
  function Minus(a: Date, b: Date): int
    requires 1 <= a.m <= 12 && 1 <= b.m <= 12
  {
    ToNumber(a) - ToNumber(b)
  }

  /** `operator++` as a function. */
  function Next(a: Date): Date
    requires 1 <= a.m <= 12
  {
    if a.d < MonthLength(a.y, a.m) then a.(d := a.d + 1)
    else if a.m < 12 then Date(a.y, a.m + 1, 1)
    else Date(a.y + 1, 1, 1)
  }

  class DateCell {
    var y: int
    var m: int
    var d: int

    ghost function Value(): Date
      reads this
    {
      Date(y, m, d)
    }

    method Increment()
      requires Valid(Value())
      modifies this
      ensures Valid(Value()) && Value() == Next(old(Value()))
    {
      if d < MonthLength(y, m) {
        d := d + 1;
      } else {
        d := 1;
        m := m + 1;
        if m > 12 {
          m := m - 12;
          y := y + 1;
        }
      }
    }

    /** Same day of the next month, or that month's last day. */
    method AddMonth()
      requires Valid(Value())
      modifies this
      ensures Valid(Value()) && Less(old(Value()), Value())
      ensures y * 12 + m == old(y * 12 + m) + 1
      ensures d == old(d) || (d < old(d) && d == MonthLength(y, m))
    {
      m := m + 1;
      if m > 12 {
        m := m - 12;
        y := y + 1;
      }
      d := if d <= MonthLength(y, m) then d else MonthLength(y, m);
    }
  }

  type CalendarDate = a: Date | Valid(a) witness FIRST

  // ----- The calendar

  /** Which dates there are. */
  lemma ValidIff(y: int, m: int, d: int)
    ensures Valid(Date(y, m, d)) <==>
              y >= 1 && 1 <= d
              && ((m in {1, 3, 5, 7, 8, 10, 12} && d <= 31)
                  || (m in {4, 6, 9, 11} && d <= 30)
                  || (m == 2 && d <= 28)
                  || (m == 2 && d == 29 && y % 4 == 0 && (y % 100 != 0 || y % 400 == 0)))
  {
    if 1 <= m <= 12 { MonthLengths(y, m); }
  }

  lemma MonthLengths(y: int, m: int)
    requires 1 <= m <= 12
    ensures MonthLength(y, m) == if m == 2 then (if IsLeapYear(y) then 29 else 28) else if m in {4, 6, 9, 11} then 30 else 31
  {
    assert m == 1 || m == 2 || m == 3 || m == 4 || m == 5 || m == 6 || m == 7 || m == 8 || m == 9 || m == 10 || m == 11 || m == 12;
  }

  /** `n` steps of `++`. */
  ghost function Later(a: Date, n: nat): Date
    requires Valid(a)
    ensures Valid(Later(a, n))
  {
    if n == 0 then a else NextValid(Later(a, n - 1)); Next(Later(a, n - 1))
  }

  lemma {:induction false} LaterInMonth(y: int, m: int, n: nat)
    requires Valid(Date(y, m, 1)) && n < MonthLength(y, m)
    ensures Later(Date(y, m, 1), n) == Date(y, m, n + 1)
  {
    if n > 0 { LaterInMonth(y, m, n - 1); }
  }

  /** From the first of a month `++` goes through its 28 to 31 days, and then to
      the first of the next month, or year. */
  lemma MonthPasses(y: int, m: int, n: nat)
    requires y >= 1 && 1 <= m <= 12
    requires n == (if m == 2 then (if y % 4 == 0 && (y % 100 != 0 || y % 400 == 0) then 29 else 28)
                   else if m in {4, 6, 9, 11} then 30 else 31)
    ensures Valid(Date(y, m, 1))
    ensures forall k :: 0 <= k < n ==> Later(Date(y, m, 1), k) == Date(y, m, k + 1)
    ensures Later(Date(y, m, 1), n) == if m == 12 then Date(y + 1, 1, 1) else Date(y, m + 1, 1)
  {
    MonthLengths(y, m);
    forall k | 0 <= k < n ensures Later(Date(y, m, 1), k) == Date(y, m, k + 1) {
      LaterInMonth(y, m, k);
    }
    LaterInMonth(y, m, n - 1);
  }

  /** A year is 365 days long, or 366. */
  lemma YearPasses(y: int)
    requires y >= 1
    ensures Day(Date(y + 1, 1, 1)) - Day(Date(y, 1, 1)) ==
            if y % 4 == 0 && (y % 100 != 0 || y % 400 == 0) then 366 else 365
  {
    YearNumber(y);
  }

  // ----- Counting days

  const FIRST: Date := Date(1, 1, 1)

  ghost function LeapDay(y: int): int { if IsLeapYear(y) then 1 else 0 }

  /** Days from 0001-01-01, from the day number. */
  ghost function Day(a: Date): int
    requires 1 <= a.m <= 12
  {
    ToNumber(a) - 365 - LeapDay(a.y)
  }

  ghost function Advance(n: nat): Date
    ensures Valid(Advance(n))
  {
    if n == 0 then FIRST else NextValid(Advance(n - 1)); Next(Advance(n - 1))
  }

  lemma NextValid(a: Date)
    requires Valid(a)
    ensures Valid(Next(a))
  {
  }

  lemma NextFourth(y: int)
    ensures (y + 1) / 4 == y / 4 + if (y + 1) % 4 == 0 then 1 else 0
  {
  }

  lemma NextHundredth(y: int)
    ensures (y + 1) / 100 == y / 100 + if (y + 1) % 100 == 0 then 1 else 0
    ensures (y + 1) % 100 == 0 ==> (y + 1) % 4 == 0
  {
  }

  lemma NextFourHundredth(y: int)
    ensures (y + 1) / 400 == y / 400 + if (y + 1) % 400 == 0 then 1 else 0
    ensures (y + 1) % 400 == 0 ==> (y + 1) % 100 == 0
  {
  }

  lemma YearNumber(y: int)
    requires y >= 1
    ensures (y + 1) / 4 - (y + 1) / 100 + (y + 1) / 400 == y / 4 - y / 100 + y / 400 + LeapDay(y + 1)
  {
    NextFourth(y);
    NextHundredth(y);
    NextFourHundredth(y);
  }

  lemma DayNext(a: Date)
    requires Valid(a)
    ensures Day(Next(a)) == Day(a) + 1
  {
    YearNumber(a.y);
  }

  lemma {:induction false} DayAdvance(n: nat)
    ensures Day(Advance(n)) == n
  {
    if n > 0 {
      var a := Advance(n - 1);
      DayAdvance(n - 1);
      DayNext(a);
      assert Advance(n) == Next(a);
    }
  }

  ghost function YearStart(y: int): int { Day(Date(y, 1, 1)) }

  lemma YearLength(a: Date)
    requires Valid(a)
    ensures YearStart(a.y) <= Day(a) < YearStart(a.y + 1)
  {
    YearNumber(a.y);
  }

  lemma {:induction false} YearsInOrder(y: int, z: int)
    requires 1 <= y <= z
    ensures YearStart(y) <= YearStart(z)
    decreases z - y
  {
    if y < z {
      YearsInOrder(y, z - 1);
      YearNumber(z - 1);
    }
  }

  lemma EarlierInYear(a: Date, b: Date)
    requires Valid(a) && Valid(b) && Less(a, b) && a.y == b.y
    ensures Day(a) < Day(b)
  {
    if a.m < b.m {
      MonthEnds(a.y, a.m, b.m);
    }
  }

  /** Days of the year before month `m`. */
  ghost function MonthStart(y: int, m: int): int
    requires 1 <= m <= 12
  {
    MDAY[m] + if m > 2 && IsLeapYear(y) then 1 else 0
  }

  lemma {:induction false} MonthEnds(y: int, m: int, n: int)
    requires 1 <= m < n <= 12
    ensures MonthStart(y, m) + MonthLength(y, m) <= MonthStart(y, n)
    decreases n
  {
    if m < n - 1 { MonthEnds(y, m, n - 1); }
  }

  lemma EarlierHasLowerDay(a: Date, b: Date)
    requires Valid(a) && Valid(b) && Less(a, b)
    ensures Day(a) < Day(b)
  {
    if a.y < b.y {
      YearLength(a);
      YearLength(b);
      YearsInOrder(a.y + 1, b.y);
    } else {
      EarlierInYear(a, b);
    }
  }

  /** The day number of a date is 365, plus the number of `++` steps that lead to
      it from 0001-01-01, plus 1 if its year is a leap year. */
  lemma NumberCountsSteps(a: Date, n: nat)
    requires Valid(a)
    ensures Advance(n) == a <==> ToNumber(a) == 365 + n + LeapDay(a.y)
  {
    DayAdvance(n);
    if Day(a) == n && Advance(n) != a {
      if Less(a, Advance(n)) {
        EarlierHasLowerDay(a, Advance(n));
      } else {
        EarlierHasLowerDay(Advance(n), a);
      }
    }
  }

  /** Every date is reached, and later is further. */
  lemma LessIsFewerSteps(a: Date, b: Date)
    requires Valid(a) && Valid(b)
    ensures Day(a) >= 0 && Advance(Day(a)) == a
    ensures Less(a, b) <==> Day(a) < Day(b)
  {
    YearsInOrder(1, a.y);
    YearLength(a);
    NumberCountsSteps(a, Day(a));
    if Less(a, b) {
      EarlierHasLowerDay(a, b);
    } else if a != b {
      EarlierHasLowerDay(b, a);
    }
  }

  /** A difference of dates is the number of days between them exactly when both
      or neither fall in leap years; otherwise it is out by one. */
  lemma DifferenceExactIffSameLeapness(m: nat, n: nat)
    ensures var a, b := Advance(m), Advance(n);
            Minus(a, b) == m - n + LeapDay(a.y) - LeapDay(b.y)
            && (Minus(a, b) == m - n <==> (IsLeapYear(a.y) <==> IsLeapYear(b.y)))
  {
    NumberCountsSteps(Advance(m), m);
    NumberCountsSteps(Advance(n), n);
  }

  /** `++` adds 1 to the day number, but 2 on entering a leap year and 0 on
      leaving one. */
  lemma NumberOfNext(a: Date)
    requires Valid(a)
    ensures ToNumber(Next(a)) - ToNumber(a) ==
            if Next(a).y == a.y then 1
            else if IsLeapYear(a.y + 1) then 2
            else if IsLeapYear(a.y) then 0
            else 1
  {
    DayNext(a);
    NumberFromDay(a);
    NumberFromDay(Next(a));
    NoTwoLeapYears(a.y);
  }

  lemma NumberFromDay(a: Date)
    requires 1 <= a.m <= 12
    ensures ToNumber(a) == Day(a) + 365 + LeapDay(a.y)
  {
  }

  lemma NoTwoLeapYears(y: int)
    ensures IsLeapYear(y) ==> !IsLeapYear(y + 1)
  {
  }

  /** Day numbers never go down, and two dates share one only if they are the
      last day of a leap year and the next day. */
  lemma NumberWeaklyMonotone(a: Date, b: Date)
    requires Valid(a) && Valid(b) && Less(a, b)
    ensures ToNumber(a) <= ToNumber(b)
    ensures ToNumber(a) == ToNumber(b) <==> IsLeapYear(a.y) && a.m == 12 && a.d == 31 && b == Next(a)
  {
    EarlierHasLowerDay(a, b);
    NumberOfNext(a);
    if ToNumber(a) == ToNumber(b) {
      DayNext(a);
      NextValid(a);
      assert Day(b) == Day(Next(a));
      LessIsFewerSteps(b, Next(a));
      LessIsFewerSteps(Next(a), b);
    }
  }

  /** So the age of a backup, as a difference of dates, never grows with its
      date. */
  lemma LaterIsNotOlder(today: CalendarDate, a: CalendarDate, b: CalendarDate)
    requires a == b || Less(a, b)
    ensures Minus(today, b) <= Minus(today, a)
  {
    if a != b { NumberWeaklyMonotone(a, b); }
  }
}
