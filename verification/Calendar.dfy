/**
  The proleptic Gregorian calendar, independent of how any program computes it:
  month lengths, the day after a date, and the day number of a date counted
  from 1 March of year 0.  Division here is floor division on every integer.
*/
module Calendar {

  datatype Civil = Civil(year: int, month: int, day: int)

  predicate IsLeap(year: int) {
    year % 4 == 0 && (year % 100 != 0 || year % 400 == 0)
  }

  function MonthLength(year: int, month: int): int {
    if month == 2 then (if IsLeap(year) then 29 else 28)
    else if month == 4 || month == 6 || month == 9 || month == 11 then 30
    else 31
  }

  predicate IsDate(c: Civil) {
    1 <= c.month <= 12 && 1 <= c.day <= MonthLength(c.year, c.month)
  }

  predicate Before(a: Civil, b: Civil) {
    a.year < b.year
    || (a.year == b.year && (a.month < b.month || (a.month == b.month && a.day < b.day)))
  }

  /** The following calendar day. */
  function Next(c: Civil): (r: Civil)
    requires IsDate(c)
    ensures IsDate(r) && Before(c, r)
  {
    if c.day < MonthLength(c.year, c.month) then c.(day := c.day + 1)
    else if c.month < 12 then Civil(c.year, c.month + 1, 1)
    else Civil(c.year + 1, 1, 1)
  }

  /** The preceding calendar day. */
  function Previous(c: Civil): (r: Civil)
    requires IsDate(c)
    ensures IsDate(r) && Next(r) == c
  {
    if c.day > 1 then c.(day := c.day - 1)
    else if c.month > 1 then Civil(c.year, c.month - 1, MonthLength(c.year, c.month - 1))
    else Civil(c.year - 1, 12, 31)
  }

  /** Days from 1 March of year 0 to 1 March of the given year. */
  function YearStart(year: int): int {
    365 * year + year / 4 - year / 100 + year / 400
  }

  /** Days from 1 March to the first of the given month, March being month 0. */
  function MonthStart(marchMonth: int): int {
    (306 * marchMonth + 5) / 10
  }

  function MarchYear(c: Civil): int {
    if c.month <= 2 then c.year - 1 else c.year
  }

  function MarchMonth(c: Civil): int {
    if c.month <= 2 then c.month + 9 else c.month - 3
  }

  function DayNumber(c: Civil): int {
    YearStart(MarchYear(c)) + MonthStart(MarchMonth(c)) + c.day - 1
  }

  /** The closed form for month starts agrees with the lengths of the months, February aside. */
  lemma MonthStartSteps(marchMonth: int)
    requires 0 <= marchMonth < 11
    ensures MonthStart(marchMonth + 1) == MonthStart(marchMonth) + MonthLength(0, (marchMonth + 2) % 12 + 1)
  {
    if marchMonth < 6 {
      assert marchMonth in {0, 1, 2, 3, 4, 5};
    } else {
      assert marchMonth in {6, 7, 8, 9, 10};
    }
  }

  lemma QuotientStep(year: int, d: int)
    requires d == 4 || d == 100 || d == 400
    ensures (year + 1) / d == year / d + (if (year + 1) % d == 0 then 1 else 0)
  {
  }

  lemma Hundreds(k: int)
    ensures 100 * k % 100 == 0
  {
  }

  lemma Fours(k: int)
    ensures 4 * k % 4 == 0
  {
  }

  /** Years divisible by 400 are divisible by 100, and those by 4. */
  lemma LeapDivisors(year: int)
    ensures year % 400 == 0 ==> year % 100 == 0
    ensures year % 100 == 0 ==> year % 4 == 0
  {
    if year % 400 == 0 { Hundreds(4 * (year / 400)); }
    if year % 100 == 0 { Fours(25 * (year / 100)); }
  }

  lemma YearStartStep(year: int)
    ensures YearStart(year + 1) == YearStart(year) + (if IsLeap(year + 1) then 366 else 365)
  {
    QuotientStep(year, 4);
    QuotientStep(year, 100);
    QuotientStep(year, 400);
    LeapDivisors(year + 1);
  }

  lemma FebruaryEnds(year: int)
    ensures DayNumber(Civil(year, 3, 1)) == DayNumber(Civil(year, 2, 1)) + MonthLength(year, 2)
  {
    assert MonthStart(0) == 0 && MonthStart(11) == 337;
    hide YearStart, MonthStart, IsLeap;
    YearStartStep(year - 1);
  }

  function FirstOfNextMonth(year: int, month: int): Civil {
    if month < 12 then Civil(year, month + 1, 1) else Civil(year + 1, 1, 1)
  }

  /** Every month starts where the one before it ends. */
  lemma MonthFollows(year: int, month: int)
    requires 1 <= month <= 12
    ensures DayNumber(FirstOfNextMonth(year, month)) == DayNumber(Civil(year, month, 1)) + MonthLength(year, month)
  {
    hide YearStart, MonthStart, IsLeap;
    if month == 2 {
      FebruaryEnds(year);
    } else {
      var mm := MarchMonth(Civil(year, month, 1));
      assert (mm + 2) % 12 + 1 == month && MonthLength(year, month) == MonthLength(0, month);
      MonthStartSteps(mm);
    }
  }

  lemma NextAddsOne(c: Civil)
    requires IsDate(c)
    ensures DayNumber(Next(c)) == DayNumber(c) + 1
  {
    hide MonthStart, YearStart, IsLeap;
    MonthFollows(c.year, c.month);
  }

  /** The date n calendar days after 1 March of year 0 (before it, when n is negative). */
  function CivilOf(n: int): (c: Civil)
    ensures IsDate(c)
    ensures DayNumber(c) == n
    decreases if n < 0 then -n else n
  {
    if n == 0 then Civil(0, 3, 1)
    else if n > 0 then
      var p := CivilOf(n - 1);
      NextAddsOne(p);
      Next(p)
    else
      var s := CivilOf(n + 1);
      NextAddsOne(Previous(s));
      Previous(s)
  }

  lemma {:induction false} YearStartMonotone(a: int, b: int)
    requires a <= b
    ensures YearStart(a) + 365 * (b - a) <= YearStart(b)
    decreases b - a
  {
    if a < b {
      YearStartStep(b - 1);
      YearStartMonotone(a, b - 1);
    }
  }

  lemma DayOffset(year: int, month: int, day: int)
    ensures DayNumber(Civil(year, month, day)) == DayNumber(Civil(year, month, 1)) + day - 1
  {
    hide YearStart, MonthStart;
  }

  lemma MonthLengthBounds(year: int, month: int)
    ensures 28 <= MonthLength(year, month) <= 31
    ensures month == 1 || month == 12 ==> MonthLength(year, month) == 31
  {
  }

  /** A date lies inside its March-based year. */
  lemma InsideMarchYear(c: Civil)
    requires IsDate(c)
    ensures 0 <= DayNumber(c) - YearStart(MarchYear(c))
              < YearStart(MarchYear(c) + 1) - YearStart(MarchYear(c))
  {
    YearStartStep(MarchYear(c));
  }

  /** A day comes before every later month of its March-based year. */
  lemma {:induction false} MonthsInOrder(c: Civil, marchMonth: int)
    requires IsDate(c) && MarchMonth(c) < marchMonth <= 11
    ensures MonthStart(MarchMonth(c)) + c.day <= MonthStart(marchMonth)
    decreases marchMonth
  {
    hide MonthStart;
    MonthStartSteps(marchMonth - 1);
    if MarchMonth(c) < marchMonth - 1 {
      MonthsInOrder(c, marchMonth - 1);
    }
  }

  lemma EarlierIsSmaller(a: Civil, b: Civil)
    requires IsDate(a) && IsDate(b) && Before(a, b)
    ensures DayNumber(a) < DayNumber(b)
  {
    hide YearStart, MonthStart, IsLeap;
    if MarchYear(a) < MarchYear(b) {
      InsideMarchYear(a);
      InsideMarchYear(b);
      YearStartMonotone(MarchYear(a) + 1, MarchYear(b));
    } else if MarchMonth(a) < MarchMonth(b) {
      MonthsInOrder(a, MarchMonth(b));
    }
  }

  /** Day numbers order dates exactly as year, month and day do. */
  lemma DayNumberOrders(a: Civil, b: Civil)
    requires IsDate(a) && IsDate(b)
    ensures Before(a, b) <==> DayNumber(a) < DayNumber(b)
    ensures a == b <==> DayNumber(a) == DayNumber(b)
  {
    if Before(a, b) { EarlierIsSmaller(a, b); }
    if Before(b, a) { EarlierIsSmaller(b, a); }
  }

  /** The date with a given day number is unique. */
  lemma CivilOfInverse(c: Civil)
    requires IsDate(c)
    ensures CivilOf(DayNumber(c)) == c
  {
    DayNumberOrders(c, CivilOf(DayNumber(c)));
  }
}
