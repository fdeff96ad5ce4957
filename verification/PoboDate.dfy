/** The Date structure: civil dates kept next to their day number, converted in closed form. */
module PoboDate {
  import opened Calendar

  /** C++ division of integers: the quotient is truncated toward zero. */
  function Quot(a: int, b: int): int
    requires b > 0
  {
    if a >= 0 then a / b else -((-a) / b)
  }

  function Rem(a: int, b: int): int
    requires b > 0
  {
    a - b * Quot(a, b)
  }

  /** Days before the March-based year y, as both conversions compute them. */
  function DaysBeforeYear(y: int): int {
    y * 365 + Quot(y, 4) - Quot(y, 100) + Quot(y, 400)
  }

  function ToDays(year: int, month: int, day: int): int {
    var m := Rem(month + 9, 12);
    var y := year - Quot(m, 10);
    DaysBeforeYear(y) + Quot(m * 306 + 5, 10) + (day - 1)
  }

  /** The first estimate of the March-based year. */
  function EstimateYear(days: int): int {
    Quot(10000 * days + 14780, 3652425)
  }

  /** The estimate, corrected once. */
  function MarchYearOf(days: int): int {
    var y := EstimateYear(days);
    if days - DaysBeforeYear(y) < 0 then y - 1 else y
  }

  /** The date at day offset ddd of the March-based year y. */
  function DateAt(y: int, ddd: int): Civil {
    var mi := Quot(52 + 100 * ddd, 3060);
    Civil(y + Quot(mi + 2, 12), Rem(mi + 2, 12) + 1, ddd - Quot(mi * 306 + 5, 10) + 1)
  }

  function FromDays(days: int): Civil {
    var y := MarchYearOf(days);
    DateAt(y, days - DaysBeforeYear(y))
  }

  /** Dates from 1 March of year 0 on: where truncating and floor division agree. */
  predicate InEra(c: Civil) {
    IsDate(c) && (c.year >= 1 || (c.year == 0 && c.month >= 3))
  }

  lemma EraIsDayZeroOn(c: Civil)
    requires IsDate(c)
    ensures InEra(c) <==> DayNumber(c) >= 0
  {
    var first := Civil(0, 3, 1);
    assert DayNumber(first) == 0;
    DayNumberOrders(c, first);
  }

  lemma DaysBeforeYearFromYearZero(y: int)
    requires y >= 0
    ensures DaysBeforeYear(y) == YearStart(y)
  {
  }

  lemma MarchMonthByRemainder(month: int)
    requires 1 <= month <= 12
    ensures var m := Rem(month + 9, 12);
      m == MarchMonth(Civil(0, month, 1)) && Quot(m, 10) == (if month <= 2 then 1 else 0)
  {
  }

  /** to_days counts calendar days from 1 March of year 0. */
  lemma ToDaysIsDayNumber(c: Civil)
    requires InEra(c)
    ensures ToDays(c.year, c.month, c.day) == DayNumber(c) >= 0
  {
    hide YearStart, DaysBeforeYear, Rem;
    EraIsDayZeroOn(c);
    MarchMonthByRemainder(c.month);
    DaysBeforeYearFromYearZero(MarchYear(c));
  }

  /** The drift between the true year starts and years of 365.2425 days stays within (-1.4776, 0.7201] days. */
  lemma YearDrift(y: int)
    requires y >= 0
    ensures -14775 <= 10000 * YearStart(y) - 3652425 * y <= 7200
  {
    var c, q, e := (y % 400) / 100, (y % 100) / 4, y % 4;
    assert y / 100 == 4 * (y / 400) + c;
    assert y / 4 == 100 * (y / 400) + 25 * c + q;
    assert y == 400 * (y / 400) + 100 * c + 4 * q + e;
  }

  /** The March-based year that contains a day number. */
  lemma ContainingYear(days: int) returns (y: int)
    requires days >= 0
    ensures y >= 0
    ensures YearStart(y) <= days < YearStart(y + 1)
  {
    var c := CivilOf(days);
    y := MarchYear(c);
    InsideMarchYear(c);
    EraIsDayZeroOn(c);
  }

  /** The estimate is the containing year or one too high, never too low. */
  lemma EstimateWithinOne(days: int, y: int)
    requires y >= 0 && days >= 0
    requires YearStart(y) <= days < YearStart(y + 1)
    ensures EstimateYear(days) == y || EstimateYear(days) == y + 1
  {
    hide YearStart;
    YearDrift(y);
    YearDrift(y + 1);
  }

  /** One correction lands on the containing year and leaves a day offset inside it. */
  lemma CorrectionSuffices(days: int)
    requires days >= 0
    ensures var y := MarchYearOf(days);
      && y >= 0
      && DaysBeforeYear(y) == YearStart(y) <= days < YearStart(y + 1)
      && 0 <= days - YearStart(y) <= (if IsLeap(y + 1) then 365 else 364)
  {
    hide YearStart, DaysBeforeYear, EstimateYear, IsLeap;
    var y := ContainingYear(days);
    EstimateWithinOne(days, y);
    YearStartStep(y);
    DaysBeforeYearFromYearZero(y);
    DaysBeforeYearFromYearZero(y + 1);
  }

  /** The month index computed from the day offset is the month whose span holds it. */
  lemma MonthIndexInSpan(ddd: int)
    requires 0 <= ddd <= 365
    ensures var mi := (52 + 100 * ddd) / 3060;
      0 <= mi <= 11 && MonthStart(mi) <= ddd && (mi < 11 ==> ddd < MonthStart(mi + 1))
  {
  }

  /** The calendar month of a March-based month index, and where its span ends. */
  lemma MonthFields(mi: int)
    requires 0 <= mi <= 11
    ensures 0 <= Quot(mi + 2, 12) == (if mi < 10 then 0 else 1)
    ensures Rem(mi + 2, 12) == (mi + 2) % 12
    ensures MonthStart(mi) == Quot(306 * mi + 5, 10)
    ensures mi < 11 ==> MonthStart(mi + 1) == MonthStart(mi) + MonthLength(0, (mi + 2) % 12 + 1)
    ensures mi == 11 ==> MonthStart(mi) == 337
  {
    if mi < 11 { MonthStartSteps(mi); }
  }

  lemma DateAtOffset(y: int, ddd: int)
    requires y >= 0
    requires 0 <= ddd <= (if IsLeap(y + 1) then 365 else 364)
    ensures IsDate(DateAt(y, ddd))
    ensures DayNumber(DateAt(y, ddd)) == YearStart(y) + ddd
  {
    var mi := (52 + 100 * ddd) / 3060;
    MonthIndexInSpan(ddd);
    MonthFields(mi);
    var c := Civil(if mi < 10 then y else y + 1, (mi + 2) % 12 + 1, ddd - MonthStart(mi) + 1);
    assert DateAt(y, ddd) == c by { hide YearStart, IsLeap; }
    hide YearStart, IsLeap, MonthStart;
    assert MarchMonth(c) == mi && MarchYear(c) == y;
  }

  /** from_days yields the date with that day number: the reference date, n calendar days after day 0. */
  lemma FromDaysIsCivilOf(days: int)
    requires days >= 0
    ensures InEra(FromDays(days))
    ensures FromDays(days) == CivilOf(days)
  {
    hide DateAt, YearStart, DaysBeforeYear, MarchYearOf, IsLeap, InEra, DayNumber;
    CorrectionSuffices(days);
    var y := MarchYearOf(days);
    DateAtOffset(y, days - YearStart(y));
    CivilOfInverse(FromDays(days));
    EraIsDayZeroOn(FromDays(days));
  }

  /** Round trip from a date. */
  lemma FromDaysToDays(c: Civil)
    requires InEra(c)
    ensures FromDays(ToDays(c.year, c.month, c.day)) == c
  {
    ToDaysIsDayNumber(c);
    FromDaysIsCivilOf(DayNumber(c));
    CivilOfInverse(c);
  }

  /** Round trip from a day number. */
  lemma ToDaysFromDays(days: int)
    requires days >= 0
    ensures InEra(FromDays(days))
    ensures var c := FromDays(days); ToDays(c.year, c.month, c.day) == days
  {
    FromDaysIsCivilOf(days);
    ToDaysIsDayNumber(FromDays(days));
  }

  lemma ToDaysOfLeapDay()
    ensures ToDays(0, 2, 29) == 0
  {
    assert Rem(11, 12) == 11 && Quot(11, 10) == 1;
    assert DaysBeforeYear(-1) == -365;
  }

  lemma ToDaysOfDayZero()
    ensures ToDays(0, 3, 1) == 0
  {
    assert Rem(12, 12) == 0;
    assert DaysBeforeYear(0) == 0;
  }

  /** Before the era the two conversions part: a leap day and the day after it share day number 0. */
  lemma LeapDayOfYearZeroCollides()
    ensures IsDate(Civil(0, 2, 29)) && !InEra(Civil(0, 2, 29))
    ensures ToDays(0, 2, 29) == ToDays(0, 3, 1) == 0
    ensures FromDays(ToDays(0, 2, 29)) == Civil(0, 3, 1)
  {
    hide ToDays, FromDays;
    ToDaysOfLeapDay();
    ToDaysOfDayZero();
    FromDaysToDays(Civil(0, 3, 1));
  }

  /** The March-based year before the era: all its days but the leap day come back. */
  lemma FromDaysBeforeEra(ddd: int)
    requires 306 <= ddd <= 364
    ensures FromDays(ddd - 365) == if ddd < 337 then Civil(0, 1, ddd - 305) else Civil(0, 2, ddd - 336)
  {
    assert DaysBeforeYear(0) == 0 && DaysBeforeYear(-1) == -365;
    assert EstimateYear(ddd - 365) == 0;
    assert MarchYearOf(ddd - 365) == -1;
    assert Quot(52 + 100 * ddd, 3060) == if ddd < 337 then 10 else 11;
  }

  lemma ToDaysBeforeEra(c: Civil)
    requires c.year == 0 && 1 <= c.month <= 2
    ensures ToDays(c.year, c.month, c.day) == (if c.month == 1 then 305 else 336) + c.day - 365
  {
    assert DaysBeforeYear(-1) == -365;
  }

  /** Of the dates of year 0, exactly 29 February does not survive the round trip. */
  lemma YearZeroExact(c: Civil)
    requires IsDate(c) && c.year == 0
    ensures FromDays(ToDays(c.year, c.month, c.day)) == c <==> c != Civil(0, 2, 29)
  {
    hide ToDays, FromDays;
    if c.month >= 3 {
      FromDaysToDays(c);
    } else if c == Civil(0, 2, 29) {
      LeapDayOfYearZeroCollides();
    } else {
      var ddd := (if c.month == 1 then 305 else 336) + c.day;
      ToDaysBeforeEra(c);
      FromDaysBeforeEra(ddd);
    }
  }

  /** Adding days to dates is an action of the integers: sums compose and cancel. */
  lemma AdditionComposes(c: Civil, n: int, k: int)
    requires InEra(c)
    requires ToDays(c.year, c.month, c.day) + n >= 0
    ensures var d := FromDays(ToDays(c.year, c.month, c.day) + n);
      && FromDays(ToDays(d.year, d.month, d.day) + k) == FromDays(ToDays(c.year, c.month, c.day) + (n + k))
      && FromDays(ToDays(d.year, d.month, d.day) - n) == c
  {
    hide ToDays, FromDays, InEra;
    ToDaysFromDays(ToDays(c.year, c.month, c.day) + n);
    FromDaysToDays(c);
  }

  lemma FromDaysSteps(days: int)
    ensures var y := Quot(10000 * days + 14780, 3652425);
      MarchYearOf(days) == if days - DaysBeforeYear(y) < 0 then y - 1 else y
    ensures FromDays(days) == DateAt(MarchYearOf(days), days - DaysBeforeYear(MarchYearOf(days)))
  {
    hide Quot, DaysBeforeYear, DateAt;
  }

  lemma DateAtSteps(y: int, ddd: int)
    ensures var mi := Quot(52 + 100 * ddd, 3060);
      DateAt(y, ddd) == Civil(y + Quot(mi + 2, 12), Rem(mi + 2, 12) + 1, ddd - Quot(mi * 306 + 5, 10) + 1)
  {
    hide Quot, Rem;
  }

  /** A date together with the day number the operators work on. */
  class Date {
    var year: int
    var month: int
    var day: int
    var days: int

    function Value(): Civil
      reads this
    {
      Civil(year, month, day)
    }

    /** The day number kept beside the fields is the one they convert to. */
    ghost predicate Consistent()
      reads this
    {
      days == ToDays(year, month, day)
    }

    /** What every operator leaves behind while day numbers stay non-negative. */
    ghost predicate Valid()
      reads this
    {
      Consistent() && InEra(Value())
    }

    constructor (year: int, month: int, day: int)
      ensures Value() == Civil(year, month, day)
      ensures Consistent()
    {
      this.year, this.month, this.day := year, month, day;
      this.days := ToDays(year, month, day);
    }

    constructor Copy(date: Date)
      ensures Value() == date.Value() && days == date.days
    {
      year, month, day := date.year, date.month, date.day;
      days := date.days;
    }

    method Assign(date: Date)
      modifies this
      ensures Value() == old(date.Value())
      ensures Consistent()
    {
      year := date.year;
      month := date.month;
      day := date.day;
      days := ToDays(year, month, day);
    }

    method SetFromDays(days: int)
      modifies this
      ensures this.days == days
      ensures Value() == FromDays(days)
      ensures days >= 0 ==> Valid() && Value() == CivilOf(days)
    {
      hide CivilOf, ToDays, Quot, Rem, DaysBeforeYear, InEra, EstimateYear, MarchYearOf, FromDays, DateAt;
      FromDaysSteps(days);
      this.days := days;
      var y := Quot(10000 * days + 14780, 3652425);
      var ddd := days - DaysBeforeYear(y);
      if ddd < 0 {
        y := y - 1;
        ddd := days - DaysBeforeYear(y);
      }
      assert y == MarchYearOf(days);
      DateAtSteps(y, ddd);
      var mi := Quot(52 + 100 * ddd, 3060);
      year := y + Quot(mi + 2, 12);
      month := Rem(mi + 2, 12) + 1;
      day := ddd - Quot(mi * 306 + 5, 10) + 1;
      if days >= 0 {
        FromDaysIsCivilOf(days);
        ToDaysFromDays(days);
      }
    }

    method AddAssign(n: int)
      modifies this
      ensures days == old(days) + n
      ensures Value() == FromDays(days)
      ensures days >= 0 ==> Valid() && Value() == CivilOf(days)
    {
      SetFromDays(days + n);
    }

    method SubtractAssign(n: int)
      modifies this
      ensures days == old(days) - n
      ensures Value() == FromDays(days)
      ensures days >= 0 ==> Valid() && Value() == CivilOf(days)
    {
      SetFromDays(days - n);
    }

    method Add(n: int) returns (r: Date)
      ensures fresh(r) && r.days == days + n
      ensures r.Value() == FromDays(r.days)
      ensures r.days >= 0 ==> r.Valid() && r.Value() == CivilOf(r.days)
    {
      r := new Date.Copy(this);
      r.SetFromDays(r.days + n);
    }

    method Subtract(n: int) returns (r: Date)
      ensures fresh(r) && r.days == days - n
      ensures r.Value() == FromDays(r.days)
      ensures r.days >= 0 ==> r.Valid() && r.Value() == CivilOf(r.days)
    {
      r := new Date.Copy(this);
      r.SetFromDays(r.days - n);
    }

    predicate Greater(other: Date)
      reads this, other
    {
      days > other.days
    }

    predicate Less(other: Date)
      reads this, other
    {
      days < other.days
    }

    predicate GreaterOrEqual(other: Date)
      reads this, other
    {
      days >= other.days
    }

    predicate LessOrEqual(other: Date)
      reads this, other
    {
      days <= other.days
    }

    predicate Equal(other: Date)
      reads this, other
    {
      days == other.days
    }

    function Minus(other: Date): int
      reads this, other
    {
      days - other.days
    }
  }

  lemma InEraIsDate(c: Civil)
    requires InEra(c)
    ensures IsDate(c)
  {
  }

  /** Between valid dates the operators compare and subtract calendar dates, not just stored numbers. */
  lemma OperatorsFollowCalendar(a: Date, b: Date)
    requires a.Valid() && b.Valid()
    ensures a.Less(b) <==> Before(a.Value(), b.Value())
    ensures a.Greater(b) <==> Before(b.Value(), a.Value())
    ensures a.LessOrEqual(b) <==> !Before(b.Value(), a.Value())
    ensures a.GreaterOrEqual(b) <==> !Before(a.Value(), b.Value())
    ensures a.Equal(b) <==> a.Value() == b.Value()
    ensures CivilOf(DayNumber(b.Value()) + a.Minus(b)) == a.Value()
  {
    hide ToDays, DayNumber, CivilOf, InEra, Before;
    ToDaysIsDayNumber(a.Value());
    ToDaysIsDayNumber(b.Value());
    InEraIsDate(a.Value());
    InEraIsDate(b.Value());
    CivilOfInverse(a.Value());
    DayNumberOrders(a.Value(), b.Value());
    DayNumberOrders(b.Value(), a.Value());
  }

  /** d += n and then d -= n leaves a valid date as it was. */
  method AddThenSubtract(d: Date, n: int)
    requires d.Valid() && d.days + n >= 0
    modifies d
    ensures d.Valid() && d.Value() == old(d.Value())
  {
    FromDaysToDays(d.Value());
    d.AddAssign(n);
    d.SubtractAssign(n);
  }
}
