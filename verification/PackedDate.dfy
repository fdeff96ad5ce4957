/** Dates packed into one decimal number YYYYMMDD, computed with month tables and year loops. */
module PackedDate {
  import opened Calendar
  import PoboDate

  const MAX_SHORT := 32767

  /** The value a 16-bit short keeps of an integer. */
  function Short(x: int): int {
    (x + 32768) % 65536 - 32768
  }

  function Pack(c: Civil): int {
    c.year * 10000 + c.month * 100 + c.day
  }

  function Unpack(rq: int): Civil {
    Civil(rq / 10000, rq % 10000 / 100, rq % 100)
  }

  predicate IsPacked(rq: int) {
    rq >= 0 && IsDate(Unpack(rq))
  }

  function MonthTable(year: int): (t: seq<int>)
    ensures |t| == 12
    ensures forall i :: 0 <= i < 12 ==> t[i] == MonthLength(year, i + 1)
  {
    if IsLeap(year) then [31, 29, 31, 30, 31, 30, 31, 31, 30, 31, 30, 31]
    else [31, 28, 31, 30, 31, 30, 31, 31, 30, 31, 30, 31]
  }

  lemma RemainderOf100(a: int, b: int)
    ensures (100 * a + b) % 100 == b % 100
  {
    assert (100 * a + b) / 100 == a + b / 100;
  }

  lemma LowerFields(rq: int)
    ensures rq % 10000 % 100 == rq % 100
  {
    RemainderOf100(100 * (rq / 10000), rq % 10000);
  }

  lemma PackUnpack(rq: int)
    requires rq >= 0
    ensures Pack(Unpack(rq)) == rq
  {
    LowerFields(rq);
  }

  lemma SplitBy100(q: int, r: int)
    requires 0 <= r < 100
    ensures (100 * q + r) / 100 == q && (100 * q + r) % 100 == r
  {
  }

  lemma SplitBy10000(q: int, r: int)
    requires 0 <= r < 10000
    ensures (10000 * q + r) / 10000 == q && (10000 * q + r) % 10000 == r
  {
  }

  lemma UnpackPack(c: Civil)
    requires IsDate(c) && c.year >= 0
    ensures Unpack(Pack(c)) == c
    ensures IsPacked(Pack(c))
  {
    SplitBy10000(c.year, 100 * c.month + c.day);
    SplitBy100(c.month, c.day);
    LowerFields(Pack(c));
  }

  lemma FieldsInRange(rq: int)
    requires IsPacked(rq)
    ensures IsDate(Unpack(rq))
    ensures var c := Unpack(rq); c.year >= 0 && 1 <= c.month <= 12 && 1 <= c.day <= 31
  {
  }

  /** Packed numbers compare as their dates do. */
  lemma PackOrders(a: int, b: int)
    requires IsPacked(a) && IsPacked(b)
    ensures a <= b <==> DayNumber(Unpack(a)) <= DayNumber(Unpack(b))
  {
    hide IsDate, DayNumber;
    PackUnpack(a);
    PackUnpack(b);
    FieldsInRange(a);
    FieldsInRange(b);
    DayNumberOrders(Unpack(b), Unpack(a));
  }

  function GetNextDate(rq: int): (r: int)
    requires rq >= 0 && 1 <= rq / 100 % 100 <= 12
  {
    var year, mon, day := rq / 10000, rq / 100 % 100, rq % 100;
    if day < MonthTable(year)[mon - 1] then rq + 1
    else if mon < 12 then year * 10000 + 100 * (mon + 1) + 1
    else (year + 1) * 10000 + 101
  }

  lemma ShortFits(x: int)
    requires 0 <= x < 65536
    ensures Short(x) == if x <= MAX_SHORT then x else x - 65536
  {
  }

  function GetPreviousDate(rq: int): (r: int)
    requires rq >= 0 && 1 <= Unpack(rq).month <= 12
  {
    ShortFits(rq % 10000);
    var year := Short(rq / 10000);
    var mon := Short(rq % 10000) / 100;
    var day := Short(Short(rq % 10000) % 100);
    if day > 1 then rq - 1
    else if mon > 1 then year * 10000 + 100 * (mon - 1) + MonthTable(year)[mon - 2]
    else (year - 1) * 10000 + 1231
  }

  lemma MonthField(rq: int)
    requires rq >= 0
    ensures rq / 100 % 100 == Unpack(rq).month
  {
    assert rq / 100 == 100 * (rq / 10000) + rq % 10000 / 100;
  }

  lemma NextDateIsNext(rq: int)
    requires IsPacked(rq)
    ensures 1 <= rq / 100 % 100 <= 12
    ensures IsPacked(GetNextDate(rq))
    ensures Unpack(GetNextDate(rq)) == Next(Unpack(rq))
  {
    hide IsLeap;
    var c := Unpack(rq);
    PackUnpack(rq);
    FieldsInRange(rq);
    MonthField(rq);
    UnpackPack(Next(c));
    hide Unpack, MonthLength;
    assert rq / 10000 == c.year && rq % 100 == c.day by { assert c == Unpack(rq); }
    assert GetNextDate(rq) == Pack(Next(c));
  }

  lemma ShortDiffers(x: int)
    requires x > MAX_SHORT
    ensures Short(x) <= x - 65536
  {
  }

  /** The predecessor is exact unless the year is reassembled after not fitting a short. */
  lemma PreviousDateExact(rq: int)
    requires IsPacked(rq)
    ensures GetPreviousDate(rq) == Pack(Previous(Unpack(rq)))
       <==> (Unpack(rq).day > 1 || Unpack(rq).year <= MAX_SHORT)
  {
    hide IsLeap;
    var c := Unpack(rq);
    PackUnpack(rq);
    FieldsInRange(rq);
    ShortFits(rq % 10000);
    ShortFits(c.day);
    assert rq % 10000 % 100 == c.day;
    if c.year <= MAX_SHORT { ShortFits(c.year); } else { ShortDiffers(c.year); }
    hide Short, Unpack, MonthLength;
  }

  lemma NextIsUndone(c: Civil)
    requires IsDate(c)
    ensures Previous(Next(c)) == c
  {
    hide IsLeap;
  }

  /** The predecessor undoes the successor exactly under the same condition on the successor. */
  lemma PreviousUndoesNext(rq: int) returns (next: int)
    requires IsPacked(rq)
    ensures 1 <= rq / 100 % 100 <= 12 && next == GetNextDate(rq)
    ensures IsPacked(next) && Unpack(next) == Next(Unpack(rq))
    ensures GetPreviousDate(next) == rq <==> Unpack(next).day > 1 || Unpack(next).year <= MAX_SHORT
  {
    hide GetPreviousDate, GetNextDate, Unpack, Pack, Next, Previous, IsDate;
    FieldsInRange(rq);
    NextDateIsNext(rq);
    next := GetNextDate(rq);
    PreviousDateExact(next);
    NextIsUndone(Unpack(rq));
    PackUnpack(rq);
  }

  /** A witness: the day before the first of year 32768 is put together from a year that wrapped. */
  lemma WrappedPrevious()
    ensures Unpack(327680101).month == 1 && GetPreviousDate(327680101) == -327688769
  {
  }

  function NextDates(rq: int, n: nat): (r: int)
    requires IsPacked(rq)
    ensures IsPacked(r)
    decreases n
  {
    if n == 0 then rq
    else
      NextDateIsNext(rq);
      NextDates(GetNextDate(rq), n - 1)
  }

  /** n single steps reach the date whose day number is n higher. */
  lemma {:induction false} NextDatesAddDays(rq: int, n: nat)
    requires IsPacked(rq)
    ensures Unpack(NextDates(rq, n)) == CivilOf(DayNumber(Unpack(rq)) + n)
    decreases n
  {
    hide DayNumber, IsDate, GetNextDate, Next;
    FieldsInRange(rq);
    CivilOfInverse(Unpack(rq));
    if n > 0 {
      NextDateIsNext(rq);
      NextAddsOne(Unpack(rq));
      NextDatesAddDays(GetNextDate(rq), n - 1);
    }
  }

  /** The two libraries agree: n packed steps equal adding n days to a Date. */
  lemma NextDatesIsDateAddition(rq: int, n: nat)
    requires IsPacked(rq) && PoboDate.InEra(Unpack(rq))
    ensures var c := Unpack(rq);
      Unpack(NextDates(rq, n)) == PoboDate.FromDays(PoboDate.ToDays(c.year, c.month, c.day) + n)
  {
    hide *;
    var c := Unpack(rq);
    NextDatesAddDays(rq, n);
    PoboDate.ToDaysIsDayNumber(c);
    PoboDate.FromDaysIsCivilOf(PoboDate.ToDays(c.year, c.month, c.day) + n);
  }

  /** The position of a date in its year, 1 January being day 1. */
  function DayOfYear(c: Civil): int {
    DayNumber(c) - DayNumber(Civil(c.year, 1, 1)) + 1
  }

  lemma DayInMonth(year: int, mon: int, day: int)
    ensures DayNumber(Civil(year, mon, day)) == DayNumber(Civil(year, mon, 1)) + day - 1
  {
    hide YearStart, MonthStart;
  }

  method DaysOfYear(year: int, mon: int, day: int) returns (days: int)
    requires 1 <= mon <= 12
    ensures days == DayOfYear(Civil(year, mon, day))
  {
    hide DayNumber, MonthLength, IsLeap;
    var daysOfMon := MonthTable(year);
    days := 0;
    var i := 0;
    while i < mon - 1
      invariant 0 <= i <= mon - 1
      invariant days == DayNumber(Civil(year, i + 1, 1)) - DayNumber(Civil(year, 1, 1))
    {
      MonthFollows(year, i + 1);
      days := days + daysOfMon[i];
      i := i + 1;
    }
    DayInMonth(year, mon, day);
    days := days + day;
  }

  function YearLength(year: int): int {
    if IsLeap(year) then 366 else 365
  }

  lemma YearFollows(year: int)
    ensures DayNumber(Civil(year + 1, 1, 1)) == DayNumber(Civil(year, 1, 1)) + YearLength(year)
  {
    YearStartStep(year - 1);
  }

  /** The inclusive number of days between two dates, negative when they are given in reverse. */
  function DaysBetween(a: Civil, b: Civil): int {
    if DayNumber(a) <= DayNumber(b) then DayNumber(b) - DayNumber(a) + 1
    else -(DayNumber(a) - DayNumber(b) + 1)
  }

  /** The date whose year is what a short keeps of it. */
  function Cast(c: Civil): Civil {
    c.(year := Short(c.year))
  }

  /** What is counted between two cast dates: the whole years between them only where their casts ascend. */
  function CastCount(a: Civil, b: Civil): int {
    if a.year == b.year then DayNumber(b) - DayNumber(a) + 1
    else
      var first := Short(a.year + 1);
      DayOfYear(b) + YearLength(a.year) - DayOfYear(a) + 1
      + if first < b.year then DayNumber(Civil(b.year, 1, 1)) - DayNumber(Civil(first, 1, 1)) else 0
  }

  /** Years a short holds are counted truly. */
  lemma CastCountIsExact(a: Civil, b: Civil)
    requires IsDate(a) && IsDate(b) && 0 <= a.year <= MAX_SHORT && 0 <= b.year <= MAX_SHORT
    requires DayNumber(a) <= DayNumber(b)
    ensures Cast(a) == a && Cast(b) == b && CastCount(a, b) == DaysBetween(a, b)
  {
    hide IsDate, DayNumber, YearLength, Short;
    ShortFits(a.year);
    ShortFits(b.year);
    ShortFits(a.year + 1);
    DayNumberOrders(b, a);
    YearFollows(a.year);
  }

  /** Months and days survive the cast to short. */
  lemma FieldsFitShort(rq: int)
    requires IsPacked(rq)
    ensures var c := Unpack(rq);
      && Short(rq % 10000 / 100) == c.month && 1 <= c.month <= 12
      && Short(rq % 10000 % 100) == c.day
      && Short(rq / 10000) == Cast(c).year && c.year >= 0
  {
    hide IsPacked, IsDate, Short;
    FieldsInRange(rq);
    LowerFields(rq);
    var c := Unpack(rq);
    ShortFits(c.month);
    ShortFits(c.day);
  }

  lemma CountIsDayOfYear(a: Civil, b: Civil)
    requires a.year == b.year
    ensures CastCount(a, b) == DayOfYear(b) - DayOfYear(a) + 1
  {
    hide DayNumber;
  }

  lemma CountByYears(a: Civil, b: Civil)
    requires a.year != b.year
    ensures var first := Short(a.year + 1);
      CastCount(a, b) == DayOfYear(b) + (YearLength(a.year) - DayOfYear(a)) + 1
        + if first < b.year then DayNumber(Civil(b.year, 1, 1)) - DayNumber(Civil(first, 1, 1)) else 0
  {
    hide DayNumber, DayOfYear, YearLength, Short;
  }

  lemma CastKeeps(c: Civil)
    ensures Cast(c) == Civil(Cast(c).year, c.month, c.day)
  {
  }

  /** For years a short holds the cast count, signed by the order of the packed numbers, is the true one. */
  lemma OrderedCount(startRq: int, endRq: int)
    requires IsPacked(startRq) && IsPacked(endRq)
    requires Unpack(startRq).year <= MAX_SHORT && Unpack(endRq).year <= MAX_SHORT
    ensures var a, b := Unpack(startRq), Unpack(endRq);
      DaysBetween(a, b) == if startRq <= endRq then CastCount(Cast(a), Cast(b)) else -CastCount(Cast(b), Cast(a))
  {
    hide IsDate, DayNumber, Unpack, Cast, CastCount;
    PackOrders(startRq, endRq);
    PackOrders(endRq, startRq);
    FieldsInRange(startRq);
    FieldsInRange(endRq);
    if startRq <= endRq {
      CastCountIsExact(Unpack(startRq), Unpack(endRq));
    } else {
      CastCountIsExact(Unpack(endRq), Unpack(startRq));
    }
  }

  /** The position of a date in its year: only dates from March on depend on the length of the year. */
  lemma DayOfYearForm(c: Civil)
    requires 1 <= c.month <= 12
    ensures c.month <= 2 ==> DayOfYear(c) == 31 * (c.month - 1) + c.day
    ensures c.month >= 3 ==> DayOfYear(c) == MonthStart(c.month - 3) + c.day + YearLength(c.year) - 306
  {
    assert MonthStart(10) == 306 && MonthStart(11) == 337;
    hide YearStart, MonthStart, IsLeap;
    YearStartStep(c.year - 1);
  }

  /** The days of some year, year 0 being a leap year, lie inside every year. */
  lemma DayOfYearInYear(c: Civil)
    requires 1 <= c.month <= 12 && 1 <= c.day <= MonthLength(0, c.month)
    ensures 1 <= DayOfYear(c) <= YearLength(c.year)
  {
    hide DayOfYear;
    DayOfYearForm(c);
  }

  /** In another year the position differs by at most the leap day. */
  lemma DayOfYearElsewhere(c: Civil, year: int)
    requires 1 <= c.month <= 12
    ensures -1 <= DayOfYear(c) - DayOfYear(c.(year := year)) <= 1
  {
    hide DayOfYear, MonthStart;
    DayOfYearForm(c);
    DayOfYearForm(c.(year := year));
  }

  lemma AnyDateIsOfLeapYear(c: Civil)
    requires IsDate(c)
    ensures 1 <= c.month <= 12 && 1 <= c.day <= MonthLength(0, c.month)
  {
    assert IsLeap(0);
    hide IsLeap;
  }

  lemma {:induction false} YearsApart(x: int, y: int)
    requires x <= y
    ensures DayNumber(Civil(y, 1, 1)) - DayNumber(Civil(x, 1, 1)) >= 365 * (y - x)
    decreases y - x
  {
    hide DayNumber, IsLeap;
    if x < y {
      YearsApart(x, y - 1);
      YearFollows(y - 1);
    }
  }

  lemma SameShort(x: int, y: int)
    requires x < y && Short(x) == Short(y)
    ensures y >= x + 65536
  {
  }

  /** Counts between different cast years are positive, and those inside one cast year small. */
  lemma CastCountBounds(a: Civil, b: Civil)
    requires 1 <= a.month <= 12 && 1 <= a.day <= MonthLength(0, a.month)
    requires 1 <= b.month <= 12 && 1 <= b.day <= MonthLength(0, b.month)
    ensures a.year != b.year ==> CastCount(a, b) >= 2
    ensures a.year == b.year ==> -364 <= CastCount(a, b) <= 366
  {
    hide DayNumber, DayOfYear, IsLeap, Short, MonthLength, CastCount;
    DayOfYearInYear(a);
    DayOfYearInYear(b);
    if a.year == b.year {
      CountIsDayOfYear(a, b);
    } else {
      CountByYears(a, b);
      if Short(a.year + 1) < b.year { YearsApart(Short(a.year + 1), b.year); }
    }
  }

  /** The day number of a date by its year and its position in it. */
  lemma ByYear(c: Civil)
    ensures DayNumber(c) == DayNumber(Civil(c.year, 1, 1)) + DayOfYear(c) - 1
  {
    hide DayNumber;
  }

  /** Dates in years far apart are far apart. */
  lemma DatesApart(a: Civil, b: Civil)
    requires IsDate(a) && IsDate(b) && a.year <= b.year
    ensures DayNumber(b) - DayNumber(a) >= 365 * (b.year - a.year) - 366
  {
    hide DayNumber, DayOfYear, IsDate, IsLeap, MonthLength;
    AnyDateIsOfLeapYear(a);
    AnyDateIsOfLeapYear(b);
    DayOfYearInYear(a);
    DayOfYearInYear(b);
    ByYear(a);
    ByYear(b);
    YearsApart(a.year, b.year);
  }

  lemma SameYearCount(a: Civil, b: Civil)
    requires IsDate(a) && IsDate(b) && a.year == b.year && DayNumber(a) <= DayNumber(b)
    ensures CastCount(Cast(a), Cast(b)) != DayNumber(a) - DayNumber(b)
  {
    hide DayNumber, DayOfYear, IsDate, Short, MonthLength, CastCount;
    AnyDateIsOfLeapYear(a);
    AnyDateIsOfLeapYear(b);
    DayNumberOrders(b, a);
    CountIsDayOfYear(Cast(a), Cast(b));
    DayOfYearElsewhere(a, Short(a.year));
    DayOfYearElsewhere(b, Short(b.year));
    ByYear(a);
    ByYear(b);
  }

  /** Whatever the years, what is counted is not the difference of the day numbers. */
  lemma CastCountIsNoDifference(a: Civil, b: Civil)
    requires IsDate(a) && IsDate(b) && DayNumber(a) <= DayNumber(b)
    ensures CastCount(Cast(a), Cast(b)) != DayNumber(a) - DayNumber(b)
  {
    hide DayNumber, DayOfYear, IsDate, Short, MonthLength, CastCount;
    AnyDateIsOfLeapYear(a);
    AnyDateIsOfLeapYear(b);
    DayNumberOrders(b, a);
    CastCountBounds(Cast(a), Cast(b));
    if a.year == b.year {
      SameYearCount(a, b);
    } else if Short(a.year) == Short(b.year) {
      SameShort(a.year, b.year);
      DatesApart(a, b);
    }
  }

  /** From a year below the last that a short holds, a count to a year that wraps is wrong. */
  lemma WrappedCountIsWrong(a: Civil, b: Civil)
    requires IsDate(a) && IsDate(b) && 0 <= a.year < MAX_SHORT < b.year
    ensures CastCount(Cast(a), Cast(b)) != DaysBetween(a, b)
  {
    hide DayNumber, DayOfYear, IsDate, YearLength, Short, MonthLength, CastCount;
    AnyDateIsOfLeapYear(a);
    AnyDateIsOfLeapYear(b);
    ShortFits(a.year);
    ShortFits(a.year + 1);
    ShortDiffers(b.year);
    DayNumberOrders(b, a);
    var year := Short(b.year);
    DayOfYearElsewhere(b, year);
    ByYear(a);
    ByYear(b);
    YearFollows(a.year);
    YearsApart(a.year + 1, b.year);
    if year == a.year {
      CastCountBounds(Cast(a), Cast(b));
      DatesApart(a, b);
    } else {
      CountByYears(Cast(a), Cast(b));
      if a.year < year { YearsApart(year, b.year); }
    }
  }

  /** From a year below the last that a short holds, the count is the true one exactly to years a short holds. */
  lemma CountExact(a: Civil, b: Civil)
    requires IsDate(a) && IsDate(b) && 0 <= a.year < MAX_SHORT && DayNumber(a) <= DayNumber(b)
    ensures CastCount(Cast(a), Cast(b)) == DaysBetween(a, b) <==> b.year <= MAX_SHORT
  {
    hide DayNumber, IsDate, Short, CastCount, DaysBetween, Cast;
    DayNumberOrders(b, a);
    if b.year <= MAX_SHORT { CastCountIsExact(a, b); } else { WrappedCountIsWrong(a, b); }
  }

  /** The same of the packed numbers, in either order. */
  lemma CountsOfPacked(startRq: int, endRq: int)
    requires IsPacked(startRq) && IsPacked(endRq)
    ensures var a, b := Unpack(startRq), Unpack(endRq);
      var n := if startRq <= endRq then CastCount(Cast(a), Cast(b)) else -CastCount(Cast(b), Cast(a));
      && n != DayNumber(a) - DayNumber(b)
      && (startRq <= endRq && a.year < MAX_SHORT ==> (n == DaysBetween(a, b) <==> b.year <= MAX_SHORT))
      && (startRq > endRq && b.year < MAX_SHORT ==> (n == DaysBetween(a, b) <==> a.year <= MAX_SHORT))
  {
    hide IsDate, DayNumber, Unpack, Cast, CastCount;
    PackOrders(startRq, endRq);
    PackOrders(endRq, startRq);
    FieldsInRange(startRq);
    FieldsInRange(endRq);
    var a, b := Unpack(startRq), Unpack(endRq);
    if startRq <= endRq {
      CastCountIsNoDifference(a, b);
      if a.year < MAX_SHORT { CountExact(a, b); }
    } else {
      CastCountIsNoDifference(b, a);
      if b.year < MAX_SHORT { CountExact(b, a); }
    }
  }

  lemma FirstOfYear(year: int)
    ensures DayOfYear(Civil(year, 1, 1)) == 1
  {
    hide DayNumber;
  }

  lemma WitnessYears()
    ensures YearLength(2000) == 366 && YearLength(32767) == 365 && YearLength(-32768) == 366
  {
  }

  lemma WitnessShorts()
    ensures Short(2000) == 2000 && Short(2001) == 2001 && Short(32767) == 32767
    ensures Short(40000) == -25536 && Short(32768) == -32768 && Short(32769) == -32767
  {
  }

  /** Witnesses: counts to years that wrap. */
  lemma WrappedCounts()
    ensures CastCount(Cast(Civil(2000, 1, 1)), Cast(Civil(40000, 1, 1))) == 367
    ensures CastCount(Cast(Civil(32767, 1, 1)), Cast(Civil(32769, 1, 1))) == 732
  {
    hide DayNumber, DayOfYear, YearLength, Short, CastCount;
    WitnessShorts();
    WitnessYears();
    FirstOfYear(2000);
    FirstOfYear(-25536);
    CountByYears(Civil(2000, 1, 1), Civil(-25536, 1, 1));
    FirstOfYear(32767);
    FirstOfYear(-32767);
    CountByYears(Civil(32767, 1, 1), Civil(-32767, 1, 1));
    YearFollows(-32768);
  }

  method DaysNum(startRq: int, endRq: int) returns (days: int)
    requires IsPacked(startRq) && IsPacked(endRq)
    ensures startRq <= endRq ==> days == CastCount(Cast(Unpack(startRq)), Cast(Unpack(endRq)))
    ensures startRq > endRq ==> days == -CastCount(Cast(Unpack(endRq)), Cast(Unpack(startRq)))
    ensures Unpack(startRq).year <= MAX_SHORT && Unpack(endRq).year <= MAX_SHORT
      ==> days == DaysBetween(Unpack(startRq), Unpack(endRq))
    // from a year below the last one, the count is true exactly to years a short holds
    ensures startRq <= endRq && Unpack(startRq).year < MAX_SHORT
      ==> (days == DaysBetween(Unpack(startRq), Unpack(endRq)) <==> Unpack(endRq).year <= MAX_SHORT)
    ensures startRq > endRq && Unpack(endRq).year < MAX_SHORT
      ==> (days == DaysBetween(Unpack(startRq), Unpack(endRq)) <==> Unpack(startRq).year <= MAX_SHORT)
    ensures days != DayNumber(Unpack(startRq)) - DayNumber(Unpack(endRq))
  {
    hide DaysBetween;
    hide IsDate, DayNumber, YearLength, Short, Unpack, Cast, DayOfYear, CastCount;
    var sign, start, end := 1, startRq, endRq;
    if start > end {
      sign, start, end := -1, end, start;
    }
    if Unpack(startRq).year <= MAX_SHORT && Unpack(endRq).year <= MAX_SHORT { OrderedCount(startRq, endRq); }
    CountsOfPacked(startRq, endRq);
    FieldsFitShort(start);
    FieldsFitShort(end);
    ghost var a, b := Cast(Unpack(start)), Cast(Unpack(end));
    CastKeeps(Unpack(start));
    CastKeeps(Unpack(end));
    var startYear, endYear := Short(start / 10000), Short(end / 10000);
    var mon, day := Short(end % 10000 / 100), Short(end % 10000 % 100);
    days := DaysOfYear(endYear, mon, day);
    mon, day := Short(start % 10000 / 100), Short(start % 10000 % 100);
    var d := DaysOfYear(startYear, mon, day);
    assert days == DayOfYear(b) && d == DayOfYear(a);
    if startYear == endYear {
      CountIsDayOfYear(a, b);
      return (days - d + 1) * sign;
    }
    days := days + (YearLength(startYear) - d) + 1;
    var i := Short(startYear + 1);
    ghost var first, partial := i, days;
    while i < endYear
      invariant first <= i && (i == first || i <= endYear)
      invariant days == partial + (DayNumber(Civil(i, 1, 1)) - DayNumber(Civil(first, 1, 1)))
    {
      YearFollows(i);
      days := days + YearLength(i);
      i := i + 1;  // at most endYear: no wrap
    }
    CountByYears(a, b);
    days := days * sign;
  }

  /** The count is never the difference of the day numbers: it has the opposite sign and includes both ends. */
  lemma CountIsNoDifference(a: Civil, b: Civil)
    ensures DayNumber(a) <= DayNumber(b) ==> DaysBetween(a, b) == -(DayNumber(a) - DayNumber(b)) + 1
    ensures DayNumber(a) > DayNumber(b) ==> DaysBetween(a, b) == -(DayNumber(a) - DayNumber(b)) - 1
    ensures DaysBetween(a, b) != DayNumber(a) - DayNumber(b)
  {
    hide DayNumber;
  }

  /** date1 - date2 by its documentation; a zero date2 stands for today. */
  method DateMinus(date1: int, date2: int, today: int) returns (days: int)
    requires IsPacked(date1) && IsPacked(today) && (date2 == 0 || IsPacked(date2))
    ensures var a, b := Unpack(date1), Unpack(if date2 == 0 then today else date2);
      && (a.year <= MAX_SHORT && b.year <= MAX_SHORT ==> days == DaysBetween(a, b))
      && days != DayNumber(a) - DayNumber(b)
  {
    hide IsPacked, DayNumber, Unpack, DaysBetween, CastCount, Cast;
    var date := if date2 == 0 then today else date2;
    days := DaysNum(date1, date);
  }

  const FIRST_WEEK_DATE := 19800101

  lemma FirstWeekDate()
    ensures IsPacked(FIRST_WEEK_DATE) && Unpack(FIRST_WEEK_DATE) == Civil(1980, 1, 1)
  {
    hide IsLeap;
    assert FIRST_WEEK_DATE == Pack(Civil(1980, 1, 1));
    UnpackPack(Civil(1980, 1, 1));
  }

  /** Days since Sunday, 30 December 1979. */
  function WeekCount(c: Civil): int {
    DayNumber(c) - DayNumber(Civil(1980, 1, 1)) + 2
  }

  /** Dates before 1980 all answer 2; from then on the answer grows by one each day. */
  method GetWeek(date: int) returns (r: int)
    requires date >= FIRST_WEEK_DATE ==> IsPacked(date)
    ensures date < FIRST_WEEK_DATE ==> r == 2
    ensures FIRST_WEEK_DATE <= date ==> (r == WeekCount(Unpack(date)) <==> Unpack(date).year <= MAX_SHORT)
    ensures FIRST_WEEK_DATE <= date ==> r == CastCount(Civil(1980, 1, 1), Cast(Unpack(date))) + 1
  {
    hide IsDate, DayNumber, Unpack, CastCount;
    if date < FIRST_WEEK_DATE {
      return 2;
    }
    FirstWeekDate();
    assert Cast(Civil(1980, 1, 1)) == Civil(1980, 1, 1);
    PackOrders(FIRST_WEEK_DATE, date);
    r := DaysNum(FIRST_WEEK_DATE, date);
    r := r + 1;
  }

  /** Zeller's congruence, with Sunday as day 0. */
  function Weekday(c: Civil): int {
    var m := if c.month <= 2 then c.month + 12 else c.month;
    var y := if c.month <= 2 then c.year - 1 else c.year;
    var k, j := y % 100, y / 100;
    (c.day + 13 * (m + 1) / 5 + k + k / 4 + j / 4 + 5 * j + 6) % 7
  }

  lemma RemainderBySeven(a: int, q: int, w: int)
    requires a == 7 * q + w
    ensures a % 7 == w % 7
  {
  }

  lemma FirstWeekDayNumber()
    ensures DayNumber(Civil(1980, 1, 1)) == 723120
  {
  }

  lemma YearStartBySeven(y: int)
    ensures var k, j := y % 100, y / 100;
      YearStart(y) == k + k / 4 + j / 4 + 5 * j + 7 * (52 * y + 17 * j)
  {
    assert y / 4 == 25 * (y / 100) + y % 100 / 4;
  }

  lemma MonthStartBySeven(mm: int)
    requires 0 <= mm <= 11
    ensures MonthStart(mm) + 10 == 13 * (mm + 4) / 5 + 28 * mm
  {
  }

  /** The remainder by seven of what GetWeek returns is the day of the week, for every date. */
  lemma WeekCountGivesWeekday(c: Civil)
    requires IsDate(c)
    ensures WeekCount(c) % 7 == Weekday(c)
    ensures WeekCount(Next(c)) == WeekCount(c) + 1
  {
    hide YearStart, MonthStart, IsLeap, MonthLength;
    NextAddsOne(c);
    var y, mm := MarchYear(c), MarchMonth(c);
    var k, j := y % 100, y / 100;
    YearStartBySeven(y);
    MonthStartBySeven(mm);
    FirstWeekDayNumber();
    var w := c.day + 13 * (mm + 4) / 5 + k + k / 4 + j / 4 + 5 * j + 6;
    RemainderBySeven(WeekCount(c), 52 * y + 17 * j + 4 * mm - 103305, w) by {
      hide IsDate, Weekday;
      assert WeekCount(c) == 7 * (52 * y + 17 * j + 4 * mm - 103305) + w;
    }
    assert Weekday(c) == w % 7 by { hide DayNumber; }
  }
}
