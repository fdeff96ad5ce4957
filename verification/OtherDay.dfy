/** Moving a packed date by a span of days with month tables, forward or backward. */
module OtherDay {
  import opened Calendar
  import opened PackedDate

  /** What GetOtherDay answers, correct or not, for the date c moved by span days. */
  function Answer(c: Civil, span: int): Civil
    requires IsDate(c)
  {
    var endDays := DayOfYear(c) + span;
    var target := CivilOf(DayNumber(c) + span);
    if endDays >= 32 then target
    else if endDays == 31 then Civil(c.year, 2, 0)
    else if endDays >= 0 then Civil(c.year - 1, 12, endDays)
    else if target.day == MonthLength(target.year, target.month) then Civil(target.year, target.month + 1, 0)
    else if target.month == 1 then Civil(target.year - 1, 13, target.day)
    else target
  }

  /** What is answered instead of the target: days 0, and December or a thirteenth month of the year before. */
  lemma WrongAnswers(c: Civil, span: int)
    requires IsDate(c)
    ensures DayOfYear(c) + span == 31 ==> Answer(c, span) == Civil(c.year, 2, 0)
    ensures 0 <= DayOfYear(c) + span <= 30 ==> Answer(c, span) == Civil(c.year - 1, 12, DayOfYear(c) + span)
    ensures DayOfYear(c) + span < 0 ==>
      var t := CivilOf(DayNumber(c) + span);
      && (t.day == MonthLength(t.year, t.month) ==> Answer(c, span) == Civil(t.year, t.month + 1, 0))
      && (t.day < MonthLength(t.year, t.month) && t.month == 1 ==> Answer(c, span) == Civil(t.year - 1, 13, t.day))
  {
    hide DayOfYear, DayNumber, MonthLength;
  }

  lemma JanuaryDay(year: int, day: int)
    requires 1 <= day <= 31
    ensures CivilOf(DayNumber(Civil(year, 1, 1)) + day - 1) == Civil(year, 1, day)
  {
    hide DayNumber;
    DayOffset(year, 1, day);
    CivilOfInverse(Civil(year, 1, day));
  }

  /** The answer is the date span days away in exactly two cases. */
  lemma AnswerExact(c: Civil, span: int)
    requires IsDate(c)
    ensures var endDays := DayOfYear(c) + span;
      var target := CivilOf(DayNumber(c) + span);
      Answer(c, span) == target
      <==> || endDays >= 32
           || (endDays < 0 && target.month != 1 && target.day != MonthLength(target.year, target.month))
  {
    hide DayNumber, CivilOf, MonthLength;
    var endDays := DayOfYear(c) + span;
    if 1 <= endDays < 31 {
      JanuaryDay(c.year, endDays);
    }
  }

  /** A span of zero from New Year's Day answers 1 December of the year before. */
  lemma NewYearMovesBack(year: int)
    ensures Answer(Civil(year, 1, 1), 0) == Civil(year - 1, 12, 1)
  {
    hide DayNumber, CivilOf;
  }

  /** The first day of the month with the given index in the year; index 12 is the next January. */
  function FirstOf(year: int, index: int): Civil {
    if index < 12 then Civil(year, index + 1, 1) else Civil(year + 1, 1, 1)
  }

  /** A day counted from the first of its month, while it stays inside the month. */
  lemma DayInMonth(year: int, index: int, day: int)
    requires 0 <= index < 12 && 1 <= day <= MonthLength(year, index + 1)
    ensures CivilOf(DayNumber(FirstOf(year, index)) + day - 1) == Civil(year, index + 1, day)
  {
    hide DayNumber, IsLeap;
    MonthLengthBounds(year, index + 1);
    DayOffset(year, index + 1, day);
    CivilOfInverse(Civil(year, index + 1, day));
  }

  /** The day before the first of a month is the last day of the month before. */
  lemma DayBeforeMonth(year: int, index: int)
    requires 0 <= index < 12
    ensures CivilOf(DayNumber(FirstOf(year, index)) - 1)
         == (if index == 0 then Civil(year - 1, 12, 31) else Civil(year, index, MonthLength(year, index)))
  {
    hide DayNumber;
    var last := Previous(FirstOf(year, index));
    NextAddsOne(last);
    CivilOfInverse(last);
  }

  lemma EarlyAnswer(c: Civil, span: int)
    requires IsDate(c) && 0 <= DayOfYear(c) + span < 31
    ensures Answer(c, span) == Civil(c.year - 1, 12, DayOfYear(c) + span)
  {
    hide DayNumber, CivilOf, MonthLength;
  }

  /** Turns what is known of the target day into the answer for a finished forward loop. */
  lemma ForwardAnswer(c: Civil, span: int, year: int, index: int, day: int)
    requires IsDate(c) && 0 <= index < 12 && day <= MonthLength(year, index + 1)
    requires DayNumber(c) + span == DayNumber(FirstOf(year, index)) + day - 1
    requires DayOfYear(c) + span >= 31
    requires if day >= 1 then DayOfYear(c) + span >= 32
             else DayOfYear(c) + span == 31 && day == 0 && year == c.year && index == 1
    ensures Civil(year, index + 1, day) == Answer(c, span)
  {
    hide DayNumber, CivilOf, MonthLength;
    if day >= 1 { DayInMonth(year, index, day); }
  }

  /** The same for the backward loop, whose result shows month 13 when it stopped in January. */
  lemma BackwardAnswer(c: Civil, span: int, year: int, index: int, day: int)
    requires IsDate(c) && 0 <= index < 12 && 0 <= day < MonthLength(year, index + 1)
    requires DayNumber(c) + span == DayNumber(FirstOf(year, index)) + day - 1
    requires DayOfYear(c) + span < 0
    ensures (if index == 0 then Civil(year - 1, 13, day) else Civil(year, index + 1, day)) == Answer(c, span)
  {
    hide DayNumber, CivilOf, IsLeap;
    if day >= 1 {
      DayInMonth(year, index, day);
    } else {
      DayBeforeMonth(year, index);
    }
  }

  lemma FirstOfNext(year: int, index: int)
    requires 0 <= index < 12
    ensures DayNumber(FirstOf(year, index + 1)) == DayNumber(FirstOf(year, index)) + MonthLength(year, index + 1)
    ensures FirstOf(year, 12) == FirstOf(year + 1, 0)
  {
    hide DayNumber;
    MonthFollows(year, index + 1);
  }

  lemma NewYear(year: int)
    ensures FirstOf(year, 0) == Civil(year, 1, 1)
    ensures FirstOf(year, 12) == FirstOf(year + 1, 0)
  {
  }

  method GetOtherDay(date: int, span: int) returns (r: int)
    requires IsPacked(date)
    ensures r == Pack(Answer(Unpack(date), span))
  {
    hide DayNumber, CivilOf, Answer, IsLeap, MonthLength, FirstOf, IsDate;
    ghost var c := Unpack(date);
    FieldsInRange(date);
    var startYear := date / 10000;
    var startMonth := (date - startYear * 10000) / 100;
    var startDay := date - startYear * 10000 - startMonth * 100;
    assert c == Civil(startYear, startMonth, startDay);

    var startDays := DaysOfYear(startYear, startMonth, startDay);
    var endDays := startDays + span;
    assert DayOfYear(c) + span == endDays;
    assert FirstOf(startYear, 0) == Civil(startYear, 1, 1) by { NewYear(startYear); }
    NewYear(startYear - 1);
    ghost var target := DayNumber(c) + span;
    assert target == DayNumber(FirstOf(startYear, 0)) + endDays - 1;

    var i, temp, year := 0, 0, startYear;
    var table;
    if endDays >= 0 {
      while true
        invariant 0 <= i < 12
        invariant target == DayNumber(FirstOf(year, i)) + (endDays - temp) - 1
        invariant if temp == 0 then i == 0 && year == startYear
                  else endDays > 31 && endDays - temp > MonthLength(year, i + 1)
        decreases endDays - temp
      {
        table := MonthTable(year);
        MonthLengthBounds(year, i + 1);
        if endDays < 31 {
          EarlyAnswer(c, span);
          year := year - 1;
          i := 11;
          break;
        }
        FirstOfNext(year, i);
        temp := temp + table[i];
        i := i + 1;
        if i == 12 {
          i := 0;
          year := year + 1;
        }
        MonthLengthBounds(year, i + 1);
        MonthLengthBounds(year - 1, 1);
        if endDays - temp <= table[i] {
          ForwardAnswer(c, span, year, i, endDays - temp);
          break;
        }
      }
      r := year * 10000 + (i + 1) * 100 + (endDays - temp);
    } else {
      year := year - 1;
      i := 12;
      while true
        invariant 0 < i <= 12
        invariant target == DayNumber(FirstOf(year, i)) + (endDays + temp) - 1
        invariant temp + endDays < 0
        decreases -(temp + endDays)
      {
        table := MonthTable(year);
        i := i - 1;
        FirstOfNext(year, i);
        MonthLengthBounds(year, i + 1);
        temp := temp + table[i];
        if temp + endDays >= 0 {
          BackwardAnswer(c, span, year, i, temp + endDays);
        }
        if i == 0 {
          NewYear(year - 1);
          i := 12;
          year := year - 1;
        }
        if temp + endDays >= 0 {
          break;
        }
      }
      r := year * 10000 + (i + 1) * 100 + (endDays + temp);
    }
  }
}
