/** The date helpers of utils/date.ts with the clock replaced by parameters: the weekday to
    plan-slot arithmetic and the `YYYY-MM-DD` key format and its parser. */
module Dates {
  import opened Seqs
  import opened Types

  /** Lunch and dinner slot of one day in the 14-slot week. */
  datatype MealIndices = MealIndices(lunchIndex: int, dinnerIndex: int)

  /** Monday-first day number of a Sunday-first weekday (`getDay()`, 0 = Sunday). */
  function DayIndex(weekday: int): (d: int)
    requires 0 <= weekday <= 6
    ensures 0 <= d <= 6
    ensures (d + 1) % 7 == weekday
  {
    if weekday == 0 then 6 else weekday - 1
  }

  /** Today's two plan slots, for the weekday the clock reports. */
  function GetTodayMealIndices(weekday: int): (r: MealIndices)
    requires 0 <= weekday <= 6
    ensures 0 <= r.lunchIndex <= 12 && r.lunchIndex % 2 == 0
    ensures 1 <= r.dinnerIndex <= 13 && r.dinnerIndex == r.lunchIndex + 1
    ensures r.lunchIndex / 2 == DayIndex(weekday)
  {
    var dayIdx := DayIndex(weekday);
    MealIndices(dayIdx * 2, dayIdx * 2 + 1)
  }

  /** Different weekdays get different slots, and every slot belongs to some weekday. */
  lemma MealIndicesBijective(w1: int, w2: int, slot: int)
    requires 0 <= w1 <= 6 && 0 <= w2 <= 6 && 0 <= slot < 14
    ensures GetTodayMealIndices(w1).lunchIndex == GetTodayMealIndices(w2).lunchIndex ==> w1 == w2
    ensures exists w :: 0 <= w <= 6 && (GetTodayMealIndices(w).lunchIndex == slot || GetTodayMealIndices(w).dinnerIndex == slot)
  {
    var w := (slot / 2 + 1) % 7;
    assert GetTodayMealIndices(w).lunchIndex == slot / 2 * 2;
  }

  /** `${year}-${pad(month)}-${pad(day)}` with `month` already 1-based: three dash-separated
      runs of digits, month and day at least two digits wide. */
  function FormatDateKey(year: nat, month: nat, day: nat): (key: string)
    ensures Split(key, '-') == [NatToString(year), PadTwo(NatToString(month)), PadTwo(NatToString(day))]
    ensures forall i :: 0 <= i < |key| ==> IsDigit(key[i]) || key[i] == '-'
    ensures month < 100 && day < 100 ==>
              |key| == |NatToString(year)| + 6 && key[|NatToString(year)|] == '-' && key[|NatToString(year)| + 3] == '-'
  {
    var y := NatToString(year);
    var m := PadTwo(NatToString(month));
    var d := PadTwo(NatToString(day));
    DigitsHaveNoDash(y);
    DigitsHaveNoDash(m);
    DigitsHaveNoDash(d);
    SplitThree(y, m, d, '-');
    assert y + "-" + m + "-" + d == y + ['-'] + m + ['-'] + d;
    y + "-" + m + "-" + d
  }

  /** JavaScript's `Number` on a piece of the key: a (possibly empty) run of decimal digits is
      its value; anything else is not a number. */
  datatype Num = Value(n: int) | NaN

  function ToNumber(s: string): (r: Num)
    ensures AllDigits(s) ==> r == Value(DigitsValue(s))
    ensures !AllDigits(s) ==> r == NaN
  {
    if AllDigits(s) then Value(DigitsValue(s)) else NaN
  }

  /** `x - 1` on a number. */
  function Pred(x: Num): (r: Num)
    ensures x.Value? ==> r == Value(x.n - 1)
    ensures x.NaN? ==> r.NaN?
  {
    match x
    case Value(n) => Value(n - 1)
    case NaN => NaN
  }

  /** The arguments handed to the `Date` constructor: year, 0-based month and day. */
  datatype DateArgs = DateArgs(year: Num, monthIndex: Num, day: Num)

  /** Splits the key on '-', reads the first three pieces as numbers (a missing piece is
      `undefined`, which reads as NaN) and turns the month into a 0-based index. */
  function ParseDateKey(key: string): (r: DateArgs)
    ensures '-' !in key ==> r == DateArgs(ToNumber(key), NaN, NaN)
    ensures r.year.Value? ==> r.year.n >= 0
    ensures r.monthIndex.Value? ==> r.monthIndex.n >= -1
    ensures r.day.Value? ==> r.day.n >= 0
  {
    assert '-' !in key ==> Split(key, '-') == [key] by {
      if '-' !in key {
        SplitWhole(key, '-');
      }
    }
    var pieces := Split(key, '-');
    var year := ToNumber(pieces[0]);
    var month := if |pieces| > 1 then ToNumber(pieces[1]) else NaN;
    var day := if |pieces| > 2 then ToNumber(pieces[2]) else NaN;
    DateArgs(year, Pred(month), day)
  }

  /** A digit string has no '-'. */
  lemma DigitsHaveNoDash(s: string)
    requires AllDigits(s)
    ensures '-' !in s
  {
  }

  /** Parsing a formatted key gives back the year, the 0-based month and the day. */
  lemma FormatParseRoundTrip(year: nat, month: nat, day: nat)
    ensures ParseDateKey(FormatDateKey(year, month, day)) == DateArgs(Value(year), Value(month - 1), Value(day))
  {
    NatToStringRoundTrip(year);
    NatToStringRoundTrip(month);
    NatToStringRoundTrip(day);
  }
}
