/** Hours of the day: the AM/PM conversion that `parse_time_slot` applies to a
    matched range (main.py:50-72) and `format_time`, which turns a 24-hour
    hour back into a 12-hour label (main.py:245-254). Hours are unbounded
    integers and nothing here checks that they fall within a day. */
module Hours {
  import opened Optional
  import opened Text

  datatype Period = AM | PM

  /** An availability interval `(start_hour, end_hour)`, as the Python tuple. */
  datatype Slot = Slot(start: int, end: int)

  function PeriodText(p: Period): string {
    match p
    case AM => "AM"
    case PM => "PM"
  }

  /** An hour written with its own period, on the 24-hour clock: PM adds 12
      unless the number is 12, and 12AM is midnight. */
  function To24(n: nat, p: Period): (h: nat)
    ensures 1 <= n <= 12 ==> h < 24
    ensures 1 <= n <= 12 && p == AM ==> h < 12
    ensures 1 <= n <= 12 && p == PM ==> h >= 12
  {
    if p == PM && n != 12 then n + 12
    else if p == AM && n == 12 then 0
    else n
  }

  /** The start hour when the start carries no period of its own: it takes PM
      from the end only when its number is below 12, and is otherwise kept. */
  function InferStart(n: nat, endPeriod: Period): nat {
    if endPeriod == PM && n < 12 then n + 12 else n
  }

  /** The interval that a matched `<start>[period]-<end><period>` denotes. */
  function ConvertRange(startNum: nat, startPeriod: Option<Period>, endNum: nat, endPeriod: Period): (s: Slot)
    ensures s.end == To24(endNum, endPeriod)
    ensures startPeriod.Some? ==> s.start == To24(startNum, startPeriod.value)
  {
    var end := To24(endNum, endPeriod);
    var start := match startPeriod
      case Some(p) => To24(startNum, p)
      case None => InferStart(startNum, endPeriod);
    Slot(start, end)
  }

  /** Leaving out the start's period is the same as repeating the end's period,
      except for a 12 before an AM end and a number above 12 before a PM end. */
  lemma InferredStartAgreesWithEndPeriod(startNum: nat, endNum: nat, endPeriod: Period)
    ensures ConvertRange(startNum, None, endNum, endPeriod)
         == ConvertRange(startNum, Some(endPeriod), endNum, endPeriod)
        <==> !(endPeriod == AM && startNum == 12) && !(endPeriod == PM && startNum > 12)
  {
  }

  /** `format_time`: the 12-hour label of a 24-hour hour. */
  function FormatTime(hour: int): string {
    if hour == 0 then "12AM"
    else if hour < 12 then IntToString(hour) + "AM"
    else if hour == 12 then "12PM"
    else IntToString(hour - 12) + "PM"
  }

  /** The number and period that `FormatTime` writes for an hour of the day. */
  function Label(hour: nat): (r: (nat, Period))
    requires hour < 24
    ensures 1 <= r.0 <= 12
  {
    if hour == 0 then (12, AM)
    else if hour < 12 then (hour, AM)
    else if hour == 12 then (12, PM)
    else (hour - 12, PM)
  }

  /** For every hour of the day, `format_time` writes the label whose number and
      period the parser converts back to that same hour. */
  lemma FormatThenConvert(hour: nat)
    requires hour < 24
    ensures FormatTime(hour) == NatToString(Label(hour).0) + PeriodText(Label(hour).1)
    ensures To24(Label(hour).0, Label(hour).1) == hour
  {
    assert NatToString(12) == "12";
  }

  /** Every 12-hour label names exactly one hour of the day, and `format_time`
      of that hour writes the label back. */
  lemma ConvertThenFormat(n: nat, p: Period)
    requires 1 <= n <= 12
    ensures To24(n, p) < 24 && Label(To24(n, p)) == (n, p)
    ensures FormatTime(To24(n, p)) == NatToString(n) + PeriodText(p)
  {
    FormatThenConvert(To24(n, p));
  }
}
