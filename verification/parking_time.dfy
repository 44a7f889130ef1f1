/**
 * Parking durations in hours and their human-readable display
 * ("D ngày H giờ", "H giờ M phút", "< 1 phút", ...).
 *
 * The source computes the minutes as int((parking_time - hours) * 60), where
 * `hours` is already reduced modulo the day, so a stay of a day or more gets
 * the whole duration in minutes. `SpanAsWritten`/`FormatParkingTimeAsWritten`
 * keep that computation; `SpanOf`/`FormatParkingTime` reduce the minutes to
 * the current hour, and the rest of the model uses them.
 */
module ParkingTime {
  import opened Text

  const DayWord := "ng\U{E0}y"          // "ngày"
  const HourWord := "gi\U{1EDD}"        // "giờ"
  const MinuteWord := "ph\U{FA}t"       // "phút"
  const UnderAMinute := "< 1 " + MinuteWord

  /** Python's int() on a float: truncation toward zero. */
  function PyInt(x: real): (n: int)
    ensures x >= 0.0 ==> n as real <= x < n as real + 1.0
    ensures x < 0.0 ==> x <= n as real <= 0.0 && n as real < x + 1.0
  {
    if x >= 0.0 then x.Floor else -((-x).Floor)
  }

  /** Whole days, hours within the day, and minutes. */
  datatype Span = Span(days: int, hours: int, minutes: int)

  /** The breakdown as the source computes it (minutes taken from parking_time minus the hour-of-day). */
  function SpanAsWritten(pt: real): (sp: Span)
    ensures pt > 0.0 ==> sp.days >= 0 && 0 <= sp.hours < 24 && sp.minutes >= 0
  {
    var days := PyInt(pt / 24.0);
    var hours := PyInt(pt) - days * 24;
    var minutes := PyInt((pt - hours as real) * 60.0);
    if pt > 0.0 then
      DayBounds(pt);
      Span(days, hours, minutes)
    else Span(days, hours, minutes)
  }

  /** The breakdown with the minutes taken from the fraction of the current hour. */
  function SpanOf(pt: real): (sp: Span)
    ensures pt > 0.0 ==> sp.days >= 0 && 0 <= sp.hours < 24 && 0 <= sp.minutes < 60
    ensures pt > 0.0 ==> sp.days * 1440 + sp.hours * 60 + sp.minutes == (pt * 60.0).Floor
  {
    var days := PyInt(pt / 24.0);
    var hours := PyInt(pt) - days * 24;
    var minutes := PyInt((pt - PyInt(pt) as real) * 60.0);
    if pt > 0.0 then
      DayBounds(pt);
      MinuteBounds(pt);
      Span(days, hours, minutes)
    else Span(days, hours, minutes)
  }

  /** floor(pt / 24) days fit in floor(pt) hours, leaving fewer than 24. */
  lemma DayBounds(pt: real)
    requires pt > 0.0
    ensures var d := (pt / 24.0).Floor; d >= 0 && d * 24 <= pt.Floor < d * 24 + 24
  {
    var d := (pt / 24.0).Floor;
    assert d as real <= pt / 24.0 < d as real + 1.0;
    assert (d * 24) as real <= pt;
    assert pt < (d * 24 + 24) as real;
  }

  /** Whole minutes split into whole hours and the minutes of the fractional hour. */
  lemma MinuteBounds(pt: real)
    requires pt > 0.0
    ensures var n := pt.Floor; var m := ((pt - n as real) * 60.0).Floor;
      0 <= m < 60 && n * 60 + m == (pt * 60.0).Floor
  {
    var n := pt.Floor;
    var f := pt - n as real;
    assert 0.0 <= f < 1.0;
    var m := (f * 60.0).Floor;
    assert 0 <= m < 60;
    assert pt * 60.0 == (n * 60) as real + f * 60.0;
    assert m as real <= f * 60.0 < m as real + 1.0;
    assert (n * 60 + m) as real <= pt * 60.0 < (n * 60 + m) as real + 1.0;
  }

  /** The branch chain choosing which parts to show, as the source writes it. */
  function RenderAsWritten(sp: Span): string
    requires sp.days >= 0 && sp.hours >= 0 && sp.minutes >= 0
  {
    if sp.days > 0 && sp.hours > 0 then NatToString(sp.days) + " " + DayWord + " " + NatToString(sp.hours) + " " + HourWord
    else if sp.days > 0 && sp.minutes > 0 then NatToString(sp.days) + " " + DayWord + " " + NatToString(sp.minutes) + " " + MinuteWord
    else if sp.hours > 0 && sp.minutes > 0 then NatToString(sp.hours) + " " + HourWord + " " + NatToString(sp.minutes) + " " + MinuteWord
    else if sp.hours > 0 then NatToString(sp.hours) + " " + HourWord
    else if sp.minutes > 0 then NatToString(sp.minutes) + " " + MinuteWord
    else UnderAMinute
  }

  /**
   * The same chain with one more branch for a whole number of days (a case the
   * as-written minutes never reach, because they are then at least 1440).
   */
  function Render(sp: Span): string
    requires sp.days >= 0 && sp.hours >= 0 && sp.minutes >= 0
  {
    if sp.days > 0 && sp.hours > 0 then NatToString(sp.days) + " " + DayWord + " " + NatToString(sp.hours) + " " + HourWord
    else if sp.days > 0 && sp.minutes > 0 then NatToString(sp.days) + " " + DayWord + " " + NatToString(sp.minutes) + " " + MinuteWord
    else if sp.days > 0 then NatToString(sp.days) + " " + DayWord
    else if sp.hours > 0 && sp.minutes > 0 then NatToString(sp.hours) + " " + HourWord + " " + NatToString(sp.minutes) + " " + MinuteWord
    else if sp.hours > 0 then NatToString(sp.hours) + " " + HourWord
    else if sp.minutes > 0 then NatToString(sp.minutes) + " " + MinuteWord
    else UnderAMinute
  }

  /** The display of a parking time, exactly as the source computes it. */
  function FormatParkingTimeAsWritten(pt: real): string {
    if pt > 0.0 then RenderAsWritten(SpanAsWritten(pt)) else ""
  }

  /**
   * The display of a parking time, with minutes reduced to the current hour.
   * The stored display of a log and the status report both use this one
   * function: the source computes them with two copies of the same code.
   */
  function FormatParkingTime(pt: real): (r: string)
    ensures r == "" <==> pt <= 0.0
    ensures 0.0 < pt < 1.0 / 60.0 ==> r == UnderAMinute
  {
    if pt > 0.0 then
      var sp := SpanOf(pt);
      assert pt < 1.0 / 60.0 ==> (pt * 60.0).Floor == 0;
      Render(sp)
    else ""
  }

  /** Below one day the correction changes nothing: both breakdowns agree and the minutes stay in 0..59. */
  lemma {:induction false} AsWrittenAgreesBelowADay(pt: real)
    requires 0.0 < pt < 24.0
    ensures SpanAsWritten(pt) == SpanOf(pt)
    ensures 0 <= SpanAsWritten(pt).minutes < 60
    ensures FormatParkingTimeAsWritten(pt) == FormatParkingTime(pt)
  {
    assert (pt / 24.0).Floor == 0;
    assert PyInt(pt / 24.0) == 0;
  }

  /** 24.5 hours: the as-written breakdown counts 1470 minutes where 30 are meant. */
  lemma AsWrittenSpanOverflow()
    ensures SpanAsWritten(24.5) == Span(1, 0, 1470)
    ensures SpanOf(24.5) == Span(1, 0, 30)
  {
    assert (24.5 / 24.0).Floor == 1;
    assert (24.5).Floor == 24;
    assert (0.5 * 60.0).Floor == 30;
    assert ((24.5 - 0.0) * 60.0).Floor == 1470;
  }

  /** 24.5 hours: the as-written display reads "1 ngày 1470 phút" where "1 ngày 30 phút" is meant. */
  lemma AsWrittenMinutesOverflow()
    ensures FormatParkingTimeAsWritten(24.5) == "1 " + DayWord + " 1470 " + MinuteWord
    ensures FormatParkingTime(24.5) == "1 " + DayWord + " 30 " + MinuteWord
  {
    AsWrittenSpanOverflow();
    OverflowDigits();
  }

  lemma OverflowDigits()
    ensures NatToString(1) == "1" && NatToString(30) == "30" && NatToString(1470) == "1470"
  {
    assert NatToString(14) == "14";
    assert NatToString(147) == "147";
    assert NatToString(3) == "3";
  }
}
