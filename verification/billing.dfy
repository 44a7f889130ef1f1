/**
 * Bills, rates and the partner's balance: the parking fee of a bill, the deduction
 * from the acting user's partner, price-row and package validation, and top-ups.
 *
 * Amounts are whole VND. The fee rule charges the day or the night rate by the time
 * of day at which the matched log was written (night from 15:00 on) and 5000 per
 * whole day shown in the log's display. `calculate_fee` uses `time(15, 0)` without
 * importing `time`, so every call that reaches a log raises NameError and rolls back;
 * `CalculateFeeAsWritten` keeps that, `CalculateFee` is the intended computation of
 * the fee and the deduction. The second bill record the source creates is not modelled.
 */
module Billing {
  import opened Wrappers
  import opened Text
  import opened Records
  import opened Lookup
  import opened ParkingTime
  import opened StoreUpdates

  const OvernightRate := 5000
  /** 15:00 in seconds after midnight. */
  const NightFrom := 54000
  const SecondsPerDay := 86400
  const MinDayNightRate := 1000
  const MinPackagePrice := 2000

  /** nsp.vehicle.price: the day and night rate of a vehicle type. */
  datatype PriceRow = PriceRow(vehicleType: string, dayRate: int, nightRate: int)

  /** nsp.bill: the tag code and parking time it copies from its log, and its three amounts. */
  datatype Bill = Bill(tagCode: string, parkingTime: real, vehicleType: string, base: int, overnight: int, total: int)

  /** The Python exceptions on the fee path: a field read on a recordset of several records, and the missing import. */
  datatype FeeError = NotSingleton | NameNotDefined

  datatype FeeResult = Unchanged | Charged(bill: Bill) | FeeRaised(error: FeeError)

  // ------------------------------------------------------------ day count

  /** The end of the run of whitespace starting at `i`. */
  function SpaceRunEnd(s: string, i: nat): (k: nat)
    requires i <= |s|
    ensures i <= k <= |s|
    ensures forall j :: i <= j < k ==> IsSpace(s[j])
    ensures k < |s| ==> !IsSpace(s[k])
    decreases |s| - i
  {
    if i < |s| && IsSpace(s[i]) then SpaceRunEnd(s, i + 1) else i
  }

  predicate DayWordAt(s: string, j: nat) {
    j + |DayWord| <= |s| && s[j..j + |DayWord|] == DayWord
  }

  /**
   * re.search(r'(\d+)\s*ngày', s) from position `i`: the leftmost start where a run of
   * digits, optional whitespace and the day word follow, and the value of the digits.
   * The greedy `\d+` never needs to give digits back: what follows a shorter run is a
   * digit, which neither `\s` nor the day word can start with.
   */
  function DaysMatchFrom(s: string, i: nat): (r: Option<nat>)
    requires i <= |s|
    decreases |s| - i
  {
    if i == |s| then None
    else if IsDigit(s[i]) && DayWordAt(s, SpaceRunEnd(s, DigitRunEnd(s, i))) then
      var k := DigitRunEnd(s, i);
      Some(DigitsValue(s[i..k]))
    else DaysMatchFrom(s, i + 1)
  }

  /** The day count calculate_fee reads from a display: the matched number, 0 without a match. */
  function DaysShown(display: string): (day: nat) {
    DaysMatchFrom(display, 0).GetOr(0)
  }

  /** A match needs the day word, so a text without its 'à' has none. */
  lemma {:induction false} NoDayWordNoMatch(s: string, i: nat)
    requires i <= |s| && '\U{E0}' !in s
    ensures DaysMatchFrom(s, i).None?
    decreases |s| - i
  {
    if i < |s| {
      var j := SpaceRunEnd(s, DigitRunEnd(s, i));
      if DayWordAt(s, j) {
        DayWordAtHasGraveA(s, j);
        assert false;
      }
      NoDayWordNoMatch(s, i + 1);
    }
  }

  lemma DayWordAtHasGraveA(s: string, j: nat)
    requires DayWordAt(s, j)
    ensures '\U{E0}' in s
  {
    assert s[j + 2] == s[j..j + |DayWord|][2];
  }

  lemma NoDayWordInDigits(n: nat)
    ensures '\U{E0}' !in NatToString(n)
  {
  }

  /** A display that opens with "D ngày" shows D days. */
  lemma LeadingDaysShown(d: nat, rest: string)
    ensures DaysShown(NatToString(d) + " " + DayWord + rest) == d
  {
    var n := NatToString(d);
    var s := n + " " + DayWord + rest;
    DigitRunEndAt(s, 0, |n|);
    assert s[|n|] == ' ' && s[|n| + 1] == 'n';
    assert SpaceRunEnd(s, |n| + 1) == |n| + 1;
    assert SpaceRunEnd(s, |n|) == |n| + 1;
    assert s[|n| + 1..|n| + 1 + |DayWord|] == DayWord;
    assert s[0..|n|] == n;
  }

  /** Below a day the display shows no day word at all. */
  lemma NoDaysShown(sp: Span)
    requires sp.days == 0 && sp.hours >= 0 && sp.minutes >= 0
    ensures DaysShown(Render(sp)) == 0
  {
    var r := Render(sp);
    NoDayWordInDigits(sp.hours);
    NoDayWordInDigits(sp.minutes);
    assert '\U{E0}' !in HourWord && '\U{E0}' !in MinuteWord && '\U{E0}' !in UnderAMinute;
    assert '\U{E0}' !in r;
    NoDayWordNoMatch(r, 0);
  }

  /**
   * The day count calculate_fee reads back from a display is floor(parking_time / 24),
   * for the display the recorder computes as written and for the corrected one.
   */
  lemma DaysShownIsWholeDays(pt: real)
    requires pt > 0.0
    ensures DaysShown(FormatParkingTimeAsWritten(pt)) == (pt / 24.0).Floor
    ensures DaysShown(FormatParkingTime(pt)) == (pt / 24.0).Floor
  {
    DaysShownAsWritten(pt);
    DaysShownCorrected(pt);
  }

  /**
   * As written: with at least one day the minutes count the whole stay, at least 1440,
   * so the display opens with "D ngày"; below a day it is the corrected display.
   */
  lemma DaysShownAsWritten(pt: real)
    requires pt > 0.0
    ensures DaysShown(FormatParkingTimeAsWritten(pt)) == (pt / 24.0).Floor
  {
    var sp := SpanAsWritten(pt);
    assert sp.days == (pt / 24.0).Floor;
    if sp.days > 0 {
      assert pt - sp.hours as real >= 24.0 by {
        assert sp.hours as real <= pt - (sp.days * 24) as real;
      }
      assert sp.minutes >= 1440;
      var rest := if sp.hours > 0 then " " + NatToString(sp.hours) + " " + HourWord
        else " " + NatToString(sp.minutes) + " " + MinuteWord;
      assert RenderAsWritten(sp) == NatToString(sp.days) + " " + DayWord + rest;
      LeadingDaysShown(sp.days, rest);
    } else {
      assert RenderAsWritten(sp) == Render(sp);
      NoDaysShown(sp);
    }
  }

  /** Corrected: the display opens with "D ngày" exactly when there is a whole day. */
  lemma DaysShownCorrected(pt: real)
    requires pt > 0.0
    ensures DaysShown(FormatParkingTime(pt)) == (pt / 24.0).Floor
  {
    var sp := SpanOf(pt);
    assert sp.days == (pt / 24.0).Floor;
    if sp.days > 0 {
      var rest := if sp.hours > 0 then " " + NatToString(sp.hours) + " " + HourWord
        else if sp.minutes > 0 then " " + NatToString(sp.minutes) + " " + MinuteWord
        else "";
      assert Render(sp) == NatToString(sp.days) + " " + DayWord + rest;
      LeadingDaysShown(sp.days, rest);
    } else {
      NoDaysShown(sp);
    }
  }

  // ---------------------------------------------------------------- fee rule

  /** The logs whose tag code and parking time equal the bill's: the search of calculate_fee. */
  function MatchingLogs(s: Store, code: string, pt: real): (r: seq<VehicleLog>)
    requires Wf(s)
    ensures forall i :: 0 <= i < |r| ==> r[i] in s.logs && s.tags[r[i].tag].code == code && r[i].parkingTime == pt
    ensures forall i :: 0 <= i < |s.logs| && s.tags[s.logs[i].tag].code == code && s.logs[i].parkingTime == pt ==> s.logs[i] in r
  {
    Filter(s.logs, (l: VehicleLog) => l.tag in s.tags && s.tags[l.tag].code == code && l.parkingTime == pt)
  }

  /** Night rate from 15:00 (UTC, as create_date is stored) to midnight. */
  predicate IsNight(created: int) {
    created % SecondsPerDay >= NightFrom
  }

  /** The overnight charge: 5000 per shown day, or the bill's prior value when none is shown. */
  function Overnight(day: nat, prior: int): (o: int)
    ensures day > 0 ==> o == day * OvernightRate
    ensures day == 0 ==> o == prior
  {
    if day > 0 then day * OvernightRate else prior
  }

  /** The rate of a price search result: an empty recordset reads as 0. */
  function RateOf(pricing: seq<PriceRow>, night: bool): (r: int)
    requires |pricing| <= 1
    ensures |pricing| == 0 ==> r == 0
    ensures |pricing| == 1 ==> r == (if night then pricing[0].nightRate else pricing[0].dayRate)
  {
    if |pricing| == 0 then 0 else if night then pricing[0].nightRate else pricing[0].dayRate
  }

  /** The response's error code, 'SUCCESS' when it has none. */
  function ResponseCode(errorCode: Option<string>): string {
    errorCode.GetOr("SUCCESS")
  }

  /**
   * calculate_fee for one bill, the acting user's partner `payer` paying: nothing unless
   * the response succeeded and a log matches; the day count from the log's display, the
   * rate from the log's time of day and the bill's vehicle type, then the deduction.
   */
  function CalculateFee(s: Store, payer: Id, b: Bill, errorCode: Option<string>, prices: seq<PriceRow>): (res: (FeeResult, Store))
    requires Wf(s) && payer in s.partners
    ensures !res.0.Charged? ==> res.1 == s
    ensures ResponseCode(errorCode) != "SUCCESS" ==> res.0 == Unchanged
    ensures res.0 == Unchanged <==> ResponseCode(errorCode) != "SUCCESS" || |MatchingLogs(s, b.tagCode, b.parkingTime)| == 0
    ensures res.0.Charged? <==>
      && ResponseCode(errorCode) == "SUCCESS"
      && |MatchingLogs(s, b.tagCode, b.parkingTime)| == 1
      && |PricesFor(prices, b.vehicleType)| <= 1
    ensures res.0 == FeeRaised(NotSingleton) <==>
      && ResponseCode(errorCode) == "SUCCESS"
      && (|| |MatchingLogs(s, b.tagCode, b.parkingTime)| > 1
          || (|MatchingLogs(s, b.tagCode, b.parkingTime)| == 1 && |PricesFor(prices, b.vehicleType)| > 1))
    ensures res.0.Charged? ==>
      res.0.bill == FeeFor(b, MatchingLogs(s, b.tagCode, b.parkingTime)[0], PricesFor(prices, b.vehicleType))
    ensures res.0.Charged? ==> res.1 == Deduct(s, payer, [res.0.bill])
  {
    if ResponseCode(errorCode) != "SUCCESS" then (Unchanged, s)
    else
      var logs := MatchingLogs(s, b.tagCode, b.parkingTime);
      var pricing := PricesFor(prices, b.vehicleType);
      if |logs| == 0 then (Unchanged, s)
      else if |logs| > 1 || |pricing| > 1 then (FeeRaised(NotSingleton), s)
      else
        var b' := FeeFor(b, logs[0], pricing);
        (Charged(b'), Deduct(s, payer, [b']))
  }

  /** The price rows of a vehicle type: the search of calculate_fee. */
  function PricesFor(prices: seq<PriceRow>, vehicleType: string): (r: seq<PriceRow>)
    ensures forall i :: 0 <= i < |r| ==> r[i] in prices && r[i].vehicleType == vehicleType
    ensures forall i :: 0 <= i < |prices| && prices[i].vehicleType == vehicleType ==> prices[i] in r
  {
    Filter(prices, (r: PriceRow) => r.vehicleType == vehicleType)
  }

  /** The three amounts calculate_fee writes on a bill, from its one matched log and price search result. */
  function FeeFor(b: Bill, log: VehicleLog, pricing: seq<PriceRow>): (c: Bill)
    requires |pricing| <= 1
    ensures c.total == c.base + c.overnight
    ensures c == b.(base := c.base, overnight := c.overnight, total := c.total)
  {
    var overnight := Overnight(DaysShown(log.display), b.overnight);
    var base := RateOf(pricing, IsNight(log.created));
    b.(base := base, overnight := overnight, total := base + overnight)
  }

  /**
   * The amounts: the base is the night or the day rate of the one price row of the bill's
   * type (0 without one), by the log's time of day; when the log's display is the one the
   * recorder stores, the overnight charge is 5000 per whole day of the stay, and a stay
   * under a day keeps the bill's prior overnight charge.
   */
  lemma FeeForAmounts(b: Bill, log: VehicleLog, pricing: seq<PriceRow>)
    requires |pricing| <= 1
    ensures var c := FeeFor(b, log, pricing);
      && (|pricing| == 0 ==> c.base == 0)
      && (|pricing| == 1 && IsNight(log.created) ==> c.base == pricing[0].nightRate)
      && (|pricing| == 1 && !IsNight(log.created) ==> c.base == pricing[0].dayRate)
      && (ShowsStay(log) && log.parkingTime >= 24.0 ==> c.overnight == (log.parkingTime / 24.0).Floor * OvernightRate)
      && (ShowsStay(log) && log.parkingTime < 24.0 ==> c.overnight == b.overnight)
  {
    FeeForOvernight(b, log, pricing);
    FeeForNoOvernight(b, log, pricing);
  }

  /** The overnight charge of a stay of a day or more. */
  lemma FeeForOvernight(b: Bill, log: VehicleLog, pricing: seq<PriceRow>)
    requires |pricing| <= 1
    ensures ShowsStay(log) && log.parkingTime >= 24.0 ==>
      FeeFor(b, log, pricing).overnight == (log.parkingTime / 24.0).Floor * OvernightRate
  {
    if ShowsStay(log) && log.parkingTime >= 24.0 {
      StayDays(log);
      assert FeeFor(b, log, pricing).overnight == DaysShown(log.display) * OvernightRate;
    }
  }

  /** A stored display of a day or more shows its whole days. */
  lemma StayDays(log: VehicleLog)
    requires ShowsStay(log) && log.parkingTime >= 24.0
    ensures DaysShown(log.display) == (log.parkingTime / 24.0).Floor >= 1
  {
    DaysShownIsWholeDays(log.parkingTime);
  }

  /** The overnight charge of a stay under a day. */
  lemma FeeForNoOvernight(b: Bill, log: VehicleLog, pricing: seq<PriceRow>)
    requires |pricing| <= 1
    ensures ShowsStay(log) && log.parkingTime < 24.0 ==> FeeFor(b, log, pricing).overnight == b.overnight
  {
    if ShowsStay(log) && log.parkingTime < 24.0 {
      StayNoDays(log);
      assert FeeFor(b, log, pricing).overnight == Overnight(0, b.overnight);
    }
  }

  /** A stored display of less than a day shows no day. */
  lemma StayNoDays(log: VehicleLog)
    requires ShowsStay(log) && log.parkingTime < 24.0
    ensures DaysShown(log.display) == 0
  {
    if log.parkingTime > 0.0 {
      DaysShownIsWholeDays(log.parkingTime);
      assert (log.parkingTime / 24.0).Floor == 0;
    } else {
      assert log.display == "";
    }
  }

  /** The log's display is its parking time rendered by the recorder, as written or corrected. */
  predicate ShowsStay(log: VehicleLog) {
    log.display == FormatParkingTimeAsWritten(log.parkingTime) || log.display == FormatParkingTime(log.parkingTime)
  }

  /** calculate_fee as written: every call that reaches a single matching log stops at the missing `time`. */
  function CalculateFeeAsWritten(s: Store, payer: Id, b: Bill, errorCode: Option<string>, prices: seq<PriceRow>): (res: (FeeResult, Store))
    requires Wf(s) && payer in s.partners
    ensures res.1 == s
    ensures !res.0.Charged?
  {
    if ResponseCode(errorCode) != "SUCCESS" then (Unchanged, s)
    else
      var logs := MatchingLogs(s, b.tagCode, b.parkingTime);
      if |logs| == 0 then (Unchanged, s)
      else if |logs| > 1 then (FeeRaised(NotSingleton), s)
      else (FeeRaised(NameNotDefined), s)
  }

  /** Wherever the intended rule charges a bill, the code as written raises NameError and charges nothing. */
  lemma AsWrittenFeeNeverCharges(s: Store, payer: Id, b: Bill, errorCode: Option<string>, prices: seq<PriceRow>)
    requires Wf(s) && payer in s.partners
    ensures CalculateFee(s, payer, b, errorCode, prices).0.Charged? ==>
      CalculateFeeAsWritten(s, payer, b, errorCode, prices) == (FeeRaised(NameNotDefined), s)
    ensures CalculateFee(s, payer, b, errorCode, prices).0 == Unchanged <==>
      CalculateFeeAsWritten(s, payer, b, errorCode, prices).0 == Unchanged
  {
  }

  // ------------------------------------------------------------- the ledger

  function SumTotals(bills: seq<Bill>): (t: int)
    decreases |bills|
  {
    if |bills| == 0 then 0 else bills[0].total + SumTotals(bills[1..])
  }

  /** The totals of the bills, in order. */
  function Totals(bills: seq<Bill>): (r: seq<int>)
    ensures |r| == |bills| && forall i :: 0 <= i < |r| ==> r[i] == bills[i].total
    ensures SumPrices(r) == SumTotals(bills)
    decreases |bills|
  {
    if |bills| == 0 then [] else [bills[0].total] + Totals(bills[1..])
  }

  function SumPrices(prices: seq<int>): (t: int)
    decreases |prices|
  {
    if |prices| == 0 then 0 else prices[0] + SumPrices(prices[1..])
  }

  /** Adds `delta` to one partner's balance. */
  function AddFunds(s: Store, p: Id, delta: int): (r: Store)
    requires p in s.partners
    ensures p in r.partners && r.partners[p].funds == s.partners[p].funds + delta
    ensures r.partners == s.partners[p := s.partners[p].(funds := r.partners[p].funds)]
  {
    s.(partners := s.partners[p := s.partners[p].(funds := s.partners[p].funds + delta)])
  }

  /**
   * deduct_cash_from_user: each bill's total comes off the acting user's partner's balance,
   * one bill after another. A balance below the total is noticed and ignored: there is no
   * floor.
   */
  function Deduct(s: Store, p: Id, bills: seq<Bill>): (r: Store)
    requires p in s.partners
    ensures p in r.partners
    decreases |bills|
  {
    if |bills| == 0 then s else Deduct(AddFunds(s, p, -bills[0].total), p, bills[1..])
  }

  /** Two ledger changes to one partner add up. */
  lemma AddFundsTwice(s: Store, p: Id, x: int, y: int)
    requires p in s.partners
    ensures AddFunds(AddFunds(s, p, x), p, y) == AddFunds(s, p, x + y)
  {
    var q := s.partners[p];
    assert q.(funds := q.funds + x).(funds := q.funds + x + y) == q.(funds := q.funds + x + y);
  }

  /** Deducting lowers the payer's balance by exactly the sum of the totals, and changes nothing else. */
  lemma {:induction false} DeductSubtractsTotal(s: Store, p: Id, bills: seq<Bill>)
    requires p in s.partners
    ensures Deduct(s, p, bills) == AddFunds(s, p, -SumTotals(bills))
    ensures Deduct(s, p, bills).partners[p].funds == s.partners[p].funds - SumTotals(bills)
    decreases |bills|
  {
    if |bills| == 0 {
      AddFundsInverse(s, p, 0);
      assert AddFunds(s, p, 0) == AddFunds(AddFunds(s, p, 0), p, -0);
    } else {
      var s1 := AddFunds(s, p, -bills[0].total);
      DeductSubtractsTotal(s1, p, bills[1..]);
      AddFundsTwice(s, p, -bills[0].total, -SumTotals(bills[1..]));
    }
  }

  /** With a balance of 1000 a bill of 3000 leaves -2000. */
  lemma DeductHasNoFloor(s: Store, p: Id, b: Bill)
    requires p in s.partners && s.partners[p].funds == 1000 && b.total == 3000
    ensures Deduct(s, p, [b]).partners[p].funds == -2000
  {
    DeductSubtractsTotal(s, p, [b]);
  }

  /** action_select_package: each package's price is added to the acting user's partner's balance. */
  function SelectPackages(s: Store, p: Id, prices: seq<int>): (r: Store)
    requires p in s.partners
    ensures p in r.partners && r.partners.Keys == s.partners.Keys
    ensures forall q :: q in s.partners && q != p ==> r.partners[q] == s.partners[q]
    ensures r == s.(partners := r.partners)
    decreases |prices|
  {
    if |prices| == 0 then s else SelectPackages(AddFunds(s, p, prices[0]), p, prices[1..])
  }

  /** Selecting packages adds the sum of their prices to the partner and changes nothing else. */
  lemma {:induction false} SelectPackagesAddsSum(s: Store, p: Id, prices: seq<int>)
    requires p in s.partners
    ensures SelectPackages(s, p, prices) == AddFunds(s, p, SumPrices(prices))
    ensures SelectPackages(s, p, prices).partners[p].funds == s.partners[p].funds + SumPrices(prices)
    decreases |prices|
  {
    if |prices| == 0 {
      AddFundsInverse(s, p, 0);
      assert AddFunds(s, p, 0) == AddFunds(AddFunds(s, p, 0), p, -0);
    } else {
      var s1 := AddFunds(s, p, prices[0]);
      SelectPackagesAddsSum(s1, p, prices[1..]);
      AddFundsTwice(s, p, prices[0], SumPrices(prices[1..]));
    }
  }

  /** Adding an amount and then its negation restores the store. */
  lemma AddFundsInverse(s: Store, p: Id, x: int)
    requires p in s.partners
    ensures AddFunds(AddFunds(s, p, x), p, -x) == s
  {
    var q := s.partners[p];
    assert q.(funds := q.funds + x - x) == q;
    assert s.partners[p := q] == s.partners;
  }

  /** Topping up by the bills' totals and then paying the bills restores the store. */
  lemma TopUpThenPayRestores(s: Store, p: Id, bills: seq<Bill>)
    requires p in s.partners
    ensures Deduct(SelectPackages(s, p, Totals(bills)), p, bills) == s
  {
    SelectPackagesAddsSum(s, p, Totals(bills));
    PayAfterAdding(s, p, bills);
  }

  lemma PayAfterAdding(s: Store, p: Id, bills: seq<Bill>)
    requires p in s.partners
    ensures Deduct(AddFunds(s, p, SumTotals(bills)), p, bills) == s
  {
    DeductSubtractsTotal(AddFunds(s, p, SumTotals(bills)), p, bills);
    AddFundsInverse(s, p, SumTotals(bills));
  }

  /** The balance plays no part in any constraint: a ledger change keeps a valid store valid. */
  lemma AddFundsKeepsValid(s: Store, p: Id, delta: int)
    requires Valid(s) && p in s.partners
    ensures Valid(AddFunds(s, p, delta))
  {
    var q := s.partners[p];
    PutPartnerKeepsValid(s, p, q.(funds := q.funds + delta));
  }

  // -------------------------------------------------------------- validators

  /** _check_price_time as written: both rates "<= 0 or < 1000" rejects the row. */
  predicate PriceRowRejected(dayRate: int, nightRate: int) {
    (dayRate <= 0 || dayRate < MinDayNightRate) && (nightRate <= 0 || nightRate < MinDayNightRate)
  }

  /**
   * The `<= 0` halves add nothing: a row is rejected exactly when both rates are below
   * 1000, so one rate of 1000 or more is enough and the other may be 0 or negative.
   */
  lemma PriceRowRule(dayRate: int, nightRate: int)
    ensures PriceRowRejected(dayRate, nightRate) <==> dayRate < MinDayNightRate && nightRate < MinDayNightRate
    ensures dayRate >= MinDayNightRate ==> !PriceRowRejected(dayRate, nightRate)
    ensures 0 < dayRate < MinDayNightRate && 0 < nightRate < MinDayNightRate ==> PriceRowRejected(dayRate, nightRate)
  {
  }

  /** _check_price_package as written: "<= 0 or < 2000" rejects. */
  predicate PackageRejected(price: int) {
    price <= 0 || price < MinPackagePrice
  }

  lemma PackageRule(price: int)
    ensures PackageRejected(price) <==> price < MinPackagePrice
  {
  }
}
