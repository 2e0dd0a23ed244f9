/**
 * Handling one submission of the draw-date form: the entered date is validated against a
 * window of one year either side of now, moved to the next draw, valued, and the page shows
 * either an error text, a new row in the results table, or an alert.
 */
module Submission {
  import opened Wrappers
  import opened Calendar
  import opened DrawScheduler
  import opened DateKey
  import opened Valuation

  /** The same instant one calendar year earlier (29 February becomes 1 March). */
  function OneYearAgo(now: int): (r: int)
    ensures 365 * MsPerDay <= now - r <= 366 * MsPerDay
    ensures TimeWithinDay(r) == TimeWithinDay(now)
  {
    SetFullYearShift(now);
    MakeDateParts(DaysFromCivil(GetFullYear(now) - 1, GetMonth(now), GetDate(now)), TimeWithinDay(now));
    SetFullYear(now, GetFullYear(now) - 1)
  }

  /** The same instant one calendar year later. */
  function OneYearAhead(now: int): (r: int)
    ensures 365 * MsPerDay <= r - now <= 366 * MsPerDay
    ensures TimeWithinDay(r) == TimeWithinDay(now)
  {
    SetFullYearShift(now);
    MakeDateParts(DaysFromCivil(GetFullYear(now) + 1, GetMonth(now), GetDate(now)), TimeWithinDay(now));
    SetFullYear(now, GetFullYear(now) + 1)
  }

  datatype Validation = InvalidDate | OutOfRange | Accepted

  /**
   * The checks on the entered date, in order: a date that does not parse (an invalid Date) is
   * rejected first; then one outside [one year ago, one year ahead], both ends included.
   */
  function Validate(input: Option<int>, now: int): (v: Validation)
    ensures v == InvalidDate <==> input.None?
    ensures v == Accepted <==> input.Some? && OneYearAgo(now) <= input.value <= OneYearAhead(now)
    ensures v == Accepted ==> now - 366 * MsPerDay <= input.value <= now + 366 * MsPerDay
    ensures input.Some? && now - 365 * MsPerDay <= input.value <= now + 365 * MsPerDay ==> v == Accepted
  {
    match input
    case None => InvalidDate
    case Some(t) =>
      if t < OneYearAgo(now) || t > OneYearAhead(now) then OutOfRange else Accepted
  }

  /** The text shown in the error element: empty for an accepted date, a fixed explanation otherwise. */
  function ValidationMessage(v: Validation): (text: string)
    ensures text == "" <==> v == Accepted
  {
    match v
    case InvalidDate => "Please enter a valid date and time."
    case OutOfRange => "Date must be within the past year or up to one year in the future."
    case Accepted => ""
  }

  /** A row of the results table: the draw and the value of 100 EUR of bitcoin bought at it. */
  datatype Row = Row(draw: int, value: real)

  /** The parts of the page a submission changes. */
  class ResultsPage {
    var errorText: string
    var rows: seq<Row>
    var alerts: seq<string>

    constructor()
      ensures errorText == "" && rows == [] && alerts == []
    {
      errorText := "";
      rows := [];
      alerts := [];
    }

    /**
     * The submit handler for an entered date (None when it does not parse) at instant now,
     * given the responses the price service would send; the requests actually sent are returned.
     */
    method Submit(input: Option<int>, now: int, history: Response<HistoryBody>, current: Response<SimplePriceBody>)
      returns (requests: seq<Request>)
      modifies this
      ensures var v := Validate(input, now);
              v != Accepted ==>
                errorText == ValidationMessage(v) && requests == []
                && rows == old(rows) && alerts == old(alerts)
      ensures var v := Validate(input, now);
              v == Accepted ==>
                var draw := NextDraw(input.value);
                var valued := Valuate(FormattedDate(draw), draw < now, history, current);
                errorText == "" && requests == valued.requests
                && (valued.result.Ok? ==> rows == old(rows) + [Row(draw, valued.result.value)] && alerts == old(alerts))
                && (valued.result.Err? ==> rows == old(rows) && alerts == old(alerts) + [ErrorMessage(valued.result.error)])
    {
      errorText := "";
      requests := [];
      if input.None? {
        errorText := ValidationMessage(InvalidDate);
        return;
      }
      if input.value < OneYearAgo(now) || input.value > OneYearAhead(now) {
        errorText := ValidationMessage(OutOfRange);
        return;
      }
      requests := ShowNextDrawValue(input.value, now, history, current);
    }

    /**
     * The accepted path: the entered date is moved to the next draw, which is valued; the value
     * is appended as a row, or the error's message is alerted.
     */
    method ShowNextDrawValue(inputDate: int, now: int, history: Response<HistoryBody>, current: Response<SimplePriceBody>)
      returns (requests: seq<Request>)
      modifies this
      ensures errorText == old(errorText)
      ensures var draw := NextDraw(inputDate);
              var valued := Valuate(FormattedDate(draw), draw < now, history, current);
              requests == valued.requests
              && (valued.result.Ok? ==> rows == old(rows) + [Row(draw, valued.result.value)] && alerts == old(alerts))
              && (valued.result.Err? ==> rows == old(rows) && alerts == old(alerts) + [ErrorMessage(valued.result.error)])
      // a row is only ever added for a draw instant strictly after the entered date and at most four days on
      ensures |rows| == |old(rows)| + 1 ==>
                IsDrawInstant(rows[|rows| - 1].draw) && inputDate < rows[|rows| - 1].draw
                && Day(rows[|rows| - 1].draw) <= Day(inputDate) + 4
      ensures |rows| <= |old(rows)| + 1 && rows[..|old(rows)|] == old(rows)
    {
      var nextDrawDate, _ := GetNextLottoDraw(inputDate);
      var result;
      result, requests := CalculateBitcoinInvestmentValue(nextDrawDate, now, history, current);
      match result {
        case Ok(value) =>
          rows := rows + [Row(nextDrawDate, value)];
        case Err(e) =>
          alerts := alerts + [ErrorMessage(e)];
      }
    }
  }
}
