/**
 * The valuation of 100 EUR of bitcoin at a draw date: for a draw already in the past, the
 * price on the draw's calendar day and today's price; for a draw still to come, today's
 * price alone. The two network lookups are inputs (the response each lookup would receive),
 * and the model records which lookups are actually issued, in order.
 */
module Valuation {
  import opened Wrappers
  import opened Calendar
  import opened DateKey

  /** An object { eur: number }: market_data.current_price of the history body, and bitcoin of the simple-price body. */
  datatype EurQuote = EurQuote(eur: Option<real>)

  /** market_data of the history body. */
  datatype MarketData = MarketData(currentPrice: Option<EurQuote>)

  /** The JSON body of the history lookup; a field is None when the body lacks it. */
  datatype HistoryBody = HistoryBody(marketData: Option<MarketData>)

  /** The JSON body of the simple-price lookup. */
  datatype SimplePriceBody = SimplePriceBody(bitcoin: Option<EurQuote>)

  /** What awaiting fetch(url) and then the response body yields. */
  datatype Response<J> =
    | Rejected(reason: string)          // fetch itself rejects (no response at all)
    | NotOk(status: int, body: string)  // response.ok is false; the body is read with text() and only logged
    | Unparsable(reason: string)        // response.ok, but json() rejects
    | Received(json: J)                 // response.ok and json() yields the body

  datatype Lookup = Historical | Current

  /** A request sent to the price service. */
  datatype Request = HistoryRequest(date: string) | CurrentPriceRequest

  datatype ValuationError =
    | FetchRejected(lookup: Lookup, reason: string)
    | FetchFailed(lookup: Lookup)
    | BodyUnparsable(lookup: Lookup, reason: string)
    | InvalidData(lookup: Lookup)

  /** The message of the Error that the valuation throws. */
  function ErrorMessage(e: ValuationError): string {
    match e
    case FetchRejected(_, reason) => reason
    case BodyUnparsable(_, reason) => reason
    case FetchFailed(Historical) => "Failed to fetch historical Bitcoin data"
    case FetchFailed(Current) => "Failed to fetch current Bitcoin data"
    case InvalidData(Historical) => "Invalid historical data structure"
    case InvalidData(Current) => "Invalid current data structure"
  }

  /** JavaScript truthiness of a price field: present and non-zero. */
  predicate Truthy(p: Option<real>) {
    p.Some? && p.value != 0.0
  }

  /** The history body passes the check of market_data, market_data.current_price and its eur. */
  predicate HasHistoricalPrice(body: HistoryBody) {
    body.marketData.Some? && body.marketData.value.currentPrice.Some?
      && Truthy(body.marketData.value.currentPrice.value.eur)
  }

  /** The simple-price body passes the check of bitcoin and bitcoin.eur. */
  predicate HasCurrentPrice(body: SimplePriceBody) {
    body.bitcoin.Some? && Truthy(body.bitcoin.value.eur)
  }

  // ---------------------------------------------------------------------------------------------
  // Reference definition: each lookup is a leg that yields a non-zero price or the error it
  // throws; the past path needs both legs, the future path only the current one.
  // ---------------------------------------------------------------------------------------------

  function HistoricalLeg(r: Response<HistoryBody>): (p: Result<real, ValuationError>)
    // a price comes only from a received body that passes the data check, and it is that body's eur
    ensures p.Ok? <==> r.Received? && HasHistoricalPrice(r.json)
    ensures p.Ok? ==> p.value == r.json.marketData.value.currentPrice.value.eur.value && p.value != 0.0
    // each way of failing throws its own error, marked as historical
    ensures r.Rejected? ==> p == Err(FetchRejected(Historical, r.reason))
    ensures r.NotOk? ==> p == Err(FetchFailed(Historical))
    ensures r.Unparsable? ==> p == Err(BodyUnparsable(Historical, r.reason))
    ensures r.Received? && !HasHistoricalPrice(r.json) ==> p == Err(InvalidData(Historical))
    ensures p.Err? ==> p.error.lookup == Historical
  {
    match r
    case Rejected(reason) => Err(FetchRejected(Historical, reason))
    case NotOk(_, _) => Err(FetchFailed(Historical))
    case Unparsable(reason) => Err(BodyUnparsable(Historical, reason))
    case Received(body) =>
      if HasHistoricalPrice(body) then Ok(body.marketData.value.currentPrice.value.eur.value)
      else Err(InvalidData(Historical))
  }

  function CurrentLeg(r: Response<SimplePriceBody>): (p: Result<real, ValuationError>)
    ensures p.Ok? <==> r.Received? && HasCurrentPrice(r.json)
    ensures p.Ok? ==> p.value == r.json.bitcoin.value.eur.value && p.value != 0.0
    ensures r.Rejected? ==> p == Err(FetchRejected(Current, r.reason))
    ensures r.NotOk? ==> p == Err(FetchFailed(Current))
    ensures r.Unparsable? ==> p == Err(BodyUnparsable(Current, r.reason))
    ensures r.Received? && !HasCurrentPrice(r.json) ==> p == Err(InvalidData(Current))
    ensures p.Err? ==> p.error.lookup == Current
  {
    match r
    case Rejected(reason) => Err(FetchRejected(Current, reason))
    case NotOk(_, _) => Err(FetchFailed(Current))
    case Unparsable(reason) => Err(BodyUnparsable(Current, reason))
    case Received(body) =>
      if HasCurrentPrice(body) then Ok(body.bitcoin.value.eur.value)
      else Err(InvalidData(Current))
  }

  /** What a result and its requests should be, from the legs. */
  datatype Valued = Valued(result: Result<real, ValuationError>, requests: seq<Request>)

  /**
   * The valuation of a draw whose day has key drawKey, isPast telling whether the draw lies
   * before now.
   */
  function Valuate(drawKey: string, isPast: bool, history: Response<HistoryBody>, current: Response<SimplePriceBody>): (v: Valued)
    // the historical lookup is made first, for the draw's day, and only for a draw before now
    ensures 1 <= |v.requests| <= 2
    ensures v.requests[0].HistoryRequest? <==> isPast
    ensures isPast ==> v.requests[0] == HistoryRequest(drawKey)
    // exactly these requests: the history request for a past draw, then the current-price
    // request unless the history lookup has already failed
    ensures v.requests == (if isPast then [HistoryRequest(drawKey)] else [])
                          + (if isPast && HistoricalLeg(history).Err? then [] else [CurrentPriceRequest])
    // a failed historical lookup stops the valuation before the current price is asked for
    ensures CurrentPriceRequest in v.requests <==> !(isPast && HistoricalLeg(history).Err?)
    ensures v.result.Err? && v.result.error.lookup == Historical <==> CurrentPriceRequest !in v.requests
    // success needs every lookup made to succeed
    ensures v.result.Ok? <==> CurrentLeg(current).Ok? && (isPast ==> HistoricalLeg(history).Ok?)
    // the error thrown is the first failing leg's
    ensures v.result.Err? ==> v.result.error == (if isPast && HistoricalLeg(history).Err? then HistoricalLeg(history).error
                                                 else CurrentLeg(current).error)
    // a draw still to come is valued at the invested amount
    ensures v.result.Ok? && !isPast ==> v.result.value == 100.0
  {
    if isPast then
      match HistoricalLeg(history)
      case Err(e) => Valued(Err(e), [HistoryRequest(drawKey)])
      case Ok(past) =>
        Valued(match CurrentLeg(current)
               case Err(e) => Err(e)
               case Ok(now) => Ok(100.0 * now / past),
               [HistoryRequest(drawKey), CurrentPriceRequest])
    else
      Valued(match CurrentLeg(current)
             case Err(e) => Err(e)
             case Ok(_) => Ok(100.0),
             [CurrentPriceRequest])
  }

  /** The two ways the source writes the value agree with the reference definition. */
  lemma ValueArithmetic(past: real, now: real)
    requires past != 0.0 && now != 0.0
    ensures (100.0 / past) * now == 100.0 * now / past
    ensures 100.0 * now / now == 100.0
  {
  }

  // ---------------------------------------------------------------------------------------------
  // calculateBitcoinInvestmentValue
  // ---------------------------------------------------------------------------------------------

  /**
   * calculateBitcoinInvestmentValue(drawDate, currentDate): the draw's day is formatted as the
   * history lookup's date key, and the draw is valued by ValueDraw.
   */
  method CalculateBitcoinInvestmentValue(drawDate: int, currentDate: int,
                                         history: Response<HistoryBody>, current: Response<SimplePriceBody>)
    returns (result: Result<real, ValuationError>, requests: seq<Request>)
    ensures Valued(result, requests) == Valuate(FormattedDate(drawDate), drawDate < currentDate, history, current)
  {
    var formattedDate := FormattedDate(drawDate);
    result, requests := ValueDraw(formattedDate, drawDate < currentDate, history, current);
  }

  /**
   * The body of the valuation: the first error met is thrown, and a lookup is only made once
   * every earlier one has succeeded.
   */
  method ValueDraw(formattedDate: string, isPast: bool,
                   history: Response<HistoryBody>, current: Response<SimplePriceBody>)
    returns (result: Result<real, ValuationError>, requests: seq<Request>)
    ensures Valued(result, requests) == Valuate(formattedDate, isPast, history, current)
  {
    var historicalPrice: Option<real> := None;
    requests := [];
    if isPast {
      requests := requests + [HistoryRequest(formattedDate)];
      match history {
        case Rejected(reason) =>
          return Err(FetchRejected(Historical, reason)), requests;
        case NotOk(_, _) =>
          return Err(FetchFailed(Historical)), requests;
        case Unparsable(reason) =>
          return Err(BodyUnparsable(Historical, reason)), requests;
        case Received(data) =>
          if data.marketData.None? || data.marketData.value.currentPrice.None?
             || !Truthy(data.marketData.value.currentPrice.value.eur) {
            return Err(InvalidData(Historical)), requests;
          }
          historicalPrice := data.marketData.value.currentPrice.value.eur;
      }
    }

    requests := requests + [CurrentPriceRequest];
    var currentPrice: real;
    match current {
      case Rejected(reason) =>
        return Err(FetchRejected(Current, reason)), requests;
      case NotOk(_, _) =>
        return Err(FetchFailed(Current)), requests;
      case Unparsable(reason) =>
        return Err(BodyUnparsable(Current, reason)), requests;
      case Received(data) =>
        if data.bitcoin.None? || !Truthy(data.bitcoin.value.eur) {
          return Err(InvalidData(Current)), requests;
        }
        currentPrice := data.bitcoin.value.eur.value;
    }
    if Truthy(historicalPrice) {
      result := Ok((100.0 / historicalPrice.value) * currentPrice);
      ValueArithmetic(historicalPrice.value, currentPrice);
      assert historicalPrice.value != 0.0;
      assert (100.0 / historicalPrice.value) * currentPrice == 100.0 * currentPrice / historicalPrice.value;
      assert result == Ok(100.0 * currentPrice / historicalPrice.value);
    } else {
      result := Ok(100.0 * currentPrice / currentPrice);
      ValueArithmetic(currentPrice, currentPrice);
    }
  }

  // ---------------------------------------------------------------------------------------------
  // Properties of the valuation
  // ---------------------------------------------------------------------------------------------

  /** A past draw is valued at 100 EUR times the growth of the price since the draw's day. */
  lemma PastDrawValue(drawKey: string, history: Response<HistoryBody>, current: Response<SimplePriceBody>)
    requires HistoricalLeg(history).Ok? && CurrentLeg(current).Ok?
    ensures var v := Valuate(drawKey, true, history, current).result;
            var past := HistoricalLeg(history).value;
            var now := CurrentLeg(current).value;
            v.Ok? && v.value * past == 100.0 * now
            && (0.0 < past && 0.0 < now ==> 0.0 < v.value)
            && (v.value == 100.0 <==> now == past)
  {
    GrowthArithmetic(HistoricalLeg(history).value, CurrentLeg(current).value);
  }

  lemma GrowthArithmetic(past: real, now: real)
    requires past != 0.0
    ensures (100.0 * now / past) * past == 100.0 * now
    ensures 0.0 < past && 0.0 < now ==> 0.0 < 100.0 * now / past
    ensures 100.0 * now / past == 100.0 <==> now == past
  {
    var value := 100.0 * now / past;
    assert value * past == 100.0 * now;
    if 0.0 < past && 0.0 < now {
      assert 0.0 < 100.0 * now;
    }
    if value == 100.0 {
      assert 100.0 * past == 100.0 * now;
    }
  }

  /** Buying at 20000 EUR and valuing at 25000 EUR gives 125 EUR. */
  lemma GrowthExample(drawKey: string)
    ensures Valuate(drawKey, true,
                    Received(HistoryBody(Some(MarketData(Some(EurQuote(Some(20000.0))))))),
                    Received(SimplePriceBody(Some(EurQuote(Some(25000.0)))))).result == Ok(125.0)
  {
    assert 100.0 * 25000.0 / 20000.0 == 125.0;
  }

  /** A failed history lookup ends the valuation with its error, before the current price is requested. */
  lemma HistoryFailureStops(drawKey: string, history: Response<HistoryBody>, current: Response<SimplePriceBody>)
    requires HistoricalLeg(history).Err?
    ensures Valuate(drawKey, true, history, current) == Valued(Err(HistoricalLeg(history).error), [HistoryRequest(drawKey)])
    ensures history.NotOk? ==>
              Valuate(drawKey, true, history, current) == Valued(Err(FetchFailed(Historical)), [HistoryRequest(drawKey)])
  {
  }

  /** Once the history lookup, if made, succeeded, a failed current lookup ends the valuation with its error. */
  lemma CurrentFailureStops(drawKey: string, isPast: bool, history: Response<HistoryBody>, current: Response<SimplePriceBody>)
    requires isPast ==> HistoricalLeg(history).Ok?
    requires CurrentLeg(current).Err?
    ensures Valuate(drawKey, isPast, history, current).result == Err(CurrentLeg(current).error)
    ensures Valuate(drawKey, isPast, history, current).requests[|Valuate(drawKey, isPast, history, current).requests| - 1]
              == CurrentPriceRequest
    ensures current.NotOk? ==> Valuate(drawKey, isPast, history, current).result == Err(FetchFailed(Current))
  {
  }

  /** A history body without market_data.current_price.eur, or with a zero one, fails the data check. */
  lemma MissingHistoricalPriceIsInvalid(drawKey: string, body: HistoryBody, current: Response<SimplePriceBody>)
    requires body.marketData.None? || body.marketData.value.currentPrice.None?
             || body.marketData.value.currentPrice.value.eur == None
             || body.marketData.value.currentPrice.value.eur == Some(0.0)
    ensures Valuate(drawKey, true, Received(body), current) == Valued(Err(InvalidData(Historical)), [HistoryRequest(drawKey)])
  {
  }

  /** A simple-price body without bitcoin.eur, or with a zero one, fails the data check. */
  lemma MissingCurrentPriceIsInvalid(drawKey: string, isPast: bool, history: Response<HistoryBody>, body: SimplePriceBody)
    requires isPast ==> HistoricalLeg(history).Ok?
    requires body.bitcoin.None? || body.bitcoin.value.eur == None || body.bitcoin.value.eur == Some(0.0)
    ensures Valuate(drawKey, isPast, history, Received(body)).result == Err(InvalidData(Current))
  {
  }

  /** The fixed messages tell apart the lookup that failed and whether it was the status or the data. */
  lemma FixedMessagesDistinct(l1: Lookup, l2: Lookup)
    ensures ErrorMessage(FetchFailed(l1)) == ErrorMessage(FetchFailed(l2)) <==> l1 == l2
    ensures ErrorMessage(InvalidData(l1)) == ErrorMessage(InvalidData(l2)) <==> l1 == l2
    ensures ErrorMessage(FetchFailed(l1)) != ErrorMessage(InvalidData(l2))
  {
    if l1 != l2 {
      assert ErrorMessage(FetchFailed(l1))[16] != ErrorMessage(FetchFailed(l2))[16];
      assert ErrorMessage(InvalidData(l1))[8] != ErrorMessage(InvalidData(l2))[8];
    }
    assert ErrorMessage(FetchFailed(l1))[0] != ErrorMessage(InvalidData(l2))[0];
  }

  /** An error from fetch or json() is passed on with its own message. */
  lemma FetchErrorsKeepMessage(lookup: Lookup, reason: string)
    ensures ErrorMessage(FetchRejected(lookup, reason)) == reason
    ensures ErrorMessage(BodyUnparsable(lookup, reason)) == reason
  {
  }
}
