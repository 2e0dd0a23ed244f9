# LottoBitcoinCalculator in Dafny

The page asks for a date and time. It moves that instant to the next lottery draw, which is
on a Wednesday or a Saturday at 20:00:00.000. It then shows what 100 EUR of bitcoin bought
at that draw would be worth now:

- for a draw already in the past, the value is 100 EUR times the growth of the bitcoin price
  since the draw's calendar day;
- for a draw still to come, the value is the 100 EUR invested.

The price service answers two lookups. The history lookup takes a date key `DD-MM-YYYY` and
returns the price on that day. The simple-price lookup returns today's price.

The model has five modules.

- `Calendar` holds the parts of the ECMAScript `Date` that the program uses, following
  section 21.4.1 of ECMA-262.
  - A Date is its time value: milliseconds since the epoch, an unbounded `int`.
  - `Day`, `TimeWithinDay` and `WeekDay` (`getDay`) are defined as in that section.
  - `getDate`, `getMonth` and `getFullYear` come from a proleptic Gregorian day-number
    conversion, proved as a bijection (`CivilFromDays` and `DaysFromCivil`).
  - `setHours`, `setDate` and `setFullYear` are defined on top of these.
- `DrawScheduler` models `getNextLottoDraw`.
  - The method keeps the source's loop: pin the clock to 20:00, then step one calendar day
    at a time.
  - It is proved equal to a closed form, `NextDraw`, and the schedule's properties are
    lemmas about that closed form.
- `DateKey` builds the history lookup's date key. It proves that the key has the
  `DD-MM-YYYY` shape, that it parses back to the calendar date, and that two instants share
  a key exactly when they fall on the same day.
- `Valuation` models `calculateBitcoinInvestmentValue`.
  - The two network answers are inputs, of type `Response`. A response can be a rejected
    fetch, a non-ok status, a body that is not JSON, or a JSON body, which may lack fields.
  - The method returns the value, or the error it throws, together with the requests it
    actually sent, in order.
  - It is proved against a reference definition, `Valuate`, built from the two lookups
    ("legs"). Each leg yields a non-zero price or the error it throws.
- `Submission` models the form's submit handler.
  - It validates the entered date against a window of one calendar year either side of now.
  - The page (`ResultsPage`) is a class with three fields that the handler updates: the
    error text, the rows of the results table, and the alerts shown.

Two facts about the code shape the model:

- A failed lookup throws an `Error` with a fixed message (script.js:80, 85, 103, 108). The
  response body is read with `text()` and only logged, so the error does not carry it.
  `FetchFailed` therefore records only which lookup failed.
- The scheduling loop never goes further than the fourth day after the reference date,
  because the draw weekdays 3 and 6 are at most four days apart. `NextDraw` and
  `GetNextLottoDraw` state this bound.

Local time is taken to be UTC.

## Model

| member | source | states |
|---|---|---|
| Calendar.WeekDay | script.js:55 | `getDay` is a weekday index from 0 (Sunday) to 6 |
| Calendar.Day | script.js:52 | the day number of an instant is the whole number of days before it: the instant lies inside that day's milliseconds |
| Calendar.TimeWithinDay | script.js:52 | the time of day is between 0 and one day of milliseconds, exclusive |
| Calendar.GetDate | script.js:64 | `getDate` is a day of the month from 1 to 31 |
| Calendar.GetMonth | script.js:64 | `getMonth` is a month from 0 to 11 |
| Calendar.CivilOf | script.js:64 | the calendar date of any instant is valid: a 0-based month and a day inside that month's length, leap years included |
| Calendar.DaysFromCivilRoundTrip | script.js:64 | reading the calendar date of a day number and converting it back gives the same day number |
| Calendar.CivilFromDaysRoundTrip | script.js:64 | every valid calendar date is the calendar date of its own day number |
| Calendar.SetHoursPinsTime | script.js:52 | `setHours(20, 0, 0, 0)` keeps the calendar day and sets the time of day to exactly 20:00:00.000 |
| Calendar.SetDateNextDay | script.js:56 | `setDate(getDate() + 1)` moves exactly one day of milliseconds forward, across month and year ends |
| Calendar.AdvanceOneDay | script.js:56 | the loop's step: one day later, same time of day, weekday advanced by one modulo 7 |
| Calendar.DaysFromCivilNextYear | script.js:11-13 | the same month and day one year on is 365 or 366 days later |
| Calendar.SetFullYearShift | script.js:10-13 | `setFullYear(year - 1)` and `setFullYear(year + 1)` land 365 or 366 days before and after |
| DrawScheduler.DaysToDrawDay | script.js:48 | from any weekday, a draw weekday (3 or 6) is reached in 0 to 3 days |
| DrawScheduler.NextDraw | script.js:47-60 | the next draw is a Wednesday or Saturday at 20:00:00.000, strictly after the reference, and on the same day or up to 4 days later |
| DrawScheduler.NextDrawIsFirstQualifyingDay | script.js:55-57 | the next draw's day is the first day whose 20:00 is on a draw weekday and strictly after the reference; no earlier day qualifies |
| DrawScheduler.NextDrawIsEarliest | script.js:47-60 | no draw instant strictly after the reference comes before the next draw |
| DrawScheduler.NextDrawSameDay | script.js:51-57 | the draw stays on the reference's own day if and only if the reference is a draw day before 20:00 |
| DrawScheduler.NextDrawAfterDraw | script.js:55 | from a Wednesday draw the next draw is 3 days on; from a Saturday draw it is 4 days on |
| DrawScheduler.WednesdayNoonExample | script.js:47-60 | Wednesday 2024-01-03 at 12:00 gives the draw at 20:00 the same day |
| DrawScheduler.WednesdayEveningExample | script.js:47-60 | Wednesday 2024-01-03 at 21:00 gives the draw on Saturday 2024-01-06 at 20:00 |
| DrawScheduler.GetNextLottoDraw | script.js:47-60 | the loop returns `NextDraw`: a draw instant after the input, with no draw instant in between; it advances at most 4 days, and none at all exactly when the input is a draw day before 20:00 |
| DateKey.NatToString | script.js:64 | `toString` of a natural number is a non-empty string of decimal digits |
| DateKey.ParseIntToString | script.js:64 | the decimal rendering of an integer reads back as that integer |
| DateKey.IntToString | script.js:64 | `toString` of an integer is its decimal digits, after a `-` when it is negative |
| DateKey.TwoDigits | script.js:64 | `padStart(2, '0')` of a value below 100 is its tens digit followed by its units digit |
| DateKey.DateKeyShape | script.js:64 | the key is two digits of the day, `-`, two digits of the 1-based month, `-`, then the year; a four-digit year gives ten characters |
| DateKey.FormattedDate | script.js:64 | the `formattedDate` of an instant reads back as that instant's calendar date |
| DateKey.ParseFormatCivil | script.js:64 | parsing the key gives back the calendar date it was formatted from |
| DateKey.FormatCivilInjective | script.js:64 | different valid calendar dates get different keys |
| DateKey.FormattedDateNamesDay | script.js:64 | the key of an instant parses to that instant's calendar date, and that date's day number is the instant's day |
| DateKey.FormattedDateDeterminesDay | script.js:64 | two instants have the same key if and only if they fall on the same day |
| Valuation.HistoricalLeg | script.js:74-87 | the history lookup yields a price exactly when an ok response's JSON has a non-zero `market_data.current_price.eur`, and the price is that field; a rejected fetch, a non-ok status, an unparsable body and a failed data check each give their own error, marked as historical |
| Valuation.CurrentLeg | script.js:97-110 | the simple-price lookup yields a price exactly when an ok response's JSON has a non-zero `bitcoin.eur`, and the price is that field; each way of failing gives its own error, marked as current |
| Valuation.Valuate | script.js:63-123 | the requests are exactly the history request for the draw's key when the draw is before now, then the current-price request unless the history lookup failed; the error is the first failing lookup's; success needs every lookup made to succeed; a future draw is worth 100 |
| Valuation.ValueArithmetic | script.js:113-118 | `(100 / h) * c` equals `100 * c / h`, and `100 * c / c` is 100 |
| Valuation.ValueDraw | script.js:66-118 | the lookups, early throws and value computation of the body give exactly the reference valuation |
| Valuation.CalculateBitcoinInvestmentValue | script.js:63-123 | the valuation of a draw time, with the key formatted from the draw's day and the past test `drawDate < currentDate`, is the reference valuation |
| Valuation.PastDrawValue | script.js:114 | a past draw's value times the historical price is 100 times the current price; the value is positive for positive prices, and exactly 100 if and only if the price did not change |
| Valuation.GrowthExample | script.js:114 | bought at 20000 EUR and valued at 25000 EUR, the investment is worth 125 EUR |
| Valuation.HistoryFailureStops | script.js:74-91 | for a past draw, any failed history lookup ends the valuation with that lookup's error after the one history request; a non-ok status gives the historical fetch failure |
| Valuation.CurrentFailureStops | script.js:97-122 | once the history lookup, if made, succeeded, a failed current lookup ends the valuation with its error, the current-price request being the last one sent |
| Valuation.MissingHistoricalPriceIsInvalid | script.js:84-86 | a history body missing `market_data`, `current_price` or `eur`, or with a zero `eur`, gives the historical data-structure error before the current price is requested |
| Valuation.MissingCurrentPriceIsInvalid | script.js:107-109 | a simple-price body missing `bitcoin` or `eur`, or with a zero `eur`, gives the current data-structure error |
| Valuation.FixedMessagesDistinct | script.js:80-108 | the four fixed messages tell apart the lookup that failed and whether its status or its data was at fault |
| Valuation.FetchErrorsKeepMessage | script.js:88-91 | an error raised by `fetch` or `json()` is passed on with its own message |
| Submission.OneYearAgo | script.js:10-11 | one year ago lies 365 or 366 days before now, at the same time of day |
| Submission.OneYearAhead | script.js:12-13 | one year ahead lies 365 or 366 days after now, at the same time of day |
| Submission.ValidationMessage | script.js:19-25 | the error text is empty exactly for an accepted date |
| Submission.Validate | script.js:17-27 | an unparsable date is rejected first; any other date is accepted if and only if it lies between one year ago and one year ahead, both ends included; everything within 365 days of now is accepted |
| Submission.ResultsPage.Submit | script.js:4-44 | a rejected date sets the error text and sends nothing; an accepted one clears the error text and sends the requests of the reference valuation of its next draw; it then adds a row with that draw and its value on success, or alerts the error's message on failure |
| Submission.ResultsPage.ShowNextDrawValue | script.js:29-43 | either one row is appended or one alert is added; a new row holds a draw instant after the entered date, at most 4 days on; the rows already shown are kept |

## Left out

- The page's DOM: reading the input, looking elements up, and building the row's HTML. Only
  the three parts the handler changes are modelled: the error text, the table rows and the
  alerts.
- Parsing of the input string by `new Date(value)`. The entered date is given as
  `Option<int>`, with `None` for an invalid Date.
- The test `!inputDate`. A Date object is always truthy, so only the NaN test has an effect.
- The current instant. `new Date()` is read three times, for `currentDate`, `oneYearAgo` and
  `oneYearAhead`. The model reads it once, as the parameter `now`.
- The network, `fetch`, `json()` and `text()`. Their outcomes are supplied as `Response`
  values. A `text()` that rejects, on a non-ok response, is not modelled.
- The URLs. A history request records only its date key; a current-price request records
  nothing.
- Console logging.
- The text of errors that `fetch` or `json()` raise themselves. It is carried as an opaque
  string.
- Floating point. Prices and values are `real`, and the price fields' NaN and Infinity are
  not modelled.
- JSON bodies that are not objects, and prices that are not numbers. A `null` body makes
  `market_data` or `bitcoin` throw a `TypeError` with its own message, and a truthy
  non-number `eur` (a string, say) passes the check and is coerced in the arithmetic. The
  model's bodies are objects whose fields are absent or numbers.
- Display formatting: `toFixed(2)` and `toLocaleString`. A row stores the draw's time value
  and the exact value.
- Time zones and daylight saving: local time is UTC.
- The range limit of time values (TimeClip): time values are unbounded.
- `async` interleaving of several submissions. Each submission runs to completion on its own.
