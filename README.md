# Booking form with a bounded best-date search

This project models the one React component of the `meu-agendamento`
appointment demo (`meu-agendamento/src/App.js`). A user picks a day and
submits the form. If the day is free it is confirmed. If it is booked, the
component scans forward from it, one calendar day at a time, for at most
30 days, and offers the first free day (`findBestDate`). If all 30 days are
booked it says so. The booked days are a fixed list of three ISO date strings.

The model has four modules:

- `CivilDates` (`dates.dfy`): proleptic Gregorian calendar days. It replaces
  the JavaScript `Date` object. `NextDay` is the one-day step
  `newDate.setDate(newDate.getDate() + 1)`, with month lengths and leap years.
  `Days(start, n)` is the sequence of `n` consecutive days that the loop visits.
- `IsoDates` (`iso.dfy`): the `YYYY-MM-DD` text of a day. This is what
  `toISOString().split("T")[0]` produces, and what the booked list and the
  date input hold. Parsing and formatting are proved to be inverses, and
  comparing texts is proved to be the same as comparing days. This is why
  the search can work on days rather than strings.
- `Booking` (`app.dfy`): the booked list, the search and the component state.
  - `FindBestDate` is the counted `for` loop of `findBestDate`. Its contract
    ties its result to the specification function `BestDate`. Lemmas then
    prove what `BestDate` promises: the day is free, lies in the 30-day
    window, is the first free day there, and `None` comes back exactly when
    all 30 days are booked.
  - The class `App` holds the component's state `selectedDate`,
    `suggestedDate` and `message`. `HandleSubmit` is `handleSubmit`, with
    its three-way decision.
- `Wrappers` (`wrappers.dfy`): the `Option` type. It stands for "a date or `null`".

`App.js` has a forward scan over a constant list and no booking, ownership
or swap operation.

`BestDate` is the specification function that stands for `findBestDate`
(lines 10-20): the first free day, in order, among the 30 days from the
start (`FirstFree` over `Days(start, 30)`). Every search lemma in the table
is about it. `Session` is a client scenario over lines 22-41 and 51: with
the demo's booked days, selecting 2025-09-05 and submitting offers
2025-09-07. Selecting that day then confirms it. Submitting an empty
selection afterwards keeps the suggestion.

The selected date is an `Option<CivilDate>`. `None` stands for the empty
string of the date input, which `!selectedDate` tests. The message is a
`Message` tag carrying the offered day, not the Portuguese text. The
component reads the booked list from a module-level constant. Here the
constructor takes the list as a parameter, and `BookedDates` holds the
demo's three days. `BookedDatesText` proves these are the three strings of
line 3.

## Model

| member | source | states |
|---|---|---|
| CivilDates.NextDay | meu-agendamento/src/App.js:17 | The step lands on a later day, and it is the immediate successor: the days before it are exactly the old day and the days before that, so no day is skipped at a month or year end. |
| CivilDates.Days | meu-agendamento/src/App.js:11-17 | The days the loop visits: `n` of them, the first is the start day, and each one is the next day of the one before it. |
| CivilDates.DaysAscending | meu-agendamento/src/App.js:12-17 | The visited days are in strictly increasing order, so the 30 days of a search are all different. |
| CivilDates.DaysCover | meu-agendamento/src/App.js:12-17 | Every day from the start up to, but not including, the k-th visited day is one of the k days visited before it. |
| IsoDates.Format | meu-agendamento/src/App.js:13 | The text of a day is ten characters long, with `-` at positions 4 and 7. Its first four characters are the decimal year, the next two the month and the last two the day. |
| IsoDates.Parse | meu-agendamento/src/App.js:11 | Whatever day is read from a text formats back to exactly that text, with a four-digit year. |
| IsoDates.ParseFormat | meu-agendamento/src/App.js:11-13 | Formatting a day and reading the text back gives the same day. |
| IsoDates.FormatInjective | meu-agendamento/src/App.js:29 | Two days have equal texts if and only if they are the same day. So comparing the selected text with the booked texts compares days. |
| IsoDates.IncludesAgrees | meu-agendamento/src/App.js:14 | `includes` of a day's text in the list of booked texts holds exactly when the day is in the list of booked days. |
| Booking.FirstFreeFound | meu-agendamento/src/App.js:12-16 | A result of the scan is the day at the least free position k: it is not booked, and every day before position k is booked. |
| Booking.FirstFreeNone | meu-agendamento/src/App.js:12-19 | The scan gives no result if and only if every scanned day is booked. Both directions are proved. |
| Booking.BestDateIsFree | meu-agendamento/src/App.js:14-15 | A day returned by the search is not in the booked list. |
| Booking.BestDateIsFirstInWindow | meu-agendamento/src/App.js:11-17 | A returned day is the k-th of the 30 days from the start, for some k < 30, so it is at most 29 days after the start. Each of the k days before it is booked. |
| Booking.BestDateIsEarliestFree | meu-agendamento/src/App.js:12-17 | In calendar order, a returned day is never before the start, and every day from the start up to it is booked. |
| Booking.BestDateNoneIffAllBooked | meu-agendamento/src/App.js:12-19 | The search returns `null` if and only if all 30 days from the start are booked. Both directions are proved. |
| Booking.BestDateOfFreeStart | meu-agendamento/src/App.js:13-15 | The search returns the start day itself if and only if the start day is free. |
| Booking.BestDateLaterWhenBooked | meu-agendamento/src/App.js:29-35 | When the selected day is booked, the day the search offers is strictly later. |
| Booking.BestDateExample | meu-agendamento/src/App.js:3-20 | With the demo's booked days, a search from 2025-09-05 returns 2025-09-07. |
| Booking.BookedDatesText | meu-agendamento/src/App.js:3 | The demo's booked days format to the three strings of the constant list. |
| Booking.FindBestDate | meu-agendamento/src/App.js:10-20 | The counted loop, with its early return, returns exactly `BestDate` of its inputs. It changes nothing and only reads the booked list. |
| Booking.App.constructor | meu-agendamento/src/App.js:6-8 | Initial state: nothing selected, no suggestion, empty message. The state invariant holds. |
| Booking.App.Select | meu-agendamento/src/App.js:51 | The selected-date setter changes only `selectedDate` and keeps the invariant. |
| Booking.App.HandleSubmit | meu-agendamento/src/App.js:22-41 | With no selection, only the message changes. A free selection becomes the suggestion and is confirmed. A booked selection is replaced by `BestDate`, which is strictly later. When nothing is free, only the message changes and the old suggestion stays. The invariant is kept: a suggestion is never a booked day, and an offered day is the suggestion. |

## Left out

- The JSX markup, the `styles` object and the mechanics of the `useState` hook (lines 43-124): these are presentation only. The state those hooks hold is modelled as fields of `App`.
- `e.preventDefault()` and the binding of the input's `onChange` event: these are browser event plumbing. Only the setter it calls is modelled (`Select`).
- The time of day, the time zone and daylight saving in `new Date`, `setDate`, `getDate` and `toISOString`: these depend on the host. A step is modelled as exactly one calendar day.
- The text of the Portuguese messages: only which branch fired is modelled, and for an offered day, which day.
- `includes` as a linear search over an array of strings: the search is modelled as membership in a `seq` of days. `IncludesAgrees` shows the two agree.
- IsoDates.Format: covers only years 0 to 9999. JavaScript writes other years in an expanded six-digit form with a sign, and that form is not modelled.
- IsoDates.Parse: accepts only the strict `YYYY-MM-DD` form of a real day. JavaScript engines accept more forms, and they differ in how they treat a day past the end of its month. The date input of the form produces the empty string or a valid day, written `YYYY-MM-DD` for years up to 9999, or with a longer year beyond. The model's selection is a day, not text, so this does not affect the search or the submit decision.
- The invalid-date error that `toISOString` raises for an unparseable string: it cannot arise here, because the search is only ever started from a day in the booked list.
