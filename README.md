# NHSP shift scraper: a Dafny model of its decision and formatting logic

The scraper logs into the NHS Professionals bank portal in a Puppeteer-driven (visible) browser,
captures the bearer token the portal's own Calendar call carries, then polls the
shift-search API every minute and e-mails the operator when the list of
available shifts changes. All of it lives in `src/index.js`. This project models
the parts of that file that decide and format, apart from the browser, network
and mail plumbing around them:

- **Credential capture** (`scraper.dfy`): the request-interception handler as a
  method on a `Scraper` class whose fields are the module-level `authToken`,
  `previousEmail` and the log of requests let through. A fold, `CapturedToken`,
  specifies it: the last request to the Calendar endpoint wins, and a matching
  request without an `authorization` header sets the token to undefined (`None`).
- **Poll cycle** (`scraper.dfy`): `keepScraping` once the search has returned.
  `Cycle` specifies it as a transition of the stored body `previousEmail`.
  `Run` strings cycles together, and lemmas prove the deduplication guarantees
  over any sequence of responses.
- **Shift normalisation** (`shifts.dfy`): the `Shifts.map(...)` that flattens
  `Location`/`Ward` to their names and cuts `StartTime`/`EndTime` with
  `split('T')[1].slice(0, 5)`. A time without a `'T'` makes the JavaScript throw.
  The model returns `None` there, and the cycle ends with outcome `Threw` and no
  state change.
- **E-mail body** (`email_body.dfy`): `generateEmailHtml` as a method with the
  source's nested appending loops. It is proved equal to a specification
  function `EmailHtml`, and lemmas cover block order, note order and `<li>` counts.
- **Date window** (`date_window.dfy`): `calculateDays` over UTC calendar dates.
  A `JsDate` class has a `SetMonth` method with ECMAScript's `setMonth` overflow
  rules. `formatDate` is modelled as `split('T')[0] + 'T00:00:00.000Z'` on the
  `toISOString` text.
- `js_text.dfy` holds the JavaScript string operations used above: `split` with a
  one-character separator and `slice(0, n)`. It also holds `IndexOf`, which the
  scraper never calls; it names the first separator in the contracts about `split`.
  `wrappers.dfy` holds `Option`.

The locale-formatted shift date is a parameter, `dateText`. The portal URL
(`NHS_WEBSITE`) is a parameter, `website`. The Calendar endpoint URL is the
constant `Scraper.CalendarEndpoint`. The lemmas about the token fold take the
endpoint as a parameter. The lemmas about cycles take the renderer as a
parameter; the class passes `EmailBody.Renderer`, which is `EmailHtml`.

Two behaviours of the code are easy to miss:
- An empty `Shifts` array is truthy in JavaScript. It keeps `previousEmail`,
  sends nothing and logs "No new shifts found" (`Scraper.Cycle`, last ensures).
- `setMonth` runs surplus days into the following month, so Jan 31 becomes
  Mar 3, or Mar 2 in a leap year (`DateWindow.OneMonthLater`).

## Model

| member | source | states |
|---|---|---|
| `JsText.Split` | src/index.js:60-61 | `split` always yields at least one piece |
| `JsText.IndexOf` | src/index.js:60 | the result is -1 exactly when the character is absent; otherwise it is the position of the first occurrence |
| `JsText.Prefix` | src/index.js:60-61 | `slice(0, n)` is a prefix of length n, or the whole string when it is shorter |
| `JsText.SplitJoin` | src/index.js:60 | joining the pieces with the separator rebuilds the string; no piece contains the separator |
| `JsText.SplitPieces` | src/index.js:108 | the first piece is the text before the first separator; the other pieces are those of the text after it |
| `JsText.FirstPiece` | src/index.js:108 | the first piece is a separator-free prefix that ends at the end of the string or at a separator |
| `JsText.SplitHasSecondPiece` | src/index.js:60 | `split('T')[1]` exists exactly when the string contains 'T' |
| `Shifts.TimeOfDay` | src/index.js:60-61 | None (JS TypeError) exactly when there is no 'T'; otherwise the value has at most 5 characters, contains no 'T', is a prefix of the text after the first 'T', and is cut short only by the end of the text or a second 'T' |
| `Shifts.SecondPiece` | src/index.js:60 | `split('T')[1]` is the text after the first 'T', up to the next 'T' or the end |
| `Shifts.TimeOfDayAfter` | src/index.js:60-61 | for a date without 'T' followed by 'T' and more text, the time is the first 5 characters of the first piece of that text |
| `Shifts.IsoTimeOfDay` | src/index.js:60-61 | for a timestamp like "2024-05-01T09:00:00Z", the time is the "HH:MM" after the 'T' |
| `Shifts.NormaliseShift` | src/index.js:56-63 | succeeds exactly when both times contain 'T'; keeps the date and notes, flattens Location and Ward to their names, and cuts both times with TimeOfDay |
| `Shifts.Normalise` | src/index.js:56-63 | succeeds exactly when every shift normalises; the result has the same length and order, and element k is shift k normalised |
| `EmailBody.GenerateEmailHtml` | src/index.js:150-182 | the body built by the appending loops equals `EmailHtml` of the shifts and starts with the fixed header |
| `EmailBody.AppendBlock` | src/index.js:153-179 | one `forEach` step appends exactly that shift's block: head, one item per note or the placeholder, then the tail |
| `EmailBody.ConcatAppend` | src/index.js:153 | rendering a concatenated list gives the renderings of the two parts, one after the other |
| `EmailBody.ConcatSplitAt` | src/index.js:153 | the rendering of a list is the part before element k, then element k's text, then the part after it |
| `EmailBody.BlockOrder` | src/index.js:151-179 | the body is the body for the shifts before shift k, then shift k's block, then the blocks of the later shifts |
| `EmailBody.NoteOrder` | src/index.js:174-176 | the notes list is the items of the notes before note k, then note k's item, then the items of the later notes |
| `EmailBody.ConcatLength` | src/index.js:153 | when every element has a non-empty text, the rendering has at least one character per element |
| `EmailBody.HeaderOnlyIffNoShifts` | src/index.js:151-181 | the body is the bare header exactly when the shift list is empty |
| `EmailBody.LiCountConcat` | src/index.js:175 | `<li>` counts add up over a concatenation when no `<li>` can straddle the join |
| `EmailBody.ListItemCount` | src/index.js:176 | the placeholder item, like any item whose text has no '<', contains exactly one `<li>` |
| `EmailBody.LiCountConcatSpace` | src/index.js:175 | `<li>` counts add up over a join at a space, since no `<li>` can straddle it |
| `EmailBody.NoteItemCount` | src/index.js:175 | the item of a note that contains no `<li>` holds exactly one `<li>` |
| `EmailBody.NoteItemsCount` | src/index.js:175 | the items of n notes, none containing `<li>`, hold exactly n `<li>` |
| `EmailBody.NotesListCount` | src/index.js:174-176 | when no note contains `<li>`, a block's notes list holds one `<li>` per note, or exactly one (the placeholder) when there are no notes |
| `EmailBody.NoteItem` | src/index.js:175 | the `<li> ${note} </li>` template; `NoteItemCount` counts its items |
| `EmailBody.NoNotesItem` | src/index.js:176 | the placeholder item; `ListItemCount` counts it |
| `EmailBody.NotesList` | src/index.js:174-176 | the notes list of a block: the note items in order, or the placeholder when `Notes` is empty; characterised by `NoteOrder` and `NotesListCount` |
| `EmailBody.BlockHead` | src/index.js:164-172 | the block text up to the opening `<ul>`, character for character |
| `EmailBody.BlockTail` | src/index.js:178 | the closing `</ul>`, rule and "Book Now" link to the website |
| `EmailBody.Block` | src/index.js:164-178 | one `forEach` step's text: head, notes list, tail; `AppendBlock` appends exactly this |
| `EmailBody.EmailHtml` | src/index.js:150-182 | the header `<h2>Upcoming Shifts </h2> <hr> ` and one block per shift in order; characterised by `BlockOrder` and `HeaderOnlyIffNoShifts`, and equal to the loop's result by `GenerateEmailHtml` |
| `DateWindow.DaysInMonth` | src/index.js:101 | month lengths are between 28 and 31, and only a non-leap February has 28 days |
| `DateWindow.NextDay` | src/index.js:101 | the next calendar day is a valid date |
| `DateWindow.AddDays` | src/index.js:101 | adding days to a valid date gives a valid date |
| `DateWindow.WithMonth` | src/index.js:101 | `setMonth(m)` yields a valid date no earlier than year + floor(m / 12) |
| `DateWindow.AddDaysWithinMonth` | src/index.js:101 | k days after the 1st, within the month, is day k + 1 |
| `DateWindow.AddDaysIntoNextMonth` | src/index.js:101 | days beyond the month's length run into the next month, wrapping December into January |
| `DateWindow.SetMonthIsDayOffset` | src/index.js:101 | `setMonth(m)` equals the 1st of the normalised target month plus day - 1 days, as ECMAScript's MakeDay builds it |
| `DateWindow.OneMonthLater` | src/index.js:100-101 | `setMonth(getMonth() + 1)` keeps the day when the target month has it and wraps December to January of the next year; otherwise the 1-3 surplus days land at the start of the month after |
| `DateWindow.Digits` | src/index.js:108 | zero-padded decimal of exactly the requested width, all digits |
| `DateWindow.DigitsRoundTrip` | src/index.js:108 | reading the padded digits back gives the number |
| `DateWindow.YearText` | src/index.js:108 | toISOString writes years 0-9999 as 4 digits and any other year as a sign and 6 digits |
| `DateWindow.IsoDate` | src/index.js:108 | the date part of toISOString contains no 'T' |
| `DateWindow.FormatDateDropsTime` | src/index.js:107-109 | `formatDate` of a toISOString text is the date at midnight, whatever the time of day |
| `DateWindow.YearRoundTrip` | src/index.js:108 | the year text reads back as the year |
| `DateWindow.MidnightRoundTrip` | src/index.js:106-109 | a window string reads back as its date: `YYYY-MM-DD` + `T00:00:00.000Z` |
| `DateWindow.MidnightInjective` | src/index.js:106-109 | different dates give different window strings |
| `DateWindow.DayNumber` | src/index.js:98-101 | ECMAScript's day number (DayFromYear plus days into the year), days since 1970-01-01 |
| `DateWindow.YearStep` | src/index.js:101 | DayFromYear advances by 366 days in a leap year and 365 otherwise |
| `DateWindow.YearLength` | src/index.js:101 | DayFromYear advances by exactly the days of the year's twelve months |
| `DateWindow.NextDayNumber` | src/index.js:101 | the calendar's next day has the next day number |
| `DateWindow.AddDaysNumber` | src/index.js:101 | n days later has a day number n larger |
| `DateWindow.RangeEnds` | src/index.js:98-101 | the first and last days a Date can hold are 100,000,000 days either side of 1970-01-01, the last at 8.64e15 ms |
| `DateWindow.TimeInRange` | src/index.js:98-101 | a date and time of day lie in a Date's range: from -271821-04-20 to 275760-09-13 at midnight |
| `DateWindow.ToIsoString` | src/index.js:108 | `toISOString`: the date part, 'T', `HH:MM:SS.mmm`, 'Z'; `FormatDateDropsTime` cuts it at the 'T' |
| `DateWindow.FormatDate` | src/index.js:107-109 | `formatDate`: the text before the first 'T' plus `T00:00:00.000Z`; characterised by `FormatDateDropsTime` and `MidnightRoundTrip` |
| `DateWindow.JsDate.GetMonth` | src/index.js:101 | `getMonth()`: the 0-based UTC month |
| `DateWindow.JsDate.IsoString` | src/index.js:108 | `toISOString()` of the object's date and time of day |
| `DateWindow.JsDate.constructor` | src/index.js:98-99 | `new Date()` holds the given UTC date and time of day, which lie in the Date range |
| `DateWindow.JsDate.SetMonth` | src/index.js:101 | the date becomes `WithMonth` of the old date and the time of day is kept, for every result inside the Date range |
| `DateWindow.CalculateDays` | src/index.js:98-118 | the start is today's window string, and the end is the window string of today advanced by one month under setMonth rules |
| `Scraper.Authorization` | src/index.js:26-27 | `headers.authorization`: the header's value, or undefined (`None`) when it is missing |
| `Scraper.TokenAfter` | src/index.js:25-28 | one handler call: a request to the endpoint sets the token to its authorization header, any other keeps it |
| `Scraper.CapturedToken` | src/index.js:24-31 | the handler folded over the requests in order; characterised by `LastCallWins` and `NoCallKeepsToken` |
| `Scraper.CapturedTokenSnoc` | src/index.js:24-31 | handling one more request updates the folded token by that request alone |
| `Scraper.NoCallKeepsToken` | src/index.js:25-28 | requests to other URLs leave the token unchanged |
| `Scraper.LastCallWins` | src/index.js:24-31 | the token is the authorization header of the last request whose URL equals the endpoint |
| `Scraper.Cycle` | src/index.js:43-75 | no Shifts field: logs "0 shifts found" and clears the stored body; a time without 'T': throws and changes nothing; otherwise a send happens exactly when the rendered body differs from the stored one and there is at least one shift; after a send, the stored body is the sent body and the count is the number of shifts; otherwise the stored body is kept; an empty Shifts array sends nothing and keeps it |
| `Scraper.SameShiftsSendOnce` | src/index.js:67-73 | a cycle that sends, repeated on the same response, does not send and keeps the stored body |
| `Scraper.DroughtRearms` | src/index.js:49-53 | after a response without Shifts, any non-empty list of shifts is sent, even if its body matches an earlier one |
| `Scraper.Run` | src/index.js:79-80 | consecutive cycles yield one transition per response |
| `Scraper.RunStep` | src/index.js:43-75 | cycle k runs from the body stored by cycle k - 1 |
| `Scraper.StoredIsLastSent` | src/index.js:9 | before any cycle, `previousEmail` is the body of the last e-mail sent since the last response without Shifts, or the initial value |
| `Scraper.StoredSinceSend` | src/index.js:67-73 | after a send, the stored body stays that body until the next send or response without Shifts |
| `Scraper.NoRepeatWithoutDrought` | src/index.js:68-70 | two sends with no send and no response without Shifts between them have different bodies |
| `Scraper.Scraper.constructor` | src/index.js:6-9 | `authToken` and `previousEmail` start as null, and no request has been continued |
| `Scraper.Scraper.OnRequest` | src/index.js:24-31 | a Calendar request sets `authToken` to its authorization header (undefined when absent); every request is continued exactly once, in order; `previousEmail` is untouched |
| `Scraper.Scraper.OnRequests` | src/index.js:24-31 | over a sequence of requests, `authToken` becomes `CapturedToken` of the old token and every request is continued once, in order |
| `Scraper.Scraper.KeepScraping` | src/index.js:43-75 | the new `previousEmail` and the outcome are `Cycle` of the old stored body, with `generateEmailHtml` as the renderer; `authToken` is untouched |
| `Scraper.RepeatedResponses` | src/index.js:49-73 | on a fresh scraper, the same shifts send once and then do not; a response without Shifts re-arms the scraper, and the same e-mail is sent again |
| `Scraper.CaptureFromThirdRequest` | src/index.js:24-31 | when only the third of three requests is the Calendar call, its header is captured and all three are continued |

## Left out

- Browser launch, navigation, login form filling and waiting (src/index.js:14-40) are Puppeteer I/O. So is the `!browser || !page || !authToken` test that re-runs them.
- `fetchShifts` (src/index.js:123-146) runs an HTTP POST inside the page. Its JSON result is the `Response` input of a cycle. The date window it sends is modelled separately by `CalculateDays`.
- `sendEmail` (src/index.js:186-206) uses the Nodemailer/SMTP transport. A send is the outcome `Sent(body, count)`, and transport errors are not modelled.
- `setInterval` scheduling, overlapping cycles, and the interleaving of the request handler with polling (src/index.js:24, 79-80) are concurrency. Cycles and requests are modelled one at a time, in order.
- The triple `try`/`catch` around `MAIN()` (src/index.js:88-92) is process-level control flow. So is what Node does with the unhandled rejection after a cycle throws; the model stops at outcome `Threw`.
- The shift date's formatting (`new Date(shift.ShiftDate)`, `toLocaleDateString`, `getDate`, `getFullYear`, `toLocaleTimeString`; src/index.js:156-162) is the opaque `dateText` parameter.
- Logging is left out: `console.log` and the `getTime` timestamps of its lines (src/index.js:50, 72, 204, 210-212). Outcomes name the line that would be logged.
- Environment variables (`dotenv`, `process.env`) become parameters: `website` and the constant `CalendarEndpoint`.
- Response shapes JSON allows but the model does not: a truthy non-array `Shifts`, a missing `Location`/`Ward`, non-string notes or times. Every falsy `Shifts` value (absent, null, 0, "") is `None`.
- `Notes` other than an array of strings. An absent or null `Notes` throws at `shift.Notes.length` (src/index.js:174), and a non-empty string throws at `forEach` (src/index.js:175). An object, number, boolean or empty string renders the placeholder item (src/index.js:176). The model's `notes` is always a list, so none of these cases is modelled.
- TimeOfDay, Prefix: the cut counts Unicode code points, while JavaScript's `slice(0, 5)` counts UTF-16 code units. The two differ only for text holding characters outside the Basic Multilingual Plane.
- Normalise: reports only that some shift failed, not which one threw first; JavaScript stops at the first failure either way.
- CalculateDays: both `new Date()` calls are taken to read the same instant. Local time is taken to be UTC, so `getMonth`/`setMonth` and `toISOString` agree.
- JsDate.SetMonth: a result outside the Date range (an Invalid Date, NaN time value, in JavaScript) is excluded by its requires rather than modelled.
- CalculateDays: within a month of 275760-09-13 the later date leaves the Date range and `toISOString` throws a `RangeError`. Its requires excludes that case.
- NotesListCount: the `<li>` count is proved only for notes that contain no `<li>`. Such a note would add items of its own.
