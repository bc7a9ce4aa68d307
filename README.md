# URL shortener core, modelled in Dafny

This project models the logic at the heart of a single-page URL shortener
written in React (`App.jsx`). The page holds one in-memory registry. It maps
each short code to an entry: the original URL, an expiry date and the list of
clicks recorded on it. Three handlers change that state:

- **`handleSubmit`**: runs up to five form rows against the registry. For each
  row it checks the URL, picks the code and rejects a code that is already
  taken. It then reads the validity field as minutes and stores a fresh entry
  with no clicks. A failed row does not stop the rows after it.
- **The redirect effect of `/:code`**: looks the code up and refuses unknown
  and expired codes. Otherwise it appends one click and redirects to the
  original URL.
- **The row editor and the log sink**: `addRow`, `removeRow`, `handleChange`
  and `log`.

The modules follow that structure:

- `JsString` (js_string.dfy): `String.prototype.trim` and the white-space set
  of ECMA-262 (sections 12.2 and 12.3) that it shares with `parseInt`.
- `JsParseInt` (js_parse_int.dfy): `parseInt(s, 10)` as section 19.2.5 of
  ECMA-262 defines it, with its round trip against decimal rendering.
- `Registry` (registry.dfy): entries, clicks, the Date time value with
  TimeClip and the Invalid Date, and the `Store` object.
- `Logging` (logging.dfy): the `Logger` whose `Log` method only appends.
- `Shortener` (shortener.dfy): the decision for one row and a whole batch as
  pure functions, with the lemmas about a batch.
- `ShortenerView` (shortener_view.dfy): the page as a class. It has the row
  list, the alert, and methods for the row editor and for the submit loop.
  `ShortenOne`, `ShortenAll` and `HandleSubmit` are proved against the
  `Shortener` functions; the row-editor methods state the new row list
  directly.
- `Redirect` (redirect.dfy): the `Open` function that specifies a visit and
  the `Resolve` method that changes the store and the log.
- `Session` (session.dfy): a session as a sequence of submits and visits. It
  proves that click counts equal redirect counts and that a link lives
  exactly until its expiry.

The environment is handled as follows:

- The URL check (`new URL(str)` inside a `try`) is a parameter
  `isValidUrl: string -> bool`.
- For each row, the clock reading `Date.now()` and the code that
  `generateCode()` would return are inputs, a `RowEnv`.
- A visit receives `now` in milliseconds and `document.referrer` as
  parameters.

The expiry test follows the code, `entry.expiry < new Date()` (App.jsx:264),
and not a `now >= expiry` rule. A link is therefore still live at the very
millisecond of its expiry. A validity so large that the expiry leaves the
Date range (±8.64e15 ms) gives an Invalid Date. Comparing with an Invalid
Date is always false, so such a link never expires.

## Model

| member | source | states |
|---|---|---|
| `JsString.TrimStart` | App.jsx:124 | what is left does not start with white space and is no longer than the input |
| `JsString.TrimStartDrops` | App.jsx:124 | the left trim keeps a suffix of the input and drops only white space |
| `JsString.TrimEnd` | App.jsx:124 | what is left does not end with white space and is no longer than the input |
| `JsString.TrimEndDrops` | App.jsx:124 | the right trim keeps a prefix of the input and drops only white space |
| `JsString.Trim` | App.jsx:124 | `trim()` gives the empty string exactly when the whole text is white space |
| `JsString.TrimSplit` | App.jsx:124 | trimming both ends is trimming the start, then the end |
| `JsString.TrimIsInfix` | App.jsx:124 | the trimmed code is the infix that starts after the leading white space; everything removed at either end is white space |
| `JsString.TrimEnds` | App.jsx:124 | a non-empty trimmed code neither starts nor ends with white space |
| `JsString.TrimKeeps` | App.jsx:124 | a code that neither starts nor ends with white space is used unchanged |
| `JsString.TrimIdempotent` | App.jsx:124 | trimming a trimmed code changes nothing |
| `JsParseInt.DigitPrefix` | App.jsx:130 | parseInt reads the longest run of decimal digits: a prefix, all digits, followed by a non-digit or the end |
| `JsParseInt.NatToDecimal` | App.jsx:130 | decimal rendering is non-empty, all digits, without a leading zero |
| `JsParseInt.NatToDecimalValue` | App.jsx:130 | the value of the rendered digits is the number rendered |
| `JsParseInt.ParseInt10` | App.jsx:130 | `parseInt(s, 10)` is NaN exactly when no digit follows the leading white space and optional sign; its values are pinned down by `ParseIntReadsDecimal`, `ParseIntSkipsWhitespace` and `ParseIntCases` |
| `JsParseInt.ParseIntReadsDecimal` | App.jsx:130 | parseInt reads back any integer n written in plain decimal digits (which is what `String(n)` gives below 10^21) followed by a `rest` that does not start with a digit, as in "45min" |
| `JsParseInt.ParseIntSkipsWhitespace` | App.jsx:130 | leading white space never changes what parseInt returns |
| `JsParseInt.ParseIntCases` | App.jsx:130-131 | NaN exactly when no digit follows the white space and optional sign; the second clause only unfolds the definition for the other case (the signed value of the digit run) |
| `Registry.TimeClip` | App.jsx:132 | `new Date(t)` holds `t` exactly when it is within ±8.64e15 ms, and is an Invalid Date otherwise |
| `Registry.IsExpired` | App.jsx:264 | `entry.expiry < new Date()`: expired only when the expiry is a valid Date strictly before now; no contract of its own, its meaning is carried by `Redirect.ExpiryBoundary` and `Shortener.HugeValidityNeverExpires` |
| `Registry.Store.constructor` | App.jsx:301 | the registry starts empty |
| `Logging.Logger.constructor` | App.jsx:68 | the log starts empty |
| `Logging.Logger.Log` | App.jsx:69-74 | exactly one entry (message, level) is appended at the end and earlier entries are untouched |
| `Shortener.ResolveMinutes` | App.jsx:130-131 | the minutes are always positive: the parsed value when it is a positive number, 30 when it is NaN or not positive |
| `Shortener.ExpiryFor` | App.jsx:132 | the expiry is a valid Date exactly when creation time plus the resolved minutes is within the Date range, and then it lies strictly after the creation time at exactly that many minutes |
| `Shortener.MinutesDefaultExamples` | App.jsx:130-131 | an empty field, "0" and "-5" all give 30 minutes |
| `Shortener.MinutesNotANumberExample` | App.jsx:130-131 | "abc" gives 30 minutes |
| `Shortener.MinutesOfInteger` | App.jsx:130-131 | an integer typed with or without a trailing unit gives itself when positive, 30 otherwise |
| `Shortener.MinutesOfNonNumber` | App.jsx:130-131 | any text without a digit after its white space and sign, the empty field included, gives 30 |
| `Shortener.EffectiveCode` | App.jsx:124 | a custom code that is empty or all white space is replaced by the generated code; otherwise the code is the trimmed custom code and is not empty |
| `Shortener.ShortenRow` | App.jsx:119-137 | a row fails as invalid exactly when its URL is invalid; it collides only on a code already in the registry; otherwise it is shortened under a fresh code with the expiry computed from the clock and the validity |
| `Shortener.Commit` | App.jsx:133-137 | only a shortened row writes: its code is added as (its URL, its expiry, no clicks), and every other code and entry is left as it was |
| `Shortener.SubmitRows` | App.jsx:118-140 | every row of the batch gets exactly one outcome |
| `Shortener.SubmitRowsKeeps` | App.jsx:118-140 | a batch never removes or overwrites an entry that was already there |
| `Shortener.SubmitRowsFresh` | App.jsx:133-137 | an entry that a batch creates starts with no clicks |
| `Shortener.SubmitRowsKeys` | App.jsx:118-140 | the registry's keys after a batch are the old keys plus the codes of the shortened rows, nothing else |
| `Shortener.SubmitRowsStores` | App.jsx:133-137 | every shortened row is in the registry afterwards as (its URL, its expiry, no clicks), even if an earlier or a later row failed |
| `Shortener.ShortenedCodesHas` | App.jsx:133 | the code of every shortened row is among the codes the batch added |
| `Shortener.SubmitRowsPrefix` | App.jsx:118 | rows are handled in order: the outcomes for the first k rows do not depend on the rows after them |
| `Shortener.RowOutcomeInBatch` | App.jsx:118-140 | row i is invalid, collides or is shortened according to its own URL and to the codes taken by the registry and by the shortened rows before it; earlier failures have no influence |
| `Shortener.SameCodeCollides` | App.jsx:125-128 | when two rows of one batch end up with the same code and the first is stored, the second (with a valid URL) collides |
| `Shortener.FreshLinkIsLive` | App.jsx:132 | a new link does not count as expired at any time up to creation plus its minutes |
| `Shortener.HugeValidityNeverExpires` | App.jsx:132 | an expiry beyond the Date range is an Invalid Date, and such a link never counts as expired |
| `ShortenerView.WithField` | App.jsx:110 | the named field takes the new text and the other two keep theirs |
| `ShortenerView.WithoutIndexDrops` | App.jsx:105 | filtering out index idx drops exactly that position and keeps the rest in order; an index outside the list changes nothing |
| `ShortenerView.ShortenerPage.constructor` | App.jsx:96-97 | the form starts with one blank row and no alert |
| `ShortenerView.ShortenerPage.AddRow` | App.jsx:99-102 | one blank row is appended when the form holds fewer than five; the form never exceeds five rows |
| `ShortenerView.ShortenerPage.RemoveRow` | App.jsx:104-106 | only the row at idx is dropped, the others keep their order; the five-row cap still holds |
| `ShortenerView.ShortenerPage.HandleChange` | App.jsx:108-112 | only the named field of row idx changes; every other row and field, and the length, stay the same |
| `ShortenerView.ShortenerPage.ShortenOne` | App.jsx:119-139 | one row: the outcome is `ShortenRow` against the registry as it stands; the registry becomes the committed one; the alert is set on failure only; one log line is added when the row is shortened |
| `ShortenerView.ShortenerPage.ShortenAll` | App.jsx:115-140 | the loop leaves the registry and the outcomes of `SubmitRows`; `ok` holds exactly when every row was shortened; the log gains one line per shortened row in row order; the alert is that of the last failed row |
| `ShortenerView.ShortenerPage.HandleSubmit` | App.jsx:114-146 | as above, and on full success the form is reset to one blank row with the success alert; otherwise the rows stay as typed |
| `Redirect.ClickSource` | App.jsx:271 | the click source is the referrer when there is one and exactly "direct" when the referrer is empty |
| `Redirect.Open` | App.jsx:257-275 | unknown code: not found, nothing changes. `expiry < now`: expired, nothing changes. Otherwise: the original URL, and exactly one click (now, source) appended to that entry alone, with its URL, expiry and earlier clicks and every other entry unchanged |
| `Redirect.Resolve` | App.jsx:257-275 | the store changes as `Open` says, and a log line naming the code and the URL is appended exactly when the visit redirects |
| `Redirect.ExpiryBoundary` | App.jsx:264 | a link visited at the very millisecond of its expiry still redirects; one millisecond later it is expired |
| `Session.ClicksCountRedirects` | App.jsx:269-272 | over any sequence of submits and visits, an entry's click count is its initial clicks plus the number of visits of its code that redirected; a code never registered was never redirected |
| `Session.ReplayKeeps` | App.jsx:125-137 | over any sequence of submits and visits, no code is lost; an entry keeps its URL and expiry, and its clicks only grow at the end |
| `Session.LinkLivesUntilExpiry` | App.jsx:124-137 | shortening a valid URL under a fresh custom code (no surrounding white space) with a positive number of minutes written in plain digits, whose expiry is inside the Date range, stores it with no clicks; visits redirect up to and including the expiry and are expired afterwards |
| `Session.OneMinuteLinkExample` | App.jsx:130-132 | a one-minute link "abc12" visited at once records exactly one direct click, and a visit 61 seconds later, on the registry after that click, is expired |

## Left out

- Rendering is not modelled: the JSX, Material UI, `StatsPage`, `LogDrawer` and the `App` wiring (App.jsx:148-249, 281-333). `StatsPage` only lists entries, in `Object.entries` order, which the map does not keep.
- Routing and navigation are not modelled: `useParams`, `nav("/")`, `window.location.href` and the blocking `alert()` calls. A visit's result is the `Outcome` datatype instead. A successful visit sets `window.location.href` (App.jsx:274), which normally unloads the page and with it the in-memory registry and log; a `Session` whose visits continue after a redirect stands for a page that survives that navigation (for example one restored from the back-forward cache).
- `isValidUrl` depends on the URL parser of the WHATWG URL Standard. It is an uninterpreted parameter.
- `generateCode` uses `Math.random` and `Date.now`. The code it would produce is an input of each row, with no uniqueness guarantee.
- Each `new Date()` reading is an input. The model's visit uses one `now` both for the expiry test and for the click's timestamp, where the source takes two readings.
- Timestamps of log lines (`toLocaleTimeString`) are not modelled. A log entry is its message and level. The message is a datatype whose `Text` function gives the rendered text.
- When each `setRows`/`setAlert` takes effect and how React batches them is left out. The alert is a field that the loop sets directly; the last failure's message wins, as it does after re-rendering.
- Registry prototype keys: the registry is a clean map. In the source, `store.urls` is a plain object, so `store.urls[code]` is also truthy for inherited keys such as "constructor" or "toString". Such a custom code is reported as already existing, and a visit of it throws inside the effect.
- Numbers are exact integers. The parsed minutes are not rounded to the nearest double, so "-0" reads as 0. Neither changes an outcome: both fail the `<= 0` test, and any value large enough to round already puts the expiry outside the Date range.
- Strings are sequences of code points. UTF-16 surrogate pairs are not modelled.
- In `handleChange`, the source mutates the row object it shares with the previous state (`copy[idx][field] = val`). The model keeps rows as values. An index outside the list makes the source throw, so the model requires one inside it.
- `RemoveRow` lets the last row be removed. The source only prevents that through the button, which is disabled when one row is left (App.jsx:186).
- The `results` array that `handleSubmit` builds and never reads is returned as the list of outcomes.
