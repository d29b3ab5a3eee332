# Weight tracker: a verified model of its decision logic

The weight tracker is a small two-person web application. There is a form for
entering body weight per person and date. There is a `weights` table with one
row per `(who, date)`. There is a line chart of each person's readings with a
fixed goal line. This project models the three pieces of the application that
make decisions, and proves what they promise:

- **The `/api/weights` endpoint** (`route.dfy`, module `WeightsRoute`).
  `POST` checks the bearer credential, then that the fields are present, then
  upserts the entry on the conflict target `(who, date)`. A backend failure
  becomes a 500 that carries the backend's message. `GET` lists every row in
  ascending date order (the service's cap on returned rows aside), or returns a 500 with the backend's message. The
  table is the class `WeightsTable`. Its field `rows` always has unique keys.
  Its map view `Store()` sends `(who, date)` to `kg`. Only a successful `POST`
  changes it.
- **The page** (`page.dfy`, module `HomePage`). `GetToday` formats a date as
  `YYYY-MM-DD`. The class `Home` holds the component's state: the form fields,
  the entry list and the `isLoading`/`isSaving`/`error` flags. `FetchWeights`
  loads the list. `HandleSubmit` runs the two local checks in a fixed order.
  It builds at most two entries, Aryman then Amal, and saves them one at a
  time. It stops at the first failure and undoes nothing. After a full
  success it clears both weight inputs and reloads the list.
- **The chart data** (`chart.dfy`, module `WeightChart`). The entry list is
  split into one `[date, kg]` series per person, in input order. The goal
  lines are fixed at 75 kg for Aryman and 70 kg for Amal.

`entries.dfy` (module `Entries`) holds what the three share: JSON values, with
JavaScript truthiness on them, and the entry row `{who, date, kg}`.

Abstractions:

- The request body is the three destructured JSON values `who`, `date` and
  `kg`. `Undefined` stands for a property the body does not have.
- The hosted backend is a parameter. Each query's `BackendReply` is either
  done or an error message. The table's contents are the model's own
  `rows`. The backend's `upsert … onConflict: 'who,date'` is the function
  `Upsert`: it replaces the row with that key in place, or appends one.
  Its `order('date', { ascending: true })` is `SortByDate`. That function
  sorts on `DateLe`, which is lexicographic order on date strings.
  `IsoDatesSortChronologically` proves that for the dates `getToday`
  produces from four-digit years, this order is calendar order. The order among rows that share a
  date is left open, as it is in the backend.
- The write secret read from the environment is a parameter,
  `secret: Option<string>`. When it is unset, the template literal renders the
  expected header as `Bearer undefined`. The model keeps that:
  `UnsetSecretAcceptsLiteral` states it.
- On the page the network is an oracle. `respond(i, e)` is the reply to the
  `i`-th save request. `FetchOutcome` is the result of one list fetch.
  `HandleSubmit` returns the save requests in the order it sent them.
- `getToday` takes the clock's year, zero-based month index and day as
  integers.

## Behaviour of the code worth noting

- A failed list fetch leaves `weights` as it was rather than emptying it. On
  mount that list is the initial empty list.
- A non-2xx reply to the list fetch shows `Failed to fetch weights`, not the
  server's message.
- After a fully successful save, `error` was cleared before the loop. If the
  reload then fails, `error` is set again with the fetch's message.
- The two early returns of `handleSubmit` do not touch `isSaving`. It is false
  at the end only on the paths that reach the save loop. On an early return
  it keeps its earlier value, which is false whenever the button could be
  pressed.

## Model

| member | source | states |
|---|---|---|
| `WeightsRoute.HeaderDeterminesSecret` | src/app/api/weights/route.ts:25-29 | two set secrets demand the same header exactly when they are the same secret, so a header passes under at most one set secret; an unset secret demands the same header as the secret `undefined` (both ensures) |
| `WeightsRoute.Classify` | src/app/api/weights/route.ts:24-35 | a request is refused as unauthenticated exactly when the header differs from the expected one; it is refused as incomplete exactly when the header matches and `who` is falsy, `date` is falsy or `kg` is undefined; otherwise the entry accepted is the request's own `{who, date, kg}` |
| `WeightsRoute.CredentialBeforeFields` | src/app/api/weights/route.ts:27-35 | a bad credential with missing fields is classified unauthenticated (401), not incomplete (400) |
| `WeightsRoute.AnyDefinedKgPasses` | src/app/api/weights/route.ts:33 | with a good credential and truthy `who` and `date`, the request is accepted if and only if `kg` is defined, whatever its value (0, negative, `null`, a string) |
| `WeightsRoute.UnsetSecretAcceptsLiteral` | src/app/api/weights/route.ts:25-29 | with the secret unset, the header `Bearer undefined` passes the credential check |
| `WeightsRoute.StoreOf` | src/app/api/weights/route.ts:37-40 | the map view of the table, keyed by the conflict target `(who, date)`: every row's key is in it |
| `WeightsRoute.Upsert` | src/app/api/weights/route.ts:37-40 | after the upsert the map view sends the entry's `(who, date)` to its `kg` and every other key to what it had |
| `WeightsRoute.UpsertRows` | src/app/api/weights/route.ts:37-40 | after the upsert the new row is present, every row is the new one or an old one, and every old row with another key survives |
| `WeightsRoute.UpsertKeepsUnique` | src/app/api/weights/route.ts:37-40 | the upsert keeps keys unique, and the only row with the written key is the written entry |
| `WeightsRoute.UpsertIdempotent` | src/app/api/weights/route.ts:37-40 | repeating the same write leaves the table as one write left it |
| `WeightsRoute.LastWriteWins` | src/app/api/weights/route.ts:37-40 | two writes to one key leave that key with the second `kg` and every other key unchanged |
| `WeightsRoute.LastWriteOnly` | src/app/api/weights/route.ts:37-40 | after two writes to one key the keys are still unique, the second entry is stored exactly once, and it is the only row with that key |
| `WeightsRoute.UniqueOnce` | src/app/api/weights/route.ts:37-40 | in a table with unique `(who, date)` keys, a row that is present is present exactly once |
| `WeightsRoute.UpsertOnce` | src/app/api/weights/route.ts:37-40 | after an upsert into a table with unique keys, the written entry is stored exactly once |
| `WeightsRoute.RowsMatchStore` | src/app/api/weights/route.ts:37-40 | in a table with unique keys, a row is present exactly when the map view holds its `kg` under its key |
| `Entries.LexLeTotal` | src/app/api/weights/route.ts:14 | any two date strings are comparable in the order the listing sorts by |
| `Entries.LexLeTransitive` | src/app/api/weights/route.ts:14 | the string order of the date column is transitive |
| `WeightsRoute.DateLeTotal` | src/app/api/weights/route.ts:14 | any two date values are comparable in the column order |
| `WeightsRoute.DateLeTransitive` | src/app/api/weights/route.ts:14 | the column order is transitive, so it is a total preorder |
| `WeightsRoute.SortedByDateAllPairs` | src/app/api/weights/route.ts:14 | in a listing ordered between neighbours, every earlier row's date is no later than every later row's |
| `WeightsRoute.InsertByDate` | src/app/api/weights/route.ts:11-14 | inserting a row into a date-ordered listing keeps it ordered and adds exactly that row |
| `WeightsRoute.SortByDate` | src/app/api/weights/route.ts:11-14 | the ordered select returns the table's rows, each as often as stored, in non-decreasing date order |
| `WeightsRoute.WeightsTable.Post` | src/app/api/weights/route.ts:23-47 | a bad credential gives 401 `Unauthorized`, then missing fields give 400 `Missing required fields`, then a backend failure gives 500 with the backend's message verbatim; the table is unchanged in all three cases (a 500 is taken as an upsert that did not happen). Otherwise the answer is 200 with the stored row, and the table is the upsert of the old one. The map view changes at the written key only, and only on a 200 |
| `WeightsRoute.WeightsTable.Get` | src/app/api/weights/route.ts:10-21 | a backend failure gives 500 with its message verbatim; otherwise 200 with exactly the stored rows (as a multiset), in non-decreasing date order |
| `WeightsRoute.ListingMatchesStore` | src/app/api/weights/route.ts:11-20 | a row appears in the listing exactly when the map view holds its `kg` under its `(who, date)` |
| `WeightsRoute.WriteThenList` | src/app/api/weights/route.ts:11-40 | after a write, the listing contains the written entry exactly once and no other row with its `(who, date)` |
| `HomePage.NatToString` | src/app/page.tsx:11-12 | the decimal rendering of a non-negative integer is a non-empty digit string with no leading zero unless the number is 0 |
| `HomePage.IntToString` | src/app/page.tsx:10-13 | the rendering starts with `-` exactly when the integer is negative; the digits after any sign read back as its magnitude (round trip); there is no leading zero unless the magnitude is 0 |
| `HomePage.ParseNatToString` | src/app/page.tsx:11-12 | reading a rendering back gives the original number (round trip) |
| `HomePage.NatToStringWidth` | src/app/page.tsx:10-12 | one-, two-, three- and four-digit numbers render with that many characters |
| `HomePage.PadStart2` | src/app/page.tsx:11-12 | strings of two or more characters are unchanged; shorter ones get `0`s on the left up to exactly two characters, ending in the original |
| `HomePage.TwoDigits` | src/app/page.tsx:11-12 | a number below 100, rendered and padded, is two digits that read back as the number |
| `HomePage.GetToday` | src/app/page.tsx:8-14 | for any year, a month index 0–11 and a day 1–31, the string ends in `-MM-DD`, whose fields read back as the month index plus one and the day, and what precedes it is the year's rendering |
| `HomePage.GetTodayIsIso` | src/app/page.tsx:8-14 | for a four-digit year, month index 0–11 and day 1–31, the result is `YYYY-MM-DD`: four year digits, `-`, two month digits, `-`, two day digits, reading back as the year, the month index plus one and the day |
| `HomePage.LexLeAppend` | src/app/page.tsx:13 | strings with equal-length prefixes compare by the prefixes unless the prefixes are equal |
| `HomePage.DigitsOrder` | src/app/page.tsx:11-13 | on digit strings of one width, string order is numeric order and string equality is numeric equality |
| `HomePage.AppendEq` | src/app/page.tsx:13 | two concatenations with equal-length prefixes are equal exactly when the prefixes and the rests are |
| `HomePage.DashSuffix` | src/app/page.tsx:13 | appending the `-` separator keeps equality and, between different strings, the order |
| `HomePage.FieldwiseOrder` | src/app/page.tsx:13 | `Y-M-D` strings with fixed field widths compare by year, then month, then day |
| `HomePage.IsoDatesSortChronologically` | src/app/page.tsx:8-14 | two `getToday` dates from four-digit years are in string order exactly when they are in calendar order |
| `HomePage.EntriesFor` | src/app/page.tsx:63-69 | one entry per non-empty weight field; Aryman's entry, with his field's text and the form's date, comes first and Amal's comes last; with at least one field filled there are 1 or 2 entries |
| `HomePage.EntriesShareDate` | src/app/page.tsx:63-69 | every entry built carries the form's date and is either Aryman's with his field's text or Amal's with hers |
| `HomePage.SavesFrom` | src/app/page.tsx:71-96 | a failure outcome names a request that exists and whose reply is not a success, with the message that reply shows |
| `HomePage.SavesFromFirstFailure` | src/app/page.tsx:71-96 | the outcome is full success exactly when every reply is a success; a failure outcome is the first failing request, since every earlier reply succeeded |
| `HomePage.FirstFailureUnique` | src/app/page.tsx:72-96 | a failing request preceded only by successes is the outcome's first failure |
| `HomePage.SaveInOrder` | src/app/page.tsx:71-96 | the requests sent are the entries in order, all of them on full success and up to and including the first failure otherwise; the failure reported is that request's message, and none when every save succeeded |
| `HomePage.Home.constructor` | src/app/page.tsx:17-24 | the page starts with no entries, empty fields, today's date as `getToday` formats it, loading on, no error, not saving |
| `HomePage.Home.FetchWeights` | src/app/page.tsx:26-43 | on success the fetched list replaces `weights` and `error` stays; on failure `weights` stays and `error` shows the failure; `isLoading` ends false on both paths; no other field changes |
| `HomePage.Home.HandleSubmit` | src/app/page.tsx:49-104 | an empty secret sets `Secret Key is required to save data.` and sends nothing; that check comes before the both-weights-empty check, which sets `Enter a weight for at least one person.` and sends nothing. Otherwise the requests sent are the built entries up to and including the first failure, in order. A failure shows its message and keeps both weight inputs. Full success clears both inputs and applies the reload. `secret` and `date` never change, and `isSaving` ends false once saving began |
| `WeightChart.Series` | src/components/WeightChart.tsx:12-13 | a series has no more points than there are entries |
| `WeightChart.SeriesAppend` | src/components/WeightChart.tsx:12-13 | the series of a concatenation is the concatenation of the series: input order is kept and nothing is merged |
| `WeightChart.SeriesSingle` | src/components/WeightChart.tsx:12-13 | one entry gives its `[date, kg]` point exactly when its `who` is the person's name |
| `WeightChart.SeriesMembership` | src/components/WeightChart.tsx:12-13 | a point is in a person's series exactly when some entry with that `who` maps to it; entries of anyone else contribute nothing |
| `WeightChart.Plotted` | src/components/WeightChart.tsx:12-13 | an entry is plotted exactly when it is in the input and its `who` is Aryman or Amal, each such entry as many times as it occurs in the input, and no other entry |
| `WeightChart.SeriesLengths` | src/components/WeightChart.tsx:12-13 | the two series' lengths add up to the number of entries whose `who` is Aryman or Amal |
| `WeightChart.SeriesInDateOrder` | src/components/WeightChart.tsx:12-13 | given a date-ordered listing, as `GET` returns it, each series is in date order |
| `WeightChart.Chart` | src/components/WeightChart.tsx:49-92 | the chart has two lines: Aryman's plots Aryman's series with goal 75, and Amal's plots Amal's series with goal 70 |
| `WeightChart.GoalsIndependentOfData` | src/components/WeightChart.tsx:63-84 | the goal values are 75 and 70 whatever the entry list |

## Left out

- The hosted database client, its SQL semantics and the environment lookup. They are a foreign service. The table is the model's own row sequence, and the backend's failures are a parameter.
- The service's configurable maximum on the number of rows one select returns. `Get` lists every stored row; a table larger than that cap would be truncated by the service.
- What the backend does with a row whose values its columns reject, such as a non-date `date` or a non-numeric `kg`. The model stores whatever passes the handler's checks. `DateLe` places non-string dates in a fixed order by JSON type.
- `WeightsRoute.WeightsTable.Post`: a backend error is modelled as an upsert that did not happen. The hosted client can report an error after the row was committed, for example when the response is lost; the model does not cover that case.
- The backend-assigned row identifiers that `select()` returns. A successful `POST` answers with the written `{who, date, kg}` only.
- A request body that is not JSON, or is `null`. Reading it throws, and the framework answers that with its own 500; the model does not cover that path.
- HTTP headers, status plumbing and JSON (de)serialisation. Responses are a status plus an error message or a list of rows, and the page's replies are oracle values.
- A non-2xx save reply whose body is not JSON. `res.json()` throws there, which the model folds into `Threw` with that error's message. A non-string truthy `error` field is not modelled: the model's `errorField` is a string or absent.
- `async`/`await` interleaving, the React render cycle and the mount effect. `HandleSubmit` is one sequential run, and the page's first `FetchWeights` is a call the caller makes.
- `parseFloat` and floating-point numbers. An entry the page builds carries the weight field's text, and `kg` stays an opaque JSON value on the server. `NaN` is not a `Value`, so its falsiness is not modelled.
- `new Date()` and the local time zone. `GetToday` takes the calendar fields as integers.
- The input `onChange` setters. Each is a single field assignment, and callers set the fields directly.
- All JSX, CSS and ECharts styling (colours, grid, tooltip, smoothing). Only the two series and the two goal values are modelled.
- `WeightChart.Series`: its own contract gives only a length bound; the lemmas `SeriesAppend`, `SeriesSingle`, `SeriesMembership` and `SeriesLengths` state the full filter-and-map characterisation.
- src/app/layout.tsx and next.config.ts hold no decision logic (an HTML shell and the PWA build settings).
