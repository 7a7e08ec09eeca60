# vol_watcher_frontend — the dashboard window, the chart data and the alert settings, in Dafny

vol_watcher_frontend is a Next.js front end that shows the VIX and Nikkei VI
volatility indices. It also lets a visitor register e-mail alerts on fixed
thresholds. This project models the logic of its two pages, and it proves what
that logic guarantees.

- **Dashboard window** (`app/page.tsx`, module `Dates`): `calcFromDate`
  moves a JavaScript `Date` back by one month or by 1, 3, 5 or 10 years, then
  formats it as `YYYY-MM-DD`. The model is ECMAScript date arithmetic:
  - a `JsDate` class whose `SetMonth` and `SetFullYear` roll an impossible
    day forward into the next month, as `MakeDay` does;
  - the day-number function of ECMAScript as an independent reference;
  - the 10-character ISO prefix of `toISOString()`.
  - `fetchData` queries the window `[from, latestDate]` with `.gte` and
    `.lte` filters, which the remote store evaluates. The model takes the
    filter to compare `YYYY-MM-DD` strings. `Dates.WindowHoldsDays` shows
    that for such strings the string window and the calendar window hold
    the same days, so the result is the same if the store compares dates.
- **String order** (module `LexOrder`): JavaScript's `<` on strings is
  `LexOrder.Less`. It is proved to be a strict total order. On `YYYY-MM-DD`
  strings it is the same as calendar order.
- **Series** (`app/page.tsx`, module `Series`):
  - `latestBySymbol` keeps, for each symbol, the newest row (the first of
    equal dates).
  - `chartData` groups the rows into one record per date, with the last
    close of each symbol. It then sorts the records by date.
  - Both loops are methods, proved against fold functions. Those fold
    functions have their own meaning lemmas.
- **Alert settings** (`app/alerts/page.tsx`, module `Alerts`):
  - the four-rule catalog and the per-rule on/off record;
  - toggling one rule, and switching every rule on or off;
  - `String.prototype.trim`;
  - the save operation. It deletes every `alert_rules` row of the trimmed
    e-mail address, then inserts one row per enabled rule. The page state is
    the class `AlertsPage`. The table is the class `AlertTable`, and the
    store's answers are parameters.
  - The model makes one consequence of this code explicit
    (`Alerts.SaveInsertFailure`): if the delete succeeds and the insert then
    fails, the address is left with no alert rows at all.

## Model

| member | source | states |
|---|---|---|
| LexOrder.Less | app/page.tsx:94 | JavaScript `<` on strings: character by character, a proper prefix first (order properties in the rows below) |
| LexOrder.LessIrreflexive | app/page.tsx:94 | no string is `<` itself |
| LexOrder.LessTransitive | app/page.tsx:112-114 | string `<` is transitive, which the date sort relies on |
| LexOrder.LessTotal | app/page.tsx:112-114 | two different strings are ordered one way or the other, so the comparator is a total order |
| LexOrder.LessAsymmetric | app/page.tsx:94 | `a < b` excludes `b < a` |
| LexOrder.LessConcat | app/page.tsx:61 | for equal-length prefixes, the prefixes decide the order of two strings unless they are equal |
| Dates.Settle | app/page.tsx:46-58 | a day past the month's end becomes a valid date in the following month (never clamped) |
| Dates.SettleDayNumber | app/page.tsx:46-58 | the rolled-forward date is exactly `day - 1` days after the first of the requested month (ECMAScript MakeDay) |
| Dates.DayNumberInjective | app/page.tsx:43-61 | day numbers of valid dates are equal iff the dates are equal, and smaller iff the date is earlier |
| Dates.JsDate.constructor | app/page.tsx:43 | `new Date(baseDate)` copies the calendar date |
| Dates.JsDate.GetMonth | app/page.tsx:46 | `getMonth()` is the zero-based month (0..11) of the held calendar date |
| Dates.JsDate.GetFullYear | app/page.tsx:49-58 | `getFullYear()` is the year of the held calendar date |
| Dates.JsDate.SetMonth | app/page.tsx:46 | `setMonth(v)` moves to month `v` of the current year (a negative `v` borrows from earlier years) and rolls an overflowing day forward |
| Dates.JsDate.SetFullYear | app/page.tsx:49-58 | `setFullYear(v)` keeps month and day, rolling 29 February forward when the year has none |
| Dates.FromDate | app/page.tsx:42-62 | the look-back date is a valid date at most 10 years before the anchor |
| Dates.StepBack | app/page.tsx:44-60 | the switch leaves the `Date` holding `FromDate(range, anchor)` |
| Dates.CalcFromDate | app/page.tsx:42-62 | `calcFromDate` returns the ISO prefix of `FromDate(range, baseDate)` |
| Dates.FromDateYearsBack | app/page.tsx:48-59 | `1Y`/`3Y`/`5Y`/`10Y` keep month and day when that day exists in the target year; otherwise 29 February becomes 1 March |
| Dates.FromDateMonthBack | app/page.tsx:45-47 | `1M` is the previous month (January wraps to December of the year before); a missing day rolls into the anchor's month by the overflow |
| Dates.FromDateBefore | app/page.tsx:42-62 | the look-back date is strictly earlier than the anchor |
| Dates.FromDateDayCount | app/page.tsx:42-62 | the look-back date is `day - 1` days after the first of the target month, in day numbers |
| Dates.IsoPrefix | app/page.tsx:61 | `toISOString().slice(0, 10)` is 10 characters, also for negative (six-digit) years |
| Dates.DigitsOrder | app/page.tsx:61 | zero-padded fixed-width numbers compare as strings exactly as they compare as numbers |
| Dates.IsoPrefixShape | app/page.tsx:61 | the prefix has the shape `DDDD-DD-DD` iff the year is not negative |
| Dates.IsoOrder | app/page.tsx:61 | for years 0..9999, the prefix of a is `<` the prefix of b iff a is earlier than b |
| Dates.IsoInjective | app/page.tsx:61 | for years 0..9999, two dates have the same prefix iff they are equal |
| Dates.FromDateIsoEarlier | app/page.tsx:123-130 | the `from` string is strictly `<` the anchor's string, so the queried window is never empty |
| Dates.InWindow | app/page.tsx:129-130 | `.gte('date', from).lte('date', to)` on strings: the date equals `from` or sorts after it, and equals `to` or sorts before it |
| Dates.WindowHoldsDays | app/page.tsx:129-130 | a date is in the string window `from <= date <= latestDate` iff it lies between the look-back date and the anchor, both included |
| Series.LatestFold | app/page.tsx:90-99 | the map after the first n rows: a row replaces its symbol's entry when there is none or its date is strictly greater (meaning in `LatestFoldMeaning`) |
| Series.LatestFoldMeaning | app/page.tsx:90-99 | the fold's keys are exactly the symbols present; each value is the row of its symbol that no later row of that symbol outdates, and that is newer than every earlier row of that symbol (first wins on ties) |
| Series.LatestBySymbol | app/page.tsx:90-99 | the loop's map has exactly the symbols present, each mapped to its newest row, the first of equal newest dates |
| Series.LatestUnique | app/page.tsx:90-99 | the row kept for a symbol is determined by the rows alone |
| Series.Group | app/page.tsx:106-111 | the byDate map after the rows are written in order: each row creates its date's entry if missing, then sets its symbol (meaning in `GroupKeys`, `GroupFieldPresent`, `GroupFieldValue`) |
| Series.FirstSeen | app/page.tsx:106-110 | the Map's keys in insertion order: exactly the dates present, each once |
| Series.FirstSeenOrder | app/page.tsx:106-110 | in that order, the first row of an earlier key comes before every row of a later key |
| Series.GroupKeys | app/page.tsx:106-111 | the grouped map has exactly one key per distinct date |
| Series.GroupFieldPresent | app/page.tsx:106-111 | the record of date d has a field for symbol s iff some row has date d and symbol s |
| Series.GroupFieldValue | app/page.tsx:106-111 | that field holds the close of the last row with date d and symbol s |
| Series.GroupByDate | app/page.tsx:102-113 | the grouping loop yields the grouped map, and its keys in insertion order (`FirstSeen`), each date once |
| Series.InsertAscending | app/page.tsx:112-114 | inserting a record between smaller and greater dates keeps the sequence strictly ascending |
| Series.InsertByDate | app/page.tsx:112-114 | one insertion step adds the record and keeps the dates strictly ascending |
| Series.SortByDate | app/page.tsx:112-114 | the sort returns a permutation of the records, strictly ascending by date |
| Series.ChartData | app/page.tsx:101-116 | one record per distinct date (none for no rows), strictly ascending, each holding its date's grouped values |
| Alerts.CatalogFacts | app/alerts/page.tsx:23-64 | the catalog is VIX_25, VIX_40, NIKKEI_30, NIKKEI_45, all `>=`, with thresholds 25/40/30/45 and severities notice/warning/notice/warning |
| Alerts.EnabledMap.Get | app/alerts/page.tsx:82 | `prev[id]` (and `enabledMap[rule.id]` at line 129) read the flag of that id (the fields in catalog order) |
| Alerts.Rank | app/alerts/page.tsx:23-64 | every rule id appears in the catalog, at its rank |
| Alerts.InitialEnablesAll | app/alerts/page.tsx:68-73 | the page starts with every rule on |
| Alerts.EnabledMap.Set | app/alerts/page.tsx:82 | `{ ...prev, [id]: value }` changes only `id` |
| Alerts.Toggle | app/alerts/page.tsx:81-83 | toggling flips the given rule and no other |
| Alerts.ToggleTwice | app/alerts/page.tsx:81-83 | toggling the same rule twice restores the map |
| Alerts.AllSetTo | app/alerts/page.tsx:86-94 | the all-on or all-off record maps every id to the value |
| Alerts.SetAll | app/alerts/page.tsx:86-94 | the `forEach` over the catalog sets every id to the value, whatever the previous map, so it is idempotent |
| Alerts.Trim | app/alerts/page.tsx:99 | `email.trim()`: white space removed at both ends (meaning in `TrimSlice`, `TrimEnds`, `TrimEmpty`) |
| Alerts.IsJsSpace | app/alerts/page.tsx:99 | the characters `trim()` removes: ECMAScript WhiteSpace and LineTerminator; space, tab, CR and LF are among them, and no letter, digit, `@`, `.`, `-` or `_` is |
| Alerts.TrimStart | app/alerts/page.tsx:99 | leading white space is removed, and only that |
| Alerts.TrimEnd | app/alerts/page.tsx:99 | trailing white space is removed, and only that |
| Alerts.TrimSlice | app/alerts/page.tsx:99 | `trim()` is the slice of the input between white-space ends |
| Alerts.TrimEnds | app/alerts/page.tsx:99 | a non-empty trimmed address neither starts nor ends with white space |
| Alerts.TrimEmpty | app/alerts/page.tsx:99-104 | the trimmed address is empty (the "e-mail required" path) iff the input is all white space |
| Alerts.EnabledRules | app/alerts/page.tsx:129 | the filter keeps exactly the catalog rules that are on |
| Alerts.ToRow | app/alerts/page.tsx:130-138 | the row built for a rule: enabled, `user_id` null, the trimmed e-mail, and the rule's symbol, direction, threshold and severity; within the catalog, symbol and threshold identify the rule |
| Alerts.EnabledRulesAscending | app/alerts/page.tsx:129 | the filter keeps catalog order |
| Alerts.Payload | app/alerts/page.tsx:129-139 | one row per enabled rule, each with the trimmed e-mail, `enabled = true` and `user_id = null` |
| Alerts.PayloadHasRule | app/alerts/page.tsx:129-139 | the payload holds the row of a rule (its symbol, direction, threshold and severity) iff that rule is on |
| Alerts.PayloadOrder | app/alerts/page.tsx:129-139 | payload rows follow the order of their rules in the catalog |
| Alerts.AnyEnabled | app/alerts/page.tsx:120 | `Object.values(enabledMap).some(v => v)`: some rule is on |
| Alerts.PayloadEmpty | app/alerts/page.tsx:120-126 | the payload is empty iff no rule is on (`Object.values(...).some`) |
| Alerts.RowsFor | app/alerts/page.tsx:109-112 | the rows of one address are exactly the table rows with that e-mail |
| Alerts.WithoutEmail | app/alerts/page.tsx:109-112 | `delete().eq('email', e)` keeps exactly the rows whose e-mail is not e |
| Alerts.RowsForAppend | app/alerts/page.tsx:141-143 | the rows of an address in an appended table are its rows before and after the append |
| Alerts.RowsForWithout | app/alerts/page.tsx:109-112 | after the delete the address has no rows, and every other address keeps all its rows in order |
| Alerts.RowsForOwn | app/alerts/page.tsx:129-139 | a payload built for e holds rows of e only |
| Alerts.ReplaceRowsFor | app/alerts/page.tsx:109-143 | delete-then-insert replaces exactly the rows of the address with the payload |
| Alerts.AlertTable.constructor | app/alerts/page.tsx:109-110 | the alert_rules table starts with the given rows and no requests sent |
| Alerts.AlertTable.DeleteByEmail | app/alerts/page.tsx:109-112 | the delete request is logged; on success the rows of the address are gone, on failure nothing changes |
| Alerts.AlertTable.InsertRows | app/alerts/page.tsx:141-143 | the insert request is logged; on success the payload is appended, on failure nothing changes |
| Alerts.SaveMessage | app/alerts/page.tsx:97-155 | the message after a save with a non-empty address: delete error, all cleared when no rule is on, saved, or insert error; none (cleared at line 97) when a request throws |
| Alerts.SaveRequests | app/alerts/page.tsx:109-143 | the requests a save sends: the delete, then the insert of the payload only when the delete succeeded and some rule is on |
| Alerts.SaveRequestReplies | app/alerts/page.tsx:109-143 | the replies to the requests sent, one per request, in order |
| Alerts.RowsAfterSave | app/alerts/page.tsx:109-152 | the table after a save: unchanged after a failed delete, otherwise the address's rows removed and the payload appended when the insert succeeds |
| Alerts.SaveReplacesRows | app/alerts/page.tsx:109-152 | when every request succeeds, the address's rows become the payload (none when all rules are off), and other addresses are untouched |
| Alerts.SaveDeleteFailure | app/alerts/page.tsx:114-118 | a failed delete changes no row, sends no insert and ends with the delete error message |
| Alerts.SaveNothingEnabled | app/alerts/page.tsx:120-126 | with every rule off, only the delete is sent |
| Alerts.SaveInsertFailure | app/alerts/page.tsx:141-147 | a failed insert after a successful delete leaves the address with no rows, and others untouched |
| Alerts.SaveMessageNone | app/alerts/page.tsx:97-155 | a save ends without a message exactly when one of the requests it sent threw |
| Alerts.SaveThrows | app/alerts/page.tsx:107-155 | a request that throws ends the save: nothing is sent after it, the rows are those before it, and no message is set |
| Alerts.SaveRules | app/alerts/page.tsx:107-155 | the store part of the save sends the requests of `SaveRequests`, leaves the table at `RowsAfterSave` and returns `SaveMessage` |
| Alerts.AlertsPage.constructor | app/alerts/page.tsx:75-79 | the page starts with all rules on, an empty e-mail, not saving and no message |
| Alerts.AlertsPage.ToggleRule | app/alerts/page.tsx:81-83 | the on/off map becomes `Toggle(old, id)`; nothing else changes |
| Alerts.AlertsPage.SetAllRules | app/alerts/page.tsx:86-94 | the on/off map becomes all on or all off; nothing else changes |
| Alerts.AlertsPage.SetEmail | app/alerts/page.tsx:275 | the input's `setEmail(e.target.value)` replaces the address held since the `useState` at line 77; nothing else changes |
| Alerts.AlertsPage.Save | app/alerts/page.tsx:96-156 | an address that trims to empty sets the "e-mail required" message and sends nothing; otherwise the store part runs on the trimmed address. `saving` ends false on every path that starts with it false, including a request that throws, and the map and e-mail stay |

## Left out

- Time zones: `new Date('YYYY-MM-DD')` is midnight UTC and `toISOString` prints UTC, but `getMonth`, `setMonth`, `getFullYear` and `setFullYear` work in the host's local time. The model works on calendar dates, so it matches the program only on a host with a fixed offset of zero or more (UTC, JST). For example, on a UTC−5 host `1M` from `2024-03-01` starts from local 29 February 19:00 and gives `"2024-01-30"`, where `Dates.FromDate` gives 2024-02-01.
- Dates.CalcFromDate: requires an anchor year of 0..9999, the years a `YYYY-MM-DD` string can hold. `IsoPrefix` covers negative look-back years, which a year 0..9 anchor can reach.
- Dates.WindowHoldsDays: stated for anchors from year 10, where the look-back year is never negative.
- Dates.StepBack: the four year cases of the `switch` are one call with the year count from `YearsBack`; they differ only in that count.
- Strings compare by Unicode code point, not by UTF-16 code unit; the two agree on the ASCII date strings compared here.
- The Supabase client and its queries (latest date, price rows, alert_rules) are external I/O. The rows arrive as a parameter, and each store answer is a `Reply`: accepted, rejected with an error, or thrown. A request that is rejected or throws is assumed to leave the table unchanged.
- The stale-response race between overlapping `fetchData` calls, and the loading flags.
- `formatVol`, `Number()` conversions and `close` values: closes are kept opaque (a type parameter).
- React rendering, recharts, JSX, the rule titles and descriptions, and the message texts (messages are an enum).
- `console.error` logging.
- Series.SortByDate: `Array.prototype.sort` and the in-place `entry[row.symbol] = ...` updates are modelled on values (sequences and maps), not as updates to shared objects. The sort is an insertion sort on records with distinct dates, which is all `chartData` gives it.
- Alerts.AlertsPage.Save: the state updates after each `await` are applied in sequence; React's batching of updates is not modelled. When a request throws, the model ends the save as the `finally` block does (saving false, message still cleared, nothing sent after it); the exception then propagating out of the click handler is not modelled.
- The contact, NISA, tax calculator, layout, header and auth files are not part of this model.
