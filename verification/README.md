# Auto-joiner job relay: a Dafny model of its ingestion and queue core

The server takes Discord webhook payloads on several routes. From each one it
extracts a *job*: a game-server id, a character name, a player count and an
income rate. It queues the job for four seconds and hands it to a polling game
client, oldest first. This project models that core in Dafny and proves
properties of the model:

- `parseWebhook`, the extractor. It is modelled over UTF-16 code units, as
  JavaScript strings are. Its regular expressions are written as explicit
  leftmost-match searches whose results are characterised exactly.
- admission with duplicate suppression (`processWebhook`);
- the `/get-job` pull, with its response shaping;
- the timeout callback set by `scheduleJobRemoval`;
- the one-second expiry sweep;
- the request log.

Modules, one per file:

- `Wrappers`: `Option`.
- `JsStrings`: code units, `trim`, `includes`, the `replace`s, and `split`/join.
- `Patterns`: the five regular expressions.
- `Webhook`: the payload, fields and `parseWebhook`.
- `JobQueue`: the queue, counters, admission, pull, sweep and timeout.
- `RequestLog`: `addLog`.

Clock readings (`Date.now()`) are parameters named `now`. A timer firing is a
call of the corresponding function. The request body is a `Body` value.

A few facts about `server.js` that the model keeps:

- A job is accepted when it has a job id, or when its name is not the default
  `Brainrot`. Its value plays no part in this.
- The pull hands out live entries first in, first out.
- Entries that the pull discards because they are too old do not increase
  `totalExpired`. Only the timeout callback counts expiries.
- The default player count is `N/A`.
- The job-id pattern accepts lower-case hex only.
- A title that is nothing but the stripped glyphs gives the empty name. The
  empty name is not `Brainrot`, so such a job is accepted.

## Model

| member | source | states |
|---|---|---|
| JsStrings.Trim | server.js:106 | the trimmed string's code units all come from the input, and neither end is JavaScript whitespace |
| JsStrings.TrimSpec | server.js:106 | `Trim` removes exactly the maximal whitespace prefix and suffix: the result is a slice of the input with only whitespace outside it |
| JsStrings.Includes | server.js:128 | `includes` holds iff the needle occurs at some position of the haystack |
| Webhook.StripGlyphs | server.js:106 | the result holds exactly the input's code units that are not glyphs of the class, and a glyph-free title is unchanged |
| Webhook.StripGlyphsAppend | server.js:106 | glyph removal distributes over concatenation, so the kept code units stay in order |
| JsStrings.RemoveDoubleStars | server.js:139 | after removing `**` pairs, no two adjacent stars remain; the non-star content is unchanged; a leading non-star code unit stays first |
| JsStrings.RemoveDoubleStarsRun | server.js:139 | a run of n stars becomes n mod 2 stars |
| JsStrings.RemoveDoubleStarsAppend | server.js:139 | the removal works piece by piece wherever the pieces do not meet star to star, so with `RemoveDoubleStarsRun` it fixes the result of every input run by run (`a***b` gives `a*b`) |
| JsStrings.Without | server.js:139 | removing every `$` leaves no `$`; every other code unit is kept, and the length does not grow |
| JsStrings.Split | server.js:282-283 | `split('/')` gives at least one piece, no piece contains the separator, and joining the pieces gives the input back |
| JsStrings.SplitJoin | server.js:282-283 | splitting a join of separator-free pieces gives back those pieces (round trip) |
| JsStrings.SplitUnique | server.js:282-283 | a string has only one decomposition into separator-free pieces, so `split` is determined by its result's join |
| Patterns.RateEndExact | server.js:143 | the rate matcher accepts a span iff the span is in the language `[0-9.]+[KMBT]?/s` (case-insensitive) |
| Patterns.FindRate | server.js:143 | the match is the leftmost span in the rate language, its end is the only end at that start, and no match means no span anywhere |
| Patterns.FindDollarRate | server.js:109 | the same for `$` followed by a rate |
| Patterns.OptDollarCaptureIsRate | server.js:162 | the capture of the optional-`$` rate pattern is exactly the leftmost plain rate match |
| Patterns.FindJobId | server.js:129 | the captured id is 36 code units of `[a-f0-9-]`, at the leftmost such window; no capture means there is no window |
| Patterns.FindPlayers | server.js:152-154 | the two captures are non-empty digit runs around `/`, at the leftmost start, with the right run maximal |
| Webhook.ParseTitle | server.js:101-117 | with no title, the name is `Brainrot` and the value is `0`; otherwise the value is `0` or a rate text |
| Webhook.TitleNameClean | server.js:106-116 | the name taken from a title has no stripped glyph and no whitespace at either end |
| Webhook.TitleWithoutRate | server.js:109-116 | the value is `0` iff the cleaned title holds no `$rate`, and then the name is the whole cleaned title |
| Webhook.TitleWithRate | server.js:109-113 | with a `$rate` in the title, the value is the rate without `$`, and the name is the title with that leftmost `$rate` cut out, then trimmed |
| Webhook.ScanFields | server.js:120-158 | the field loop throws iff some labelled field has no value; otherwise each of id, value and players is the last field's hit, or its initial value |
| Webhook.ExtractEmbed | server.js:92-178 | an embed throws iff a labelled field has no value; it is accepted iff it does not throw and it has an id or a name other than `Brainrot`; the job has the title's name and the clock reading |
| Webhook.ParseEmbeds | server.js:92-182 | the parse yields a job iff some embed is accepted with only skipped embeds before it, and the job is that embed's |
| Webhook.ParseWebhook | server.js:84-186 | no embeds gives no job; a job comes back iff some embed is accepted after only skipped ones, and it is that embed's job; an embed that throws before one is accepted makes the result no job |
| Webhook.ExtractedJobId | server.js:120-134 | the job id is the last Job ID field's hit: a 36-unit id found by the id pattern in a labelled field's value |
| Webhook.ExtractedPlayers | server.js:121-156 | the players are the last Players field's `<digits>/<digits>`, else `N/A` |
| Webhook.ValuePrecedence | server.js:102-166 | a Valor field's value overrides the title's; the title's holds without one; the description is read only when both gave `0` |
| Webhook.DescriptionValueSpec | server.js:160-167 | the description's value is its leftmost rate text, or `0` when there is none |
| Webhook.ExtractedValue | server.js:102-166 | a job's value is `0` or a rate text, and never contains `$` |
| Webhook.ParsedJobWellFormed | server.js:170-177 | every parsed job has a well-formed id, players and value, has an id or a non-default name, and carries the clock reading |
| JobQueue.Bump | server.js:230 | a route's counter goes up by one; other counters and the key set are unchanged |
| JobQueue.RecentWithId | server.js:219-224 | true iff the job has an id and a queued entry with that id arrived less than 300000 ms ago |
| JobQueue.Admit | server.js:216-247 | a failed parse counts only a failure; a recent same-id job on a non-highlight route changes nothing; any other job is appended, and received, route counter and last update move |
| JobQueue.ProcessWebhook | server.js:210-251 | a failure is counted iff no embed is accepted after only skipped ones; otherwise the queue is unchanged or gains one well-formed entry at the back with the route and the clock reading, and `totalReceived` moves iff it does; pulls and expiries are not counted |
| JobQueue.WebhookAdmission | server.js:216-247 | a webhook adds exactly one entry iff an embed is accepted and its job is not a recent duplicate; the entry is that well-formed job, stamped `now` |
| JobQueue.ResendIsDropped | server.js:218-223 | a resend of a just-admitted id on a non-highlight route within the window leaves the state unchanged |
| JobQueue.FilterLive | server.js:265 | the filter keeps exactly the entries younger than 4000 ms |
| JobQueue.FilterLiveCount | server.js:265 | every live entry keeps its multiplicity, and expired ones are gone |
| JobQueue.FilterLiveAppend | server.js:265 | filtering distributes over concatenation, so relative order is kept |
| JobQueue.FilterLiveHead | server.js:265-268 | the first filtered entry is the earliest live entry of the queue |
| JobQueue.Sweep | server.js:451-457 | the sweep touches no counter and keeps exactly the live entries |
| JobQueue.SweepTwice | server.js:451-457 | two sweeps amount to the later one |
| JobQueue.GetJob | server.js:264-292 | a job is handed out iff a live entry exists; it is live; the job followed by the new queue is exactly the live queue, in order; with no job the queue is empty; only `totalProcessed` moves, by one iff a job is handed out |
| JobQueue.GetJobIsFifo | server.js:265-268 | the job handed out is the earliest live entry |
| JobQueue.SuccessivePulls | server.js:264-269 | the first of two pulls in a row hands out the earliest live entry; the second hands out the next entry in queue order that is live at its own time: the second such entry when the first job is still live then, the first such entry otherwise |
| JobQueue.DeliveredLeaves | server.js:268 | the handed-out entry occurs once fewer in the queue |
| JobQueue.NoDoubleDelivery | server.js:268 | an entry queued once is no longer queued after it is handed out |
| JobQueue.SweepThenGetJob | server.js:451-457 | a sweep right before a pull changes nothing about the pull |
| JobQueue.SweptDuplicateWindow | server.js:219-223 | once expired entries are swept, a job counts as a duplicate iff a same-id entry is younger than 4000 ms: the 300000 ms window is never reached |
| JobQueue.AbsentStaysAbsent | server.js:265-268 | an entry not queued is never handed out, and neither pull, sweep nor timeout brings it back |
| JobQueue.FindTimedOut | server.js:192-195 | the first index whose entry has the job's id, or the same name and time; none means no entry matches |
| JobQueue.RemoveOnTimeout | server.js:191-205 | nothing changes iff no entry matches; otherwise exactly the first match is removed and only `totalExpired` moves, by one |
| JobQueue.PlayerCounts | server.js:282-283 | the current count has no `/`; the max count is missing iff there is no `/`, and then the current count is the whole text; otherwise the players text starts with current, `/`, max, and max ends at the end of the text or at the next `/` |
| JobQueue.Respond | server.js:276-286 | the response carries the entry's id, name, value, route and time, and its current and max player counts are the two pieces of the players text split at `/` |
| JobQueue.PlayerCountsOfPair | server.js:282-283 | a `<digits>/<digits>` count splits into its two digit runs, which rejoin to it |
| JobQueue.PlayerCountsOfSentinel | server.js:282-283 | `N/A` answers with current `N` and max `A` |
| JobQueue.InitialValid | server.js:60-74 | the initial state has the five route counters and an empty queue |
| JobQueue.FilterKeepsNoRecentDuplicates | server.js:453 | filtering keeps the no-recent-duplicates invariant |
| JobQueue.AppendKeepsNoRecentDuplicates | server.js:218-228 | appending a job that is not a recent duplicate, stamped with the check's time, keeps the no-recent-duplicates invariant |
| JobQueue.ProcessWebhookKeepsValid | server.js:216-231 | admission keeps the counter key set and the no-recent-duplicates invariant |
| JobQueue.GetJobKeepsValid | server.js:264-269 | the pull keeps the invariant |
| JobQueue.SweepKeepsValid | server.js:451-457 | the sweep keeps the invariant |
| JobQueue.RemoveOnTimeoutKeepsValid | server.js:192-198 | the timeout removal keeps the invariant |
| RequestLog.AddLog | server.js:16-27 | the new entry is first, the old entries follow in order, and the buffer grows by one up to 50 entries and never past 50 |
| RequestLog.AddLogsKeepsNewest | server.js:16-27 | logging a run of entries leaves the newest 50 of them and the old buffer, newest first, cut to 50 |
| RequestLog.AddLogsBounded | server.js:17-26 | the buffer never exceeds 50 entries and its head is the last entry logged |

The no-recent-duplicates invariant says the following. For any two queued
entries, if the later one came in on a non-highlight route with the same id as
the earlier one, then it arrived at least 300000 ms after it.

The timeout callback matches by id, not by identity. The callback of a job
that was already handed out can therefore remove a later resend with the same
id. `RemoveOnTimeout`'s contract states this as the code behaves.

## Left out

- HTTP wiring is not modelled: Express, CORS, body parsing, the per-route handlers beyond their category argument, and the HTTP responses themselves. `/get-job` is modelled as the `Pull` value and the `Respond` shaping.
- The HTML dashboard and its statistics rendering are not modelled. They are presentation only.
- Timers (`setTimeout`, `setInterval`) and `listen` are left out. A timer firing is a call of `RemoveOnTimeout` or `Sweep` with the time as a parameter. The interleavings of these calls are not enumerated.
- `console.log`, the emoji lookup, `toLocaleTimeString` and ISO-8601 formatting are left out. Times are plain millisecond integers: `lastUpdate` is `Some(now)`, and the response `timestamp` is the job's time as a number.
- JsStrings.RemoveDoubleStars: its own contract does not say how many stars of a run survive or where; `RemoveDoubleStarsRun` and `RemoveDoubleStarsAppend` state that.
- RequestLog.AddLog: does not model the `data` object attached to each entry. Nothing in the core reads it back.
- The log lines written by the parse, admission, pull, sweep and timeout are not threaded through those functions. The log buffer is modelled on its own.
- The webhook URL table at the top of the file is not modelled. The server never calls those URLs.
- JobQueue.Bump: does not model `byWebhook['universal']++` turning an absent key into `NaN`. The model leaves the counters unchanged for the universal route.
- Webhook.ParseWebhook: handles only title, description and field values that are strings or absent. Values of other JSON types, and `embeds` or `fields` that are not arrays, are not modelled; a missing `fields` is an empty sequence.
- Webhook.ParseWebhook and JobQueue.Admit: use one clock reading per request. The source reads `Date.now()` separately for the job's time and for the duplicate check.
- `stats.startTime` is left out. It is only displayed.
