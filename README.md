# Deadline tracker core, modelled in Dafny

The deadline tracker lets each signed-in user keep a list of deadlines. Each
deadline has a title, an optional description, a due date, a priority
(high, medium or low) and a status (pending or completed). The project
models three parts of it:

- **Urgency classifier** (`src/utils/deadline.ts`). A deadline is
  *overdue*, *urgent* (due within 24 hours) or *safe*. Each level has a
  colour. The countdown label reads like "1d 1h", "30m overdue" or "0s".
  For display, deadlines are sorted with completed ones last, then by
  urgency, then by due date.
- **Deadline REST handlers** (`server/src/routes/deadlines.ts`).
  - The create and update request schemas.
  - A per-user table of rows.
  - The list, get, create, update and delete handlers.
  - The patch the update handler builds.
  - The mapping from a row to the response body.
- **Request admission** (`server/src/index.ts`). The CORS origin callback
  and which requests the rate limiter counts. The limiter is mounted under
  `/api`, so its `skip` rule sees urls relative to `/api`. It exempts
  `/api/health`, a path no route serves. The real `/health` endpoint is
  outside the mount and never reaches the limiter (`HealthCheckOutsideLimiter`).
  The CORS middleware runs first: a request from a refused origin goes to
  the error handler, and a preflight (`OPTIONS`) request is answered by the
  middleware, so neither is counted (`CorsGateBeforeLimiter`).

Times are integer milliseconds. The current time is a parameter of every
operation instead of a clock read, and one instant is used for a whole sort.

`isPast` is a strict comparison, so a deadline due exactly now is not past:
it is *urgent* and its label is "0s" (`DueNowExample`).

Files:

| file | module | contents |
|---|---|---|
| `wrappers.dfy` | `Wrappers` | `Option`, `Result` |
| `types.dfy` | `DeadlineTypes` | the `Deadline` record, priority and status enums and their names |
| `decimal.dfy` | `Decimal` | decimal rendering of a natural number and reading it back |
| `urgency.dfy` | `Urgency` | urgency level, colour, countdown, label text and its parser |
| `urgency_sort.dfy` | `UrgencySort` | the comparator, the stable sort it induces, and the in-place sort |
| `schemas.dfy` | `DeadlineSchemas` | the create and update request schemas |
| `store.dfy` | `DeadlineRoutes` | rows, patches, list order and the `DeadlineStore` class with the five handlers |
| `cors.dfy` | `ServerPolicy` | the CORS origin decision, the CORS gate in front of the limiter, and the rate limiter's mount and skip rule |

The countdown label is modelled in two steps. `CountdownOf` computes a
structured `Countdown` value, and `Render` turns it into text. The
property that matters is that the countdown is a floor of the true
distance in its smallest unit, with every count in its unit's range.
`ParseCountdown` reads a label back into the countdown; it accepts a
count only as `${n}` writes it, without leading zeros. `TimeRemaining`
states that the label reads back as its countdown, and
`TimeRemainingOnlyLabel` that no other text does, which fixes the label's
exact text.

The sort is specified by `SortSpec`, a functional stable insertion sort
driven by the same comparator. `SortByUrgency` copies the input into a
fresh array and insertion-sorts the copy in place. Its result is proved
equal to `SortSpec`. Separate lemmas prove that `SortSpec` is a
permutation, is sorted, is stable and is idempotent.

## Model

| member | source | states |
|---|---|---|
| DeadlineTypes.ParsePriority | src/types/deadline.ts:1 | a string names a priority exactly when it is "high", "medium" or "low", and the priority read has that name |
| DeadlineTypes.ParseStatus | src/types/deadline.ts:2 | a string names a status exactly when it is "pending" or "completed", and the status read has that name |
| DeadlineTypes.PriorityNameRoundTrip | src/types/deadline.ts:1 | reading a priority's name gives the priority back |
| DeadlineTypes.StatusNameRoundTrip | src/types/deadline.ts:2 | reading a status's name gives the status back |
| Decimal.NatToString | src/utils/deadline.ts:41-66 | a count in a label is a non-empty run of decimal digits, with a leading zero only for 0 |
| Decimal.ValueOfNatToString | src/utils/deadline.ts:41-66 | the decimal text of a count reads back as the same count |
| Decimal.NatToStringOfValue | src/utils/deadline.ts:41-66 | conversely, a run of digits without leading zeros is the decimal text of the number it denotes |
| Urgency.UrgencyLevelOf | src/utils/deadline.ts:6-20 | overdue exactly when due < now; urgent exactly when now <= due < now + 24h; safe exactly when due >= now + 24h |
| Urgency.Rank | src/utils/deadline.ts:70 | each level has one of the three ranks 0, 1, 2 |
| Urgency.RankOrder | src/utils/deadline.ts:70 | overdue has rank 0, urgent 1 and safe 2 |
| Urgency.UrgencyColor | src/utils/deadline.ts:22-29 | the colour of a level is the hsl() of the CSS custom property named after the level |
| Urgency.UrgencyColorInjective | src/utils/deadline.ts:22-29 | two levels with the same colour are the same level |
| Urgency.RankMonotone | src/utils/deadline.ts:6-20 | a later due date never has a lower urgency rank at the same instant, and a strictly higher one when its level differs |
| Urgency.OverdueCountdown | src/utils/deadline.ts:35-47 | past the due date the label shows whole days if at least one, else whole hours if at least one, else whole minutes; the shown amount is the elapsed time rounded down to that unit |
| Urgency.AheadCountdown | src/utils/deadline.ts:49-66 | before the due date the label shows days and hours, hours and minutes, minutes and seconds, or seconds alone; the largest unit is at least one and the shown amount is the time left rounded down to the smaller unit |
| Urgency.CountdownOf | src/utils/deadline.ts:31-67 | the label is an overdue one exactly when due < now, every count is within its unit's range, and the shown duration is the distance to the due date rounded down to the smallest unit shown |
| Urgency.Render | src/utils/deadline.ts:41-66 | the label starts with a digit of its first count, and ends in " overdue" exactly when the countdown is an overdue one |
| Urgency.TimeRemaining | src/utils/deadline.ts:31-67 | the label is marked overdue exactly when due < now, and it reads back as the countdown of the same due date and instant |
| Urgency.CountReadsBack | src/utils/deadline.ts:41-66 | a rendered count followed by its unit letter reads back as that count and letter |
| Urgency.TwoUnitsReadBack | src/utils/deadline.ts:55-63 | a two-part label "{a}{u1} {b}{u2}" reads back as the countdown with those counts and units |
| Urgency.OverdueReadsBack | src/utils/deadline.ts:40-46 | every overdue label reads back as the countdown it shows |
| Urgency.SecondsReadBack | src/utils/deadline.ts:66 | the seconds-only label reads back as the countdown it shows |
| Urgency.PairReadsBack | src/utils/deadline.ts:53-64 | every two-part label reads back as the countdown it shows |
| Urgency.RenderReadsBack | src/utils/deadline.ts:31-67 | no two countdowns share a label: parsing the rendered label gives the countdown back |
| Urgency.ParseCountdownRendered | src/utils/deadline.ts:41-66 | a text that reads back as a countdown is exactly the rendered label of that countdown: counts with leading zeros or other spellings are not labels |
| Urgency.TimeRemainingOnlyLabel | src/utils/deadline.ts:31-67 | a text reads back as the countdown of a due date and instant exactly when it is getTimeRemaining's label for them |
| Urgency.OneDayOneHourExample | src/utils/deadline.ts:53-56 | 1 day 1 hour 1 minute 1 second ahead shows "1d 1h" |
| Urgency.ThirtyMinutesOverdueExample | src/utils/deadline.ts:35-46 | thirty minutes past due is overdue and shows "30m overdue" |
| Urgency.DueNowExample | src/utils/deadline.ts:9-16 | a deadline due exactly now is urgent and shows "0s" |
| UrgencySort.Compare | src/utils/deadline.ts:72-87 | the comparator's sign is the lexicographic comparison of (completed, urgency rank, due date) |
| UrgencySort.CompareTotalPreorder | src/utils/deadline.ts:72-87 | at one instant the comparator is reflexive, total and transitive |
| UrgencySort.SortSpec | src/utils/deadline.ts:72-87 | the stable sort by the comparator has as many deadlines as its input; the lemmas below prove that it is a permutation, sorted, stable and idempotent |
| UrgencySort.InsertPermutes | src/utils/deadline.ts:72 | one insertion step adds exactly the inserted deadline |
| UrgencySort.InsertSorted | src/utils/deadline.ts:72-87 | inserting into a sorted sequence keeps it sorted |
| UrgencySort.InsertKeepsKeyOrder | src/utils/deadline.ts:72 | inserting keeps the relative order of deadlines with equal sort keys and puts the new one after them |
| UrgencySort.SortSpecPermutes | src/utils/deadline.ts:69-88 | the sorted list holds the same deadlines with the same multiplicities |
| UrgencySort.SortSpecSorted | src/utils/deadline.ts:69-88 | every earlier deadline compares at most equal to every later one |
| UrgencySort.SortSpecStable | src/utils/deadline.ts:72 | deadlines with equal sort keys keep their input order |
| UrgencySort.SortSpecOfSorted | src/utils/deadline.ts:69-88 | an already sorted list is returned unchanged |
| UrgencySort.SortSpecIdempotent | src/utils/deadline.ts:69-88 | sorting twice gives the same as sorting once |
| UrgencySort.SortedOrder | src/utils/deadline.ts:73-86 | in the sorted list a completed deadline is never followed by a pending one; with equal status the urgency rank and then the due date never decrease |
| UrgencySort.ThreeDeadlinesExample | src/utils/deadline.ts:69-88 | [completed 100h overdue, pending due in 10h, pending 2h overdue] sorts to the reverse order |
| UrgencySort.InsertStep | src/utils/deadline.ts:72 | moving the next element left past every greater one makes the array prefix the stable insertion of it into the sorted prefix, and leaves the rest alone |
| UrgencySort.SortByUrgency | src/utils/deadline.ts:69-88 | the result is a fresh array equal to the stable sort of the input; the input is not modified |
| DeadlineSchemas.LengthIssues | server/src/routes/deadlines.ts:15-17 | a string gets no issue exactly when its length is within the minimum and the maximum, and every issue is about the given field |
| DeadlineSchemas.StringMember | server/src/routes/deadlines.ts:15-17 | a string member passes exactly when it is a string within the bounds, or absent when optional, or null when nullable; a failure reports issues about that field only |
| DeadlineSchemas.PriorityMember | server/src/routes/deadlines.ts:18 | a priority passes exactly when absent or one of the three names; an absent one takes the default |
| DeadlineSchemas.StatusMember | server/src/routes/deadlines.ts:19 | a status passes exactly when absent or one of the two names |
| DeadlineSchemas.BrokenCreateFields | server/src/routes/deadlines.ts:14-20 | the broken fields of a create body are those whose rule fails |
| DeadlineSchemas.ParseCreate | server/src/routes/deadlines.ts:14-20 | a create body is accepted exactly when every field keeps its rule; otherwise the issues name exactly the broken fields; an accepted body yields its own values, with priority medium when absent |
| DeadlineSchemas.FieldsOfConcat | server/src/routes/deadlines.ts:14-20 | the fields named by concatenated issue lists are the union of the fields each names |
| DeadlineSchemas.CombineIssues | server/src/routes/deadlines.ts:14-20 | joining the five members' issues in order gives no issue exactly when every member passes, and names exactly the failing members |
| DeadlineSchemas.CreateRoundTrip | server/src/routes/deadlines.ts:14-20 | every create payload within the bounds is accepted unchanged |
| DeadlineSchemas.BrokenUpdateFields | server/src/routes/deadlines.ts:22-28 | the broken fields of an update body are those whose rule fails |
| DeadlineSchemas.ParseUpdate | server/src/routes/deadlines.ts:22-28 | an update body is accepted exactly when every field keeps its rule; otherwise the issues name exactly the broken fields; an absent description and a null one stay apart |
| DeadlineSchemas.UpdateRoundTrip | server/src/routes/deadlines.ts:22-28 | every update payload within the bounds is accepted unchanged |
| DeadlineSchemas.EmptyUpdateAccepted | server/src/routes/deadlines.ts:22-28 | an empty update body is valid and supplies no field |
| DeadlineRoutes.ToResponse | server/src/routes/deadlines.ts:39-49 | the response body keeps every column of the row, so the row can be read back from it |
| DeadlineRoutes.StatusCode | server/src/routes/deadlines.ts:51-191 | 201 exactly for a creation (line 106), 204 exactly for a deletion (line 191), 404 exactly for a missing or foreign row (lines 70, 137, 183), 200 exactly for a listing, a read or an update; a failure has no code, the error handler answers it |
| DeadlineRoutes.NewRow | server/src/routes/deadlines.ts:95-104 | the new row belongs to the caller; an absent or empty description is stored as null; a missing status is stored as pending |
| DeadlineRoutes.ApplyPatch | server/src/routes/deadlines.ts:148-151 | applying a patch keeps the id, owner and timestamps; every field the patch sets takes the patch's value, and no other field changes |
| DeadlineRoutes.ApplyPatchOverrides | server/src/routes/deadlines.ts:148-151 | after the same patch two rows differ exactly in the fields they differed in and the patch does not set |
| DeadlineRoutes.ApplyPatchIdempotent | server/src/routes/deadlines.ts:148-151 | applying the same patch twice equals applying it once |
| DeadlineRoutes.PatchOf | server/src/routes/deadlines.ts:141-146 | the patch sets exactly the fields the payload supplies, carrying the payload's values and the parsed due date; a null description clears the column |
| DeadlineRoutes.InsertListed | server/src/routes/deadlines.ts:33-36 | placing a deadline in the listing adds exactly that deadline |
| DeadlineRoutes.InsertListedOrdered | server/src/routes/deadlines.ts:35 | placing a deadline in an ordered listing keeps it ordered by status, then by due date |
| DeadlineRoutes.DeadlineStore.Find | server/src/routes/deadlines.ts:62-67 | a row is found exactly when its id exists and it belongs to the caller |
| DeadlineRoutes.DeadlineStore.OwnedAmongOneMore | server/src/routes/deadlines.ts:33-36 | counting one more id adds its row exactly once when it is the caller's, and nothing otherwise |
| DeadlineRoutes.DeadlineStore.List | server/src/routes/deadlines.ts:31-55 | the listing holds each of the caller's deadlines exactly once and no other, ordered by status then by due date |
| DeadlineRoutes.DeadlineStore.Get | server/src/routes/deadlines.ts:58-88 | the caller's deadline is returned exactly when the id exists and is theirs; otherwise 404 "Deadline not found" |
| DeadlineRoutes.DeadlineStore.Create | server/src/routes/deadlines.ts:91-120 | an invalid body fails with its issues; an unreadable due date fails with that date text; otherwise exactly one new row owned by the caller is added, and the table is unchanged in every failure |
| DeadlineRoutes.DeadlineStore.Update | server/src/routes/deadlines.ts:123-167 | validation comes before the ownership check; a missing or foreign id gives 404; for an owned row an unreadable due date fails with that date text; on success only the caller's row changes, only in the supplied fields; the table is unchanged otherwise |
| DeadlineRoutes.DeadlineStore.Delete | server/src/routes/deadlines.ts:170-195 | the caller's row, and no other, is removed; a missing or foreign id gives 404 and the table is unchanged |
| ServerPolicy.FrontendUrl | server/src/index.ts:38 | an unset or empty FRONTEND_URL gives the default localhost origin, otherwise its value |
| ServerPolicy.AllowedOrigins | server/src/index.ts:34-39 | the allow-list has four entries, the last the configured frontend origin |
| ServerPolicy.EndsWithMeansSuffix | server/src/index.ts:42 | endsWith holds exactly when the origin is some text followed by the suffix |
| ServerPolicy.OriginDecision | server/src/index.ts:30-56 | an origin is allowed exactly when it is missing or empty, ends with ".vercel.app", or is in the allow-list; every other origin is refused with "Not allowed by CORS" |
| ServerPolicy.VercelOriginsAllowed | server/src/index.ts:41-44 | every https *.vercel.app origin is allowed whatever FRONTEND_URL holds |
| ServerPolicy.DefaultListExample | server/src/index.ts:34-55 | without FRONTEND_URL, localhost:8081 is allowed and localhost:3000 is refused |
| ServerPolicy.SkipRateLimit | server/src/index.ts:72-75 | the skip fires for the url "/health" and for no other url |
| ServerPolicy.SkipIsExactMatch | server/src/index.ts:72-75 | the comparison is on the whole url, case included: "/health?probe=1", "/health/" and "/HEALTH" are not exempt |
| ServerPolicy.MountedUrl | server/src/index.ts:78 | among the requests the CORS middleware passes on, one reaches the limiter exactly when its url is "/api" or continues it with "/" or "?"; the limiter then sees the rest of the url after "/api", with a "/" put in front only when that rest is empty or starts with "?" |
| ServerPolicy.CorsPassesOn | server/src/index.ts:45-63 | the CORS middleware passes a request on exactly when its origin is admitted and it is not a preflight (`OPTIONS`) request |
| ServerPolicy.LimitedOnceAdmitted | server/src/index.ts:66-78 | a request the CORS middleware passed on is counted exactly when it is under "/api" and is not "/api/health" |
| ServerPolicy.RateLimited | server/src/index.ts:45-78 | a request is counted by the limiter exactly when its origin is admitted, it is not an `OPTIONS` request, it is under "/api", and it is not "/api/health" |
| ServerPolicy.HealthCheckOutsideLimiter | server/src/index.ts:72-97 | for any method and origin, the health endpoint "/health" never reaches the limiter and "/api/health" is exempt; once CORS passes a request on, "/api/deadlines" and "/api/health?probe=1" are counted |
| ServerPolicy.CorsGateBeforeLimiter | server/src/index.ts:45-78 | a request from a refused origin and a preflight request are not counted even under "/api"; a plain request without an origin is |

## Left out

- Date parsing: `parseISO` and `new Date(text)` are not modelled. Due dates are integer milliseconds, and the handlers take the string-to-date conversion as a parameter `parseDate`. `None` stands for an Invalid Date, which the model reports as a failure passed to the error handler.
- ISO text: `toISOString()` in the response bodies is not modelled. Response timestamps stay integers.
- The clock: `new Date()` and `isPast` read the clock. Here `now` is a parameter.
- UrgencySort.Compare: the source's comparator reads the clock on every call. The model uses one instant per sort, because only then is the comparator a total preorder.
- Library sort algorithm: the engine's `Array.prototype.sort` algorithm is not modelled. Since ES2019 it is specified as stable, so its result equals that of any stable sort with the same comparator. That is why a stable insertion sort stands in for it.
- Database: the database, Prisma and Express are not modelled; the handlers are methods on an in-memory table.
  - Generated ids and timestamps are parameters. `DeadlineRoutes.DeadlineStore.Create` requires a fresh id.
  - `DeadlineRoutes.DeadlineStore.Update` does not change `updatedAt`. The handler does not send it, and the database schema that might set it is not part of this model.
- DeadlineRoutes.DeadlineStore.List: the database's enum order for `status` is not part of this model, so the status listed first is a parameter. Ties on both keys are listed in an unspecified order.
- Ownership checks: in the update and delete handlers, the ownership check (`findFirst` by id and user) and the write (`update` or `delete` by id alone) are two separate queries. They are not atomic; the model treats each handler as one step.
- Validation messages: the zod message texts are not modelled, and neither is the response the error handler sends for a validation error. An issue carries its field and kind.
- Unknown keys: zod strips keys outside the schema. The body model has only the five known fields.
- Non-object bodies: `Body` cannot represent a request body that is not an object (an array, a string, a missing body). zod rejects those with an `invalid_type` issue at the root, and that path is not modelled.
- String lengths: zod counts UTF-16 code units. The model counts characters of a `string`.
- Authentication: the auth middleware and JWT handling are not modelled. The caller's user id is a parameter.
- Process-level code: the helmet headers, the cookie parser, the rate-limit window and counter, `console.log` of refused origins, and server start-up are not modelled. Of the rate limiter only which requests it counts is modelled: the CORS gate in front of it, its mount and its `skip` rule. The only other middleware in front of it, helmet, sets headers and passes every request on.
- Express path matching: `ServerPolicy.MountedUrl` uses the literal prefix rule (the url is `/api`, or starts with `/api/` or `/api?`), not Express's own matcher. Express matches the mount case-insensitively and, depending on its version, strips the slashes that follow the mount, so that `/api//health` may be seen as `/health`; neither is modelled.
- Front end: UI components, hooks, the API client and the ticking timer that re-renders labels are not part of this model.
