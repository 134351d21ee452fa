# matatu-wifi captive portal — a Dafny model of the access-session lifecycle

This project is a Dafny model of the core of the matatu-wifi captive portal.

A device asks for access with its MAC address. The portal validates the MAC. If the MAC already has a live session, the portal hands that session back. Otherwise it creates a `pending` session, both in the `user_sessions` table and in the cache.

The device then watches an ad. The watch passes the gate when at least 80 % of the 30-second ad was watched. The portal then does all of the following:
- records the impression;
- provisions a RADIUS user whose name is the MAC without its colons;
- marks the session `active` in the table and in the cache;
- sends a CoA (change of authorisation) to the network access server.

A session ends `expired` in one of three ways:
- lazily, when a status check finds its fifteen minutes used up;
- through an explicit disconnect;
- through the periodic sweep over the table.

Around this lifecycle sit the pure helpers:
- MAC validation, normalisation, comparison, OUI extraction and generation;
- device-type and OS classification;
- the watch percentage;
- the upload extension check;
- ad eligibility, recent-ad exclusion and weighted selection;
- the `m:ss` time formatting of the portal page.

Modules follow the source files:

| module | file |
|---|---|
| `MacValidator` | `services/portal/src/utils/macValidator.js` |
| `PortalUi` | the two pure helpers of `services/portal/public/js/main.js` |
| `DeviceDetector` | `services/portal/src/utils/deviceDetector.js` |
| `Sessions` | `services/portal/src/models/Session.js` |
| `AdImpressions` | `services/portal/src/models/AdImpression.js` |
| `AuthController` | `services/portal/src/controllers/authController.js` |
| `AdService` | `services/ad-service/app.py` |
| `Schema` | the stores: tables, cache keys and access-server requests |
| `Text`, `Wrappers` | shared string helpers, `Option`/`Result` |

How the model represents the system:
- The database is a class with one `seq` of rows per table, plus a map for the RADIUS attributes.
- The cache is a class of maps whose entries carry their expiry instant. The 3600 s TTL becomes `now + 3600000`.
- The network access server is a client that logs every request sent and whether it got through.
- Time is integer milliseconds, passed in as `now`. Ad start and end dates are day numbers.
- Everything random is a parameter: the uuid, the generated password, the MAC digits, the ad picks and the weighted draw.
- The user-agent parser's result is a parameter.

The `Session` and `AdImpression` objects are classes. Their methods update the object's fields and the matching table rows, and state the full new state. The handlers of the controller are methods over the three stores. Each states, for every branch of the source, the reply and the new state of every store, including "unchanged" for the rejections.

Invariants carried across the handlers:
- Every cached session has a row in the table (`CachedHaveRows`).
- Session ids are unique (`UniqueIds`).
- Every active row has a start (`ActiveRowsStarted`). This is what makes the sweep leave only fresh active rows behind (`SweepLeavesOnlyFresh`).

`RequestAuth`, `CompleteAuth`, `CheckStatus`, `Disconnect` and `ExpireSession` each preserve all three. So does the periodic sweep (`SweepKeepsStoreInvariants`).

The watch time the player sends is fractional (`currentTime`). The gate compares it as sent; the `watched_duration_seconds` column keeps it rounded to a whole second (`AdImpressions.ColumnSeconds`).

Behaviour of the code worth knowing:
- **Disconnect ends `expired`.** `disconnect` calls `expireSession`, whether or not the Disconnect request got through; the `terminated` status is never set by the handlers.
- **The raw MAC is stored.** `requestAuth` stores the MAC as the client sent it, not normalised. The RADIUS user name only drops `:`, so a dash-delimited MAC keeps its dashes in the user name (`AuthController.DashedUserName`).
- **The sweep does not touch the cache.** A cached copy can therefore still say `active` for a row the sweep expired.
- **`expireSession` overwrites `session_end`** unconditionally, like `expire`.
- **The database result is unpacked twice.** `database.execute` already returns the rows array, and `checkActiveSession`, `findActive` and `getActiveSessions` destructure it once more. As written, the live-session check of `requestAuth` throws for a MAC without a live session (answered with 500) and misses the live session of a MAC that has one. The members without a suffix model the queries' intended results; the `AsWritten` members model the code as it stands (see "## Findings").
- **Two active sessions of one MAC are possible.** Even with the intended check, the freshness check happens only in `requestAuth`, so two pending sessions of one MAC can both be activated by `completeAuth`. As written, `requestAuth` also creates a second session beside a live one.
- **Activation is gated only by the request.** `completeAuth` checks the cached session, the `completed` flag and the watch time it is sent; it does not look for a stored completed impression.

## Model

| member | source | states |
|---|---|---|
| MacValidator.ValidateMAC | services/portal/src/utils/macValidator.js:11-27 | true exactly for a string that is either 17 characters of hex pairs separated by `:` or `-` (mixed allowed) or 12 undelimited hex digits; false for a missing, non-string or empty argument |
| MacValidator.DelimitedPairsShape | services/portal/src/utils/macValidator.js:3 | the group-by-group reading of the delimited pattern equals its position-by-position reading: 3n+2 characters, a delimiter at every third position, hex elsewhere |
| MacValidator.StripDelimitedPairs | services/portal/src/utils/macValidator.js:40 | removing the delimiters from a delimited MAC leaves exactly twelve hex digits |
| MacValidator.PairUpGroups | services/portal/src/utils/macValidator.js:43 | cutting 12 lower-case hex digits into pairs joined by `:` gives the delimited pattern in lower-case hex, and stripping the colons gives the digits back |
| MacValidator.PairUpStripped | services/portal/src/utils/macValidator.js:40-43 | on a colon-delimited MAC, stripping then pairing up restores it |
| MacValidator.NormalizeMAC | services/portal/src/utils/macValidator.js:34-46 | null exactly when validateMAC rejects; otherwise a normal-form MAC whose digits are the input's digits lower-cased |
| MacValidator.NormalMACShape | services/portal/src/utils/macValidator.js:40-45 | a normalised MAC has 17 characters, `:` at 2, 5, 8, 11, 14 and lower-case hex everywhere else |
| MacValidator.NormalizeFixesNormalForm | services/portal/src/utils/macValidator.js:34-46 | a normal-form MAC passes validateMAC and normalises to itself |
| MacValidator.NormalizeIdempotent | services/portal/src/utils/macValidator.js:34-46 | the output of normalizeMAC passes validateMAC and normalising it again changes nothing |
| MacValidator.CompareMAC | services/portal/src/utils/macValidator.js:54-63 | true only if both inputs are valid |
| MacValidator.CompareSymmetric | services/portal/src/utils/macValidator.js:54-63 | compareMAC is symmetric |
| MacValidator.CompareIgnoresCaseAndDelimiters | services/portal/src/utils/macValidator.js:54-63 | two valid MACs compare equal exactly when they have the same hex digits ignoring case, whatever their delimiters |
| MacValidator.GetOUI | services/portal/src/utils/macValidator.js:87-94 | null exactly for an invalid MAC; otherwise 8 characters, `:` at 2 and 5, upper-case hex elsewhere, lower-casing to the first 8 characters of the normalised MAC |
| MacValidator.GenerateRandomMAC | services/portal/src/utils/macValidator.js:69-80 | for any twelve drawn digits the result is a normal-form MAC that passes validateMAC and whose digits are the drawn ones in order |
| PortalUi.FormatTime | services/portal/public/js/main.js:106-110 | `M:SS` with a colon third from the end, M the decimal of seconds div 60 without leading zeros (a lone `0` below one minute) and SS exactly two digits of seconds mod 60 |
| PortalUi.PaddedValue | services/portal/public/js/main.js:109 | padding a number below 60 to two characters gives two digits with the same value |
| PortalUi.FormatTimeRoundTrip | services/portal/public/js/main.js:107-109 | reading `M:SS` back as M * 60 + SS gives the seconds formatted |
| PortalUi.FormatTimeExamples | services/portal/public/js/main.js:106-110 | 900 gives `15:00`, 0 gives `0:00`, 65 gives `1:05` |
| PortalUi.IsValidMAC | services/portal/public/js/main.js:119-122 | true exactly for 17 characters of hex pairs separated by `:` or `-` |
| PortalUi.IsValidMACImpliesValidateMAC | services/portal/public/js/main.js:120-121 | every MAC the page accepts, the server accepts |
| PortalUi.UndelimitedOnlyServerSide | services/portal/public/js/main.js:120 | `aabbccddeeff` passes validateMAC but not the page's check |
| DeviceDetector.GetDeviceType | services/portal/src/utils/deviceDetector.js:42-67 | the labels for mobile, tablet, smarttv, wearable and console, any other non-empty type unchanged, and without a type `Mobile Device` iff the lower-cased OS name contains `android` or `ios`, else `Desktop/Laptop` |
| DeviceDetector.GetCategory | services/portal/src/utils/deviceDetector.js:85-97 | one of mobile, tv, wearable, desktop: mobile iff mobile or tablet, tv iff smarttv, wearable iff wearable |
| DeviceDetector.CategoryAgreesWithLabel | services/portal/src/utils/deviceDetector.js:85-97 | the category agrees with the display label of the same type, and a game console counts as desktop |
| DeviceDetector.GetSimplifiedOS | services/portal/src/utils/deviceDetector.js:104-115 | one of Windows, Apple, Android, Linux, Other; Other for an empty name; with the markers tested in the source's order on the lower-cased name: Windows iff it contains windows; Apple iff it contains mac or ios and not windows; Android iff it contains android and none of the earlier markers; Linux iff it contains linux and none of the earlier markers |
| DeviceDetector.SimplifiedOSIgnoresCase | services/portal/src/utils/deviceDetector.js:107 | names equal up to case get the same family |
| DeviceDetector.SimplifiedOSAgreesWithFallback | services/portal/src/utils/deviceDetector.js:104-115 | an Android family means the type fallback says Mobile Device, and a non-Windows Mobile Device is Apple or Android |
| DeviceDetector.FormatDevice | services/portal/src/utils/deviceDetector.js:122-140 | the manufacturer and a space if present, then the model or else the device, then a space and `(os)` or `(os version)` if an OS is present |
| Schema.Cache.Lookup | services/portal/src/controllers/authController.js:280-286 | getSessionFromRedis finds a key exactly while its TTL has not run out; with StoreSessionInRedis, a stored session is read back unchanged for the whole hour after it is stored |
| Schema.Cache.LookupExpiresForGood | services/portal/src/controllers/authController.js:280-286 | a session key whose TTL has run out is not found at any later instant, and one found later was found, with the same value, at every earlier instant |
| Sessions.Session.constructor | services/portal/src/models/Session.js:5-15 | the fields are copied; a missing id takes the fresh one, a missing usage is 0 and a missing status is pending |
| Sessions.Session.Activate | services/portal/src/models/Session.js:84-94 | status active and start now, nothing else in the object; the same update on the rows with its id, no other row or table changed |
| Sessions.Session.Expire | services/portal/src/models/Session.js:96-106 | status expired and end now whatever the previous status, in the object and its rows |
| Sessions.Session.Terminate | services/portal/src/models/Session.js:108-118 | status terminated and end now whatever the previous status, in the object and its rows |
| Sessions.Session.UpdateDataUsage | services/portal/src/models/Session.js:120-129 | usage grows by the amount, so never decreases for a non-negative amount, in the object and its rows |
| Sessions.Session.IsActive | services/portal/src/models/Session.js:131-139 | the elapsed time measured in minutes is below 15 exactly when the session is active, has a start, and now is less than 15 minutes (900000 ms) after that start |
| Sessions.IsActiveIsFresh | services/portal/src/models/Session.js:131-139 | isActive (fewer than 15 minutes, measured in minutes) holds exactly when the row passes the SQL freshness filter |
| Sessions.Session.GetRemainingTime | services/portal/src/models/Session.js:141-150 | never negative; 0 when not active; otherwise the remaining milliseconds rounded to the nearest second (halves up), at most 900 when the start is not in the future |
| Sessions.RoundedRemaining | services/portal/src/models/Session.js:144-149 | for an active session the rounded remaining seconds are within half a second of the exact remainder and lie in [0, 900] |
| Sessions.FreshStalePartition | services/portal/src/models/Session.js:167-168 | an active row with a start is either fresh (start after now minus 15 minutes) or stale (at or before it), never both |
| Sessions.FindActive | services/portal/src/models/Session.js:41-52 | the query's intended answer: none iff the MAC has no fresh active row; otherwise one of them, with the latest start |
| Sessions.LatestFreshRows | services/portal/src/models/Session.js:42-50 | the `LIMIT 1` query returns at most one row, and none iff the MAC has no fresh active row |
| Sessions.FindActiveAsWritten | services/portal/src/models/Session.js:41-52 | as written: a TypeError iff the MAC has no fresh active row; otherwise null |
| Sessions.FindActiveAsWrittenNeverAnswers | services/portal/src/models/Session.js:41-52 | as written, findActive never returns the query's answer: it throws where that answer is none and answers none where there is a session |
| Sessions.GetActiveSessions | services/portal/src/models/Session.js:152-161 | the query's intended answer: the fresh active rows, each as often as in the table, sorted by start descending |
| Sessions.GetActiveSessionsAsWritten | services/portal/src/models/Session.js:152-161 | as written: always a TypeError, since neither the first row object nor `undefined` has `map` |
| Sessions.GetActiveSessionsAsWrittenFails | services/portal/src/models/Session.js:152-161 | a table holding one fresh active session has a non-empty intended answer, yet gets the error as written |
| Sessions.Sweep | services/portal/src/models/Session.js:163-170 | every stale active row becomes expired with end now; every other row is untouched |
| Sessions.ExpireOldSessions | services/portal/src/models/Session.js:163-170 | the table becomes the sweep of the old table, the affected count is the number of stale rows, other tables unchanged |
| Sessions.SweepLeavesOnlyFresh | services/portal/src/models/Session.js:163-170 | after a sweep at now every row still active passes the freshness filter |
| Sessions.SweepPreservesFindActive | services/portal/src/models/Session.js:41-52 | a sweep does not change which session findActive returns |
| Sessions.SweepPreservesActiveSessions | services/portal/src/models/Session.js:152-161 | a sweep does not change the list getActiveSessions returns |
| Sessions.SweepIdempotent | services/portal/src/models/Session.js:163-170 | a second sweep at the same instant changes nothing |
| AdImpressions.AdImpression.constructor | services/portal/src/models/AdImpression.js:4-13 | the fields are copied; a missing watch time is 0 and a missing completion flag false |
| AdImpressions.AdImpression.MarkComplete | services/portal/src/models/AdImpression.js:39-49 | completed and the given watch time, no other field changed, the same update on the rows with its id, other tables unchanged; a table row that mirrored the object before mirrors it after |
| AdImpressions.AdImpression.GetWatchPercentage | services/portal/src/models/AdImpression.js:135-138 | 0 without a non-zero total; never above 100; non-negative for non-negative inputs; below 100 it is within half a point of the exact percentage (halves up), and it is 100 exactly when that percentage is at least 99.5 |
| AdImpressions.WatchedEnough | services/portal/src/controllers/authController.js:102 | the gate `watchedDuration >= 0.8 * 30` on the fractional watch time passes exactly from 24 seconds on |
| AdImpressions.ColumnSeconds | services/ad-service/app.py:69 | the whole seconds the integer column keeps lie within half a second of the fractional watch time, an exact half goes to the even neighbour, and a watch time that passes the gate is stored as one that passes it too |
| AdImpressions.GateAndColumnExamples | services/portal/src/controllers/authController.js:102-115 | 23.6 s is rejected and 24.4 s accepted, although both are stored as 24 |
| AdImpressions.PercentageAgreesWithGate | services/portal/src/models/AdImpression.js:137 | for a whole-second watch time of the 30-second ad the percentage reaches 80 exactly when the server's watch gate passes |
| AdImpressions.WatchPercentageExamples | services/portal/src/models/AdImpression.js:137 | 24 of 30 seconds gives 80, 25 of 30 gives 83 |
| AdImpressions.RecordWatch | services/portal/src/controllers/authController.js:110-115 | the selected impression rows get the watch time and completion flag, all others are untouched |
| AdImpressions.RecordWatchIdempotent | services/portal/src/controllers/authController.js:110-115 | recording the same watch twice equals recording it once, because the update does not change which rows it selects |
| AdImpressions.RecordCompletionKeepsCompleted | services/portal/src/controllers/authController.js:110-115 | an update with `completed = true` never turns a completed impression back into an incomplete one, leaves every selected row completed with the recorded time, and keeps each row's id, ad, session, MAC and time |
| AdImpressions.RecordWatchSyncsRow | services/portal/src/models/AdImpression.js:39-49 | the row markComplete's update selects by the object's id becomes the object's new state: completed with the given watch time |
| AdImpressions.Retained | services/portal/src/models/AdImpression.js:130 | no more rows than before, and every kept row is inside the window |
| AdImpressions.RetainedCounts | services/portal/src/models/AdImpression.js:130 | a row inside the window is kept as often as it occurs, a row outside it never |
| AdImpressions.CleanupOld | services/portal/src/models/AdImpression.js:128-133 | the impressions older than the given days (90 by default) are deleted and the count of deleted rows returned, other tables unchanged |
| AdImpressions.CleanupKeepsExactlyTheWindow | services/portal/src/models/AdImpression.js:130 | after cleanup a row remains iff it was there and inside the window |
| AdImpressions.CleanupIdempotent | services/portal/src/models/AdImpression.js:128-133 | cleaning up twice with the same cutoff equals cleaning up once |
| AuthController.RadiusUserName | services/portal/src/controllers/authController.js:118 | the MAC's characters except `:`, and no longer than the MAC |
| AuthController.UserNameConcat | services/portal/src/controllers/authController.js:118 | the user name of a concatenation is the concatenation of the user names |
| AuthController.UserNameOfChar | services/portal/src/controllers/authController.js:118 | a `:` is dropped and any other character kept; with UserNameConcat this fixes the user name of every MAC, character by character |
| AuthController.UserNameStripsDelimiters | services/portal/src/controllers/authController.js:118 | on a MAC without dashes the user name is the MAC with all delimiters removed |
| AuthController.UserNameOfNormalMAC | services/portal/src/controllers/authController.js:118 | for a normalised MAC the user name is 12 lower-case hex digits that pair back up to the MAC, so distinct MACs get distinct names |
| AuthController.DashedUserName | services/portal/src/controllers/authController.js:118 | a valid dash-delimited MAC keeps its dashes in the user name |
| AuthController.CheckActiveSession | services/portal/src/controllers/authController.js:259-269 | the query's intended answer: none iff the MAC has no fresh active row; otherwise a fresh active row of that MAC from the table, with the latest start among them |
| AuthController.CheckActiveSessionAsWritten | services/portal/src/controllers/authController.js:259-269 | as written: a TypeError iff the MAC has no fresh active row; otherwise null |
| AuthController.CheckActiveSessionAsWrittenMisses | services/portal/src/controllers/authController.js:259-269 | as written the check throws exactly where the intended one finds nothing, and finds nothing exactly where the intended one finds a session |
| AuthController.StoreSessionInRedis | services/portal/src/controllers/authController.js:271-278 | the session under its id and its id under its MAC, both expiring one hour from now; reading the id back at any instant of that hour gives the stored session, from the hour's end on nothing; other session keys read as before |
| AuthController.StoredSessionOutlivesSession | services/portal/src/controllers/authController.js:271-286 | the one-hour TTL is longer than the 15-minute session, so a session stored at t is read back unchanged at every instant of its session |
| AuthController.ExpireSession | services/portal/src/controllers/authController.js:351-361 | the rows with the id become expired ending now, the session key is deleted, the MAC key and other tables stay, all three store invariants are kept |
| AuthController.CreateSession | services/portal/src/controllers/authController.js:38-77 | 500 and no change when the id is taken; otherwise the pending row is appended, the pending entry can be read back from the cache, the MAC key points at the id, and all three store invariants are kept |
| AuthController.RequestAuthAsWritten | services/portal/src/controllers/authController.js:12-78 | as written: 400 and no change for an invalid MAC; 500 and no change for a valid MAC without a live session; for a valid MAC with a live session a second, pending session is created and the live row stays; keeps all three store invariants |
| AuthController.RequestAuth | services/portal/src/controllers/authController.js:12-78 | with the intended live-session check: 400 and no change for a missing or invalid MAC; the live session's id and no change if the MAC has one; 500 and no change on an id collision; otherwise a pending row and a pending cache entry and MAC key with a one-hour TTL; keeps all three store invariants |
| AuthController.CompleteAuth | services/portal/src/controllers/authController.js:81-170 | 400, 404 and 400 for the three rejections with nothing changed, the watch gate applied to the fractional watch time as sent; success iff all checks pass; on success the impression rows (with the watch time rounded to whole seconds), RADIUS account, session row, cache entry and MAC key are written, and a CoA goes to the access server whatever its outcome; the session is active in both stores afterwards; keeps all three store invariants |
| AuthController.CeilSeconds | services/portal/src/controllers/authController.js:203 | the least whole number of seconds covering a positive number of milliseconds, at least 1 |
| AuthController.Report | services/portal/src/controllers/authController.js:185-212 | expired when an active session's time is used up; active with the ceiling of the remaining seconds (none without an authentication time) otherwise; any other status reported as held |
| AuthController.ReportWithinSession | services/portal/src/controllers/authController.js:186-204 | within 15 minutes of authentication the report is active with 1 to 900 seconds left; from then on the session is lapsed |
| AuthController.LazyExpiryAgreesWithSweep | services/portal/src/controllers/authController.js:187-190 | for a row started at s and a cache entry authenticated at t, the status check and the sweep disagree exactly between the earlier and the later deadline; with s before t a lapsed session is always stale, with t before s a stale row is always lapsed; with s = t they agree, and live means what findActive sees |
| AuthController.CheckStatus | services/portal/src/controllers/authController.js:173-221 | 404 and no change for an unknown session; otherwise the report, with the session expired in the table and deleted from the cache exactly when it lapsed, and no change otherwise; keeps all three store invariants |
| AuthController.Disconnect | services/portal/src/controllers/authController.js:224-256 | 404 and no change for an unknown session; otherwise a Disconnect for the session's user name is sent and the session is expired and deleted from the cache whether or not that request got through; keeps all three store invariants |
| AuthController.UpdateKeepsStarted | services/portal/src/controllers/authController.js:125-130 | no update by id (activate, expire, terminate, add usage) leaves an active row without a start |
| AuthController.SweepKeepsStoreInvariants | services/portal/src/models/Session.js:163-170 | the sweep keeps every cached session backed by a row, the ids unique, and every active row started |
| AdService.LastDot | services/ad-service/app.py:43 | none iff the name has no `.`; otherwise the position of a `.` with none after it |
| AdService.AllowedFile | services/ad-service/app.py:42-43 | false without a `.`; true exactly when the text after the last `.`, lower-cased, is an allowed extension |
| AdService.AllowedFileUpperCase | services/ad-service/app.py:43 | `CLIP.MP4` is an allowed video |
| AdService.AllowedFileLastExtension | services/ad-service/app.py:43 | `x.mp4.exe` is not an allowed video |
| AdService.AllowedFileNoExtension | services/ad-service/app.py:43 | `video.` and `mp4` are not allowed videos |
| AdService.RecentAdIds | services/ad-service/app.py:91-96 | an ad id is recent exactly when some impression of the MAC newer than 24 hours carries it |
| AdService.ShownAdIsRecent | services/ad-service/app.py:91-96 | an impression of the MAC from the last 24 hours puts its ad among the recent ones; an older one changes nothing |
| AdService.EligibleAds | services/ad-service/app.py:99-103 | an ad is kept iff it is active and today lies within its optional start and end dates |
| AdService.Unseen | services/ad-service/app.py:107 | an ad is kept iff its id is not among the recent ones |
| AdService.CandidatePool | services/ad-service/app.py:104-115 | empty iff no ad is eligible; if some eligible ad was not shown recently, exactly the eligible ads not shown recently; otherwise exactly the eligible ads |
| AdService.SelectWeightedAd | services/ad-service/app.py:148-169 | an index into the list; the random pick when the total weight is 0; otherwise the first ad whose running weight reaches the draw, the last ad if none does; for a draw in (0, total] the chosen ad has positive weight |
| AdService.SelectAd | services/ad-service/app.py:83-121 | 404 `No ads available` iff no ad is eligible; otherwise an eligible ad from the list, and one not shown to the MAC in the last 24 hours whenever such an eligible ad exists |

## Left out

- Transport and plumbing: HTTP routing, JSON reply fields other than status, message, session id, credentials and remaining time, the `success` flags, logging, rate limiting, and the Flask health, metrics and upload routes.
- JWT: the access token issued by completeAuth is not modelled, because it is a foreign signing call.
- RADIUS transport: the CoA and Disconnect requests are logged with a delivery flag; their wire format is not modelled.
- Randomness: uuid generation, `generatePassword`, `Math.random` in generateRandomMAC, `random.choice` and `random.uniform` are parameters. AdService.SelectAd takes the uniform pick as any natural number, reduced modulo the pool size.
- The user-agent parser: `parse` and `isMobile` are not modelled; the parsed device type and OS name are inputs. DeviceDetector.GetCategory takes the parsed type, which `parse` defaults to `desktop`.
- updateDeviceProfile and the `device_profiles` table, because that table is outside the session lifecycle.
- Failures of the database or cache, and the 500 replies they cause, except the primary-key collision in requestAuth. This includes mysql2 rejecting an undefined bind parameter, so request fields are modelled as present.
- The `updated_at` column written by completeAuth's impression update: the database schema is not part of this model, and the column is assumed to exist.
- The `session_start` of a freshly inserted row is modelled as unset; the column default lives in the schema, which is not part of this model.
- MySQL's case-insensitive collation of `mac_address`: MAC comparisons in queries are exact string equality.
- Case mapping is ASCII only (`toLowerCase`, `toUpperCase`, Python `lower`).
- Sessions.Session.IsActive: an unset start counts as not active. The source measures from the epoch for a null start and gets NaN for an undefined one.
- PortalUi.FormatTime: modelled for non-negative integers only; fractional or negative seconds are not covered.
- Floating point: percentages, the fractional watch time and the remaining time are computed exactly, with rationals or integer milliseconds, instead of IEEE doubles.
- AdImpressions.ColumnSeconds: rounds to the nearest whole second with exact halves to even, the `rint` rule of storing a double into an integer column. The portal's own table definition is not part of this model; the column type is taken from services/ad-service/app.py:69.
- Sessions.Session.GetRemainingTime and Sessions.Session.IsActive use the same `now` for the whole call, where the source reads the clock twice.
- The impression times of the ad service are compared against `utcnow`, and those of the portal against the database's `NOW()`. The model uses one clock.
- AuthController.CompleteAuth: stamps `session_start` and `authenticated_at` with the same `now`. The source takes the first from the database clock (`NOW()`) and the second from the portal's clock (`new Date()`). AuthController.LazyExpiryAgreesWithSweep covers any two stamps.
- Sessions.FindActive, Sessions.GetActiveSessions, AuthController.CheckActiveSession and AuthController.RequestAuth: these model the queries' intended results. As written, the code unpacks the rows a second time; the `AsWritten` members beside them model that (see "## Findings").
- Row-level helpers not in the lifecycle: Session `findById`, `findByMac`, `save`, `create`, `update` and `toJSON`; AdImpression `create`, `update`, `findById`, `findBySession`, `findByMac`, `getRecentByAd`, `getStats`, `getCompletionRate` and `toJSON`.
- The five-minute `ad_selection` cache entry written by select_ad, the advertiser name lookup and the video URL rewriting.
- The `setInterval` sweeper and any race between lazy expiry and the sweep: a sweep is one call with `now` as a parameter.
- Cache eviction other than the TTL.
- AdService.SelectWeightedAd: a weight of `None` in the table raises in the source; weights are modelled as integers.

## Findings

| source | as written | input that shows it | evidently intended | confidence | as-written member | corrected member |
|---|---|---|---|---|---|---|
| services/portal/src/controllers/authController.js:259-269 | `const [rows] = await database.execute(…)` unpacks the rows array `database.execute` already returned (services/portal/src/database.js:37-45), so indexing `rows[0]` throws with no match and gives null with one | any MAC without a fresh active row (TypeError), or one with such a row (null); `CheckActiveSessionAsWrittenMisses` | the latest fresh active row of the MAC, or null | high, not executed | AuthController.CheckActiveSessionAsWritten | AuthController.CheckActiveSession |
| services/portal/src/controllers/authController.js:12-78 | the live-session check above feeds requestAuth, whose catch answers 500 | a valid MAC on its first request gets 500 and nothing is written; a valid MAC with a live session gets a second pending session | create a session for a new MAC, return the live one otherwise | high, not executed | AuthController.RequestAuthAsWritten | AuthController.RequestAuth |
| services/portal/src/models/Session.js:41-52 | the same second unpacking before `rows[0] ? new Session(rows[0]) : null` | any MAC without a fresh active row (TypeError), or one with such a row (null); `FindActiveAsWrittenNeverAnswers` | the latest fresh active session of the MAC, or null | high, not executed | Sessions.FindActiveAsWritten | Sessions.FindActive |
| services/portal/src/models/Session.js:152-161 | the same second unpacking before `rows.map(…)` | any table, for instance one holding a single fresh active row; `GetActiveSessionsAsWrittenFails` | the fresh active sessions, latest start first | high, not executed | Sessions.GetActiveSessionsAsWritten | Sessions.GetActiveSessions |
