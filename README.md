# tempo-proxy status lookup, modelled in Dafny

tempo-proxy is an HTTP proxy in front of EDF's "Tempo" tariff calendar. This
project models and proves the core of its status-lookup path:

- `cache.dfy` (module `Cache`): the in-memory date→status cache, as a class
  `TempoCache` whose field `entries` is the hash map. `Get` reads it.
  `InsertMultiple` is the insertion loop, proved against `ApplyBatch`, the
  left-to-right fold of map updates. The lemmas say what a batch insert does
  to each key: the last entry wins, other keys are untouched, nothing is
  filtered, and inserting twice is the same as inserting once.
- `edf_api.dfy` (module `EdfApi`): the pure part of `fetch_tempo_calendar`.
  It picks the first option named `TEMPO`, maps each `statut` literal to a
  status, and collects all-or-nothing, stopping at the first unknown
  literal. It also maps the outcome of the HTTP exchange to the two fixed
  transport and decoding error messages. The upstream provider is an object
  `EdfClient`: its `reply` function is the provider's answer for a requested
  range, and its ghost `calls` log records every range requested.
- `tempo_service.dfy` (module `TempoService`): `get_tempo_status_for_date`.
  On a cache hit it answers with no request. On a miss it parses the date,
  requests the range [date, next day], stores every entry returned, and
  answers with the first entry for the date. Its errors are a malformed
  date, the date missing from the reply, or the upstream error passed on
  unchanged.
- `server.dfy` (module `Server`): the `TempoStatus` enumeration and its
  serialised names. It also holds `get_mime_type`, with the file-name and
  extension rules of Rust's `Path` on Unix, and the file selection of
  `serve_static`: strip the leading slashes, fall back to `index.html`, and
  answer 404 when that is missing too.
- `wrappers.dfy` (module `Wrappers`): `Option` and `Result`. The error of a
  `Result` is a string, as in the source.

Inputs that the code gets from outside are parameters of the model:

- the provider's answer is `EdfClient.reply`, a fixed function of the range;
- date parsing and formatting are a `DateFormat` (`parse` to a day number,
  `format` back), and "the next day" is day number + 1;
- the embedded web directory is a `map<string, seq<byte>>` from relative
  path to contents.

Three facts about the code that a reader might expect otherwise:

- The cache stores every entry, `NonDefini` included
  (`Cache.EveryEntryIsStored`, `Cache.NonDefiniIsStored`).
- There is no cutoff-hour rule and no combined today+tomorrow query.
- A miss requests the range [date, date + 1]
  (crates/api/src/tempo_service.rs:16-20).

One behaviour of the code is worth knowing. On a miss, the answer is the
FIRST entry for the date in the reply, but the cache keeps the LAST one. If
the first and the last entry for a date in a reply carry different statuses,
the first request and the next one answer differently
(`TempoService.FirstAnswerAndCacheCanDiffer` shows this for two entries).
When all entries for the date agree, they answer the same
(`TempoService.RepeatAgreesWhenEntriesAgree`).

## Model

| member | source | states |
|---|---|---|
| `Server.WireName` | crates/api/src/server.rs:16-23 | each status serialises to one of the four SCREAMING_SNAKE_CASE names |
| `Server.WireNameInjective` | crates/api/src/server.rs:16-23 | two statuses share a serialised name exactly when they are equal |
| `Server.FileName` | crates/api/src/server.rs:171 | the file name taken from a path is a non-empty, slash-free name, not "." or "..", made of the path's characters |
| `Server.FileNameIsFinalComponent` | crates/api/src/server.rs:171 | the file name of `dir/name` is `name`, whatever `dir` is |
| `Server.Extension` | crates/api/src/server.rs:171 | an extension contains no '.' or '/'; a path with no file name, a file name without '.', or a file name whose last '.' is its first character has no extension |
| `Server.ExtensionOfName` | crates/api/src/server.rs:171 | the extension of a name is the text after its last '.', when that '.' is not the first character |
| `Server.MimeForExtension` | crates/api/src/server.rs:172-179 | the table answers one of the eight content types; text/html exactly for "html", text/css for "css", application/javascript for "js", application/json for "json", image/png for "png", image/jpeg for "jpg" and "jpeg", image/svg+xml for "svg"; octet-stream exactly for the extensions it does not list |
| `Server.MimeType` | crates/api/src/server.rs:170-181 | the result is always one of the eight content types; no extension gives octet-stream, otherwise the table entry of the extension |
| `Server.MimeTypeOfName` | crates/api/src/server.rs:170-181 | a file whose last '.' is at position i > 0, in any directory, gets the table entry of the text after that '.' |
| `Server.MimeTypeOfStem` | crates/api/src/server.rs:170-181 | `stem.ext`, in any directory, gets the table entry of `ext` |
| `Server.DotfileIsOctetStream` | crates/api/src/server.rs:170-181 | a hidden file such as ".html", whose only '.' is its first character, has no extension and gets application/octet-stream, in any directory |
| `Server.MimeTypeIsCaseSensitive` | crates/api/src/server.rs:172-179 | "x.html" is text/html while "x.HTML" is application/octet-stream |
| `Server.JpegSpellings` | crates/api/src/server.rs:177 | "x.jpg" and "x.jpeg" both give image/jpeg |
| `Server.NoDotMeansOctetStream` | crates/api/src/server.rs:179 | a path without any '.' gives application/octet-stream |
| `Server.IndexIsHtml` | crates/api/src/server.rs:172 | index.html served under its own name is text/html |
| `Server.TrimLeadingSlashes` | crates/api/src/server.rs:184 | the input is some number of slashes followed by the result, and the result does not start with '/' |
| `Server.StaticPath` | crates/api/src/server.rs:184-185 | the looked-up path never starts with '/' and is never empty; a path of slashes only gives index.html; otherwise it is the request path without its leading slashes |
| `Server.ServeStatic` | crates/api/src/server.rs:183-206 | an existing file is served with status 200, its own contents and the MIME type of its path; a missing one with index.html as text/html; 404 "Not found" with no content type exactly when both are missing |
| `Server.LeadingSlashesIrrelevant` | crates/api/src/server.rs:184 | adding any number of leading slashes to the request path does not change the response |
| `Server.FallbackIsIndex` | crates/api/src/server.rs:187-203 | for a missing file the response equals the response for "/", which equals the response for "index.html" |
| `Cache.ApplyBatch` | crates/api/src/cache.rs:26-32 | a batch insert never removes a date |
| `Cache.LastFor` | crates/api/src/cache.rs:28-31 | None exactly when no entry has the date; otherwise the status of an entry for the date after which no entry has it |
| `Cache.ApplyBatchAt` | crates/api/src/cache.rs:28-31 | after a batch insert a date is present iff it was before or the batch has it; a date in the batch holds its last entry's status; any other date keeps its old status |
| `Cache.LastOccurrenceWins` | crates/api/src/cache.rs:28-31 | the entry that is last for its date in the batch is what the cache holds for that date |
| `Cache.UnmentionedKeysUnchanged` | crates/api/src/cache.rs:26-32 | a date the batch does not mention is present afterwards iff it was before, with the same status |
| `Cache.EveryEntryIsStored` | crates/api/src/cache.rs:28-31 | the dates afterwards are exactly the old dates plus every date of the batch, so no entry is filtered out |
| `Cache.NonDefiniIsStored` | crates/api/src/cache.rs:28-31 | inserting `(d, NonDefini)` stores NonDefini for `d` |
| `Cache.ApplyBatchIdempotent` | crates/api/src/cache.rs:26-32 | inserting the same batch twice gives the same cache as inserting it once |
| `Cache.TempoCache.constructor` | crates/api/src/cache.rs:9-11 | a new cache is empty |
| `Cache.TempoCache.Get` | crates/api/src/cache.rs:13-24 | Some exactly for a stored date, with the stored status; the cache is not modified |
| `Cache.TempoCache.InsertMultiple` | crates/api/src/cache.rs:26-32 | the new map is the old one with every entry inserted in order; the empty batch changes nothing |
| `Cache.InsertThenGet` | crates/api/src/cache.rs:13-32 | a date that occurs once in an inserted batch is then read back with its status |
| `EdfApi.FindTempoOption` | crates/api/src/edf_api.rs:48-52 | None exactly when no option is named "TEMPO"; otherwise the first option so named |
| `EdfApi.ParseStatut` | crates/api/src/edf_api.rs:60-65 | Ok exactly for the four known literals, with the status whose serialised name is the literal; otherwise the error "Statut inconnu: " + the literal |
| `EdfApi.ParseStatutOfWireName` | crates/api/src/edf_api.rs:60-64 | every status is parsed back from its serialised name |
| `EdfApi.CollectCalendar` | crates/api/src/edf_api.rs:56-69 | Ok exactly when every literal is known, with the same length and order, dates copied verbatim and each status parsed from its day; otherwise the error for the first unknown literal |
| `EdfApi.TempoCalendar` | crates/api/src/edf_api.rs:48-74 | no TEMPO option gives "Option TEMPO non trouvée dans la réponse API"; otherwise the collected calendar of the first TEMPO option |
| `EdfApi.TempoCalendarKeepsDays` | crates/api/src/edf_api.rs:48-71 | when the first TEMPO option has only known literals, the result has its days in order, with dates copied verbatim and statuses read from their literals |
| `EdfApi.FetchResult` | crates/api/src/edf_api.rs:36-80 | a failed request and an undecodable body give their fixed error messages; a decoded body gives the TEMPO calendar |
| `EdfApi.EdfClient.FetchTempoCalendar` | crates/api/src/edf_api.rs:28-81 | exactly one request is logged, for the given range, and the result is the mapped reply for that range |
| `TempoService.FindStatus` | crates/api/src/tempo_service.rs:26-30 | the status of the first entry for the date; "Date non trouvée dans la réponse API" exactly when there is none |
| `TempoService.FoundDateIsCached` | crates/api/src/tempo_service.rs:23-30 | when the reply answers for the date, the date is in the cache afterwards |
| `TempoService.MissingDateNotCached` | crates/api/src/tempo_service.rs:23-30 | when the reply lacks the date, the date is in the cache afterwards iff it was before |
| `TempoService.RepeatAgreesWhenEntriesAgree` | crates/api/src/tempo_service.rs:23-30 | when all entries for the date agree, the cached status equals the status answered |
| `TempoService.FirstAnswerAndCacheCanDiffer` | crates/api/src/tempo_service.rs:23-30 | with two differing entries for a date, the answer is the first one and the cache holds the second |
| `TempoService.GetTempoStatusForDate` | crates/api/src/tempo_service.rs:5-34 | hit: cached status, no request, no write; malformed date: "Format de date invalide", no request, no write; otherwise one request for (date, next day); on its error that error and no write; on success every entry stored and the first entry's status answered; an answered date is cached |
| `TempoService.RequestTwice` | crates/api/src/tempo_service.rs:7-23 | two requests for one date make at most one upstream call after a successful first, and the second is answered from the cache |

## Left out

- HTTP transport, URL and headers, and JSON decoding in `fetch_tempo_calendar` (crates/api/src/edf_api.rs:29-46): these are network I/O and a foreign library. Their outcome is the input `ApiReply`.
- The read-write lock and `Arc` around the cache: the model is single-threaded. Concurrent requests, and two misses racing to fetch the same date, are not modelled.
- `tracing::info!` logging: it has no effect on behaviour.
- chrono's "%Y-%m-%d" parsing and formatting: they are the parameter `DateFormat`. The panic of `NaiveDate + Duration::days(1)` past chrono's last representable date is not modelled.
- Windows path rules: `Path` is modelled as on Unix, where '/' is the only separator. On Windows, `get_mime_type` would also split on '\\' and recognise drive prefixes.
- The include_dir lookup is an exact match of the relative path in a map. How include_dir normalises its paths is not modelled.
- A provider whose answer for a range changes from one request to the next: `EdfClient.reply` is a fixed function of the range.
- The axum handlers `calendar_today`, `calendar_full`, `calendar_tomorrow`, `bonjour`, router construction, `run` and the OpenAPI/RapiDoc wiring: these are framework plumbing. They are also the only callers of `Local::now()` (crates/api/src/server.rs:72, 105, 148), so the modelled core never reads the wall clock. `calendar_full` calls `get_tempo_status_for_today_and_tomorrow` (crates/api/src/server.rs:112), which crates/api/src/tempo_service.rs does not define. The other handlers pass a date value where a string is expected (crates/api/src/server.rs:75, 151).
- A cutoff-hour rule and a combined today+tomorrow resolution: the source has neither.
- `src/server.rs`, `src/main.rs`, `crates/cli/src/main.rs`: CLI parsing and server start-up only.
- `crates/api/build.rs`: it runs npm at build time.
