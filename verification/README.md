# wsj-dl in Dafny

wsj-dl mirrors the Wall Street Journal print edition into an S3-compatible
object store and serves it back over HTTP. This project models its core in
Dafny and proves properties of that model:

- the issue codec (`issue.go`): an issue is a date plus a file extension;
  it is stored under the key `YYYY/MM/DD<ext>`, published under the flat name
  `YYYY-MM-DD<ext>`, and read back from either that name or an upstream name
  `<random>-<section>-M-D-YYYY<ext>`;
- the update handler (`update.go`): it follows the upstream redirect chain,
  renaming the file after every hop. It stops at the first hop whose key is
  already stored. Otherwise it stores a fresh download and records the latest
  issue. It also has its own, older, upstream-only `getDate`;
- `findLatest` (`update.go`): it checks today's and yesterday's keys, then
  scans a listing of the store for the newest issue key;
- the upload handler (`upload.go`): it fetches a URL given in the query,
  tracks the file name across redirects and stores the file. It answers
  with a link to the public name;
- the get handler (`get.go`): it maps a public name back to its storage key
  and serves the object with a quoted ETag and a one-day Cache-Control.

Modules:

- `Wrappers`: `Option` and `Result`.
- `GoStrings`: the parts of Go's `strings`, `path` and `path/filepath` that
  the handlers use.
- `Calendar`: Gregorian dates as `time.Time` holds them at midnight UTC.
- `GoTime`: `time.Format` and `time.Parse`, written as an interpreter of
  layout chunks. It has exactly the chunks the five layouts of the program
  use: `2006`, `01`, `1`, `02`, `2`, and literal text.
- `Issues`: `issue.go`.
- `UpstreamNames`: the `getDate` of `update.go` and `upload.go`, and the
  key/public-name mapping both handlers apply.
- `Fetch`: `update` and `updateHandler`.
- `Latest`: `findLatest`.
- `Upload`: `upload`.
- `Serve`: `get` and `handleMinioError`, with `strconv.Quote`.
- `IssueExamples`: the cases of `issue_test.go`, proved on the model.

The outside world is passed in as parameters:

- For a fetch, the model takes:
  - the redirect targets in the order the server sends them;
  - how the last request ended: a transport error, or a status code;
  - the set of keys `StatObject` finds;
  - whether `PutObject` succeeds.
- For `findLatest`, it takes today's date and the listing
  `ListObjectsIter` yields, given as keys or a listing error.
- For `get`, it takes the store errors and the object's ETag.
- The latest slot, which the program keeps in an atomic variable, becomes an
  `Option<string>` that goes in and comes out.

Behaviour of the code that a reader might not expect, which the model follows:

- `update` does not give up on a redirect target whose name has no date. It
  keeps the raw base name as both key and public name (`update.go:44-48`).
- On the already-mirrored path, `update` returns the stored issue's name
  but does not write the latest slot (`update.go:68-72`; only `update.go:85`
  writes it).
- There is no redirect limit and no "force" option. Any `StatObject` error
  counts as "not stored".
- The three `getDate` functions are different versions:
  - the one in `update.go` and `upload.go` cuts two prefixes off the whole
    base name before it takes the extension off;
  - the one in `issue.go` first tries `YYYY-MM-DD` on the name without its
    extension.

  So `2025-01-02.pdf` is refused by the first one and accepted by the second
  (`UpstreamNames.ParsersSplitOnIsoNames`). A name with a '.' in its first
  prefix is read differently by the two
  (`UpstreamNames.ParsersDivergeOnDottedPrefix`).
- A name of the form `rand1-1-2-2025.pdf` has only one prefix before the
  date, so the dated part becomes `2-2025`. Both parsers refuse it: the one
  in `issue.go` by `IssueExamples.LongMissingExample`, the upstream one by
  `IssueExamples.LongMissingUpstream`.
- `update` names a hop by `filepath.Base` of the whole URL text. `upload`
  names a hop by the base of the URL's path, and names the initial request
  by the base of the whole `url` parameter.
- A stored name that carries no date but holds a '-' is kept under its own
  name by `update` and `upload`. `get` looks it up under a different key
  (`Serve.UndatedNameWithHyphenMissed`).

## Model

| member | source | states |
|---|---|---|
| `Issues.GetDate` | issue.go:47-76 | any date it accepts is a real calendar date with a four-digit year |
| `Issues.NewIssueFromPath` | issue.go:13-22 | it succeeds exactly when `getDate` does; the issue then carries that date and the extension of the base name; a `getDate` error is passed on unchanged |
| `Issues.FromDateRoundTrip` | issue.go:24-43 | round trip: an issue built by `NewIssueFromDate` from a valid date and a plain extension, printed by `String`, parses back through `NewIssueFromPath` to the same issue |
| `Issues.GetDateOfBase` | issue.go:48-52 | the parsed date depends only on the last path element |
| `Issues.GetDatePrefixErrors` | issue.go:56-66 | the two prefix errors depend only on how many '-' the stem holds: "missing random prefix" exactly when it holds none, and "missing non-random prefix" exactly when it holds one |
| `Issues.StemPrefixErrors` | issue.go:54-66 | on a stem, the ISO attempt never hides a prefix error: "missing random prefix" exactly when the stem holds no '-', "missing non-random prefix" exactly when it holds one |
| `Issues.DateTextChars` | issue.go:33-39 | the rendered date of each path consists of digits and that path's separator only, and is never empty |
| `Issues.FullPath` | issue.go:33-35 | turning every '/' of the storage key into '-' gives the date written as `YYYY-MM-DD` followed by the extension, when the extension holds no '/' |
| `Issues.ShortPath` | issue.go:37-39 | turning every '-' of the public name into '/' gives the storage key, when the extension holds no '-' |
| `Issues.DateTextSwap` | issue.go:33-39 | the `YYYY/MM/DD` and `YYYY-MM-DD` renderings of a date, each followed by an extension free of the separator being replaced, turn into each other |
| `Issues.ShortPathParts` | issue.go:37-39 | for a plain extension (empty, or one leading '.' and no '/'), the public name is its own base name, and its extension and stem are the issue's extension and date text |
| `Issues.ShortPathRoundTrip` | issue.go:13-39 | round trip: parsing an issue's public name gives back the same issue |
| `Issues.DashTextParses` | issue.go:54 | a rendered `YYYY-MM-DD` date reads back as that date |
| `Issues.PathParts` | issue.go:33-39 | the storage key and the public name are the same three digit groups and extension, joined by '/' and '-' respectively |
| `Issues.ShortPathToFullPath` | issue.go:33-39 | turning every '-' of the public name into '/' gives the storage key, when the extension holds no '-' |
| `Issues.FullPathToShortPath` | issue.go:33-39 | turning every '/' of the storage key into '-' gives the public name, when the extension holds no '/' |
| `Issues.UpstreamTextChars` | issue.go:68 | an upstream `M-D-YYYY` text holds only digits and exactly two '-', and reads back as its date |
| `Issues.StemOfPlainName` | issue.go:50-52 | removing the extension from `<u><ext>` leaves `u` |
| `Issues.DashRejects` | issue.go:54 | a stem without exactly two '-' is never read as `YYYY-MM-DD` |
| `Issues.UpstreamStem` | issue.go:56-66 | an upstream stem holds no '/' or '.' and exactly four '-', so both cuts find their separator |
| `Issues.UpstreamNameParses` | issue.go:47-76 | every upstream name `<a>-<b>-M-D-YYYY<ext>` parses to its own date |
| `Issues.GetDateAfterPrefixes` | issue.go:56-72 | when the ISO reading fails, the date is exactly the `M-D-YYYY` reading of what follows the first two '-', and `BadDate` when there is none |
| `IssueExamples.FullPathExamples` | issue_test.go:24-27 | the four storage keys of the test table |
| `IssueExamples.ShortPathExamples` | issue_test.go:50-53 | the four public names of the test table |
| `IssueExamples.ShortNameExample` | issue_test.go:98 | `2025-01-02.pdf` parses to 2 January 2025 with extension `.pdf` |
| `IssueExamples.ShortInvalidIssue` | issue_test.go:99 | `2025-01-02abc.pdf` is refused |
| `IssueExamples.LongNameIssue` | issue_test.go:100 | `test-issue-1-2-2025.pdf` parses to 2 January 2025 with extension `.pdf` |
| `IssueExamples.LongMissingIssue` | issue_test.go:101 | `test-1-2-2025.pdf` is refused |
| `IssueExamples.LongInvalidIssue` | issue_test.go:102 | `test-issue-1-2-2025abc.pdf` is refused |
| `IssueExamples.EmptyNameIssue` | issue_test.go:103 | the empty name is refused as missing its random prefix |
| `IssueExamples.ShortInvalidExample` | issue_test.go:125 | `getDate` refuses `2025-01-02abc.pdf` |
| `IssueExamples.LongNameExample` | issue_test.go:126 | `getDate` reads `test-issue-1-2-2025.pdf` as 2 January 2025 |
| `IssueExamples.LongMissingExample` | issue_test.go:127 | `getDate` refuses `test-1-2-2025.pdf`, because only one prefix precedes the date |
| `IssueExamples.LongInvalidExample` | issue_test.go:128 | `getDate` refuses `test-issue-1-2-2025abc.pdf` |
| `IssueExamples.EmptyNameExample` | issue_test.go:129 | `getDate` refuses the empty name |
| `IssueExamples.LongMissingUpstream` | update.go:109-134 | the upstream `getDate` also refuses `test-1-2-2025.pdf` |
| `GoTime.ParseFormat` | issue.go:54 | round trip for every layout whose fields are separated: parsing what `Format` wrote gives back the date, and any trailing text makes the parse fail |
| `GoTime.ParsedIsCanonical` | update.go:167 | for fixed-width layouts such as `2006/01/02.pdf`, a text that parses is exactly the formatting of its date |
| `GoTime.Parse` | issue.go:54 | a date it accepts is a real calendar date, and has a four-digit year whenever the layout holds `2006`; `GoTime.ParseFormat` and `GoTime.ParsedIsCanonical` relate it to `Format` |
| `GoTime.Format` | issue.go:33-39 | for a date with non-negative fields, the characters of the output other than digits are exactly the literal text of the layout, counted with multiplicity |
| `GoTime.FormatCharCount` | issue.go:33-39 | each non-digit character occurs in the formatted fields exactly as often as in the layout's literal text |
| `GoTime.UpstreamRoundTrip` | update.go:127 | the layout `1-2-2006` reads back every date it writes |
| `GoTime.UpstreamParseChars` | update.go:127 | a text the layout `1-2-2006` accepts holds only digits and '-' |
| `GoTime.DashParseHyphens` | issue.go:54 | a text the layout `2006-01-02` accepts holds exactly two '-' |
| `GoTime.DashParsedLength` | issue.go:54 | a text the layout `2006-01-02` accepts is ten characters long |
| `Calendar.PrevDay` | update.go:146 | the day before a valid date is a valid date, earlier than it, and no valid date lies strictly between the two |
| `Calendar.BeforeIsStrictTotal` | update.go:172 | the order `findLatest` compares dates by is irreflexive, asymmetric, transitive and total |
| `Calendar.DaysIn` | update.go:146 | every month has 28 to 31 days, and 29 exactly when it is February of a leap year |
| `GoStrings.Cut` | update.go:112 | it finds a separator exactly when one occurs; the text before it is free of the separator, and the two parts with the separator rebuild the input |
| `GoStrings.CutCount` | update.go:112-122 | each cut removes exactly one separator |
| `GoStrings.TrimSuffix` | update.go:125 | it removes the suffix exactly when the text ends with it |
| `GoStrings.ReplaceAllInverse` | get.go:15 | replacing back undoes a replacement whenever the target character was absent |
| `GoStrings.ReplaceAllConcat` | get.go:15 | replacing in a concatenation is replacing in each part |
| `GoStrings.Base` | update.go:34 | the base of "" is "." and the base of a name made only of '/' is "/"; a base is never empty and holds a '/' only when it is "/"; a name without '/' is its own base |
| `GoStrings.BaseIdempotent` | issue.go:14-50 | taking the base of a base changes nothing |
| `GoStrings.BaseOfLast` | upload.go:40 | the base of `<dir>/<name>` is `name` |
| `GoStrings.BaseTrailingSlashes` | issue.go:14 | trailing slashes are ignored: the base of `<dir>/<name>///` is `name` |
| `GoStrings.Ext` | update.go:124 | the extension is a suffix that is empty or starts at the last '.' of the last path element |
| `GoStrings.ExtOfSuffix` | update.go:45 | appending a proper extension to a name makes it the name's extension |
| `UpstreamNames.GetDateUpstream` | update.go:109-134 | any date it accepts is a real calendar date with a four-digit year |
| `UpstreamNames.UpstreamPrefixErrors` | update.go:112-122 | "missing random prefix" exactly when the name holds no '-', and "missing non-random prefix" exactly when it holds one |
| `UpstreamNames.UpstreamNameAccepted` | update.go:109-134 | every upstream name `<a>-<b>-M-D-YYYY<ext>` parses to its date, whatever the two prefixes and the extension |
| `UpstreamNames.PrefixedText` | update.go:112-127 | once two prefixes are cut, the result is the `M-D-YYYY` reading of what remains without the extension |
| `UpstreamNames.IsoNameRejected` | upload.go:87-112 | no ISO public name `YYYY-MM-DD<ext>` is accepted |
| `UpstreamNames.ParsersSplitOnIsoNames` | issue.go:47-76 | on ISO public names the two parsers disagree: the one in `issue.go` accepts every such name and the upstream one refuses it |
| `UpstreamNames.ParsersAgreeOnUpstreamNames` | issue.go:47-76 | on upstream names with plain prefixes the two parsers give the same date |
| `UpstreamNames.DottedPrefixStem` | issue.go:50-52 | in an upstream name whose first prefix holds a '.', the extension starts at that '.' |
| `UpstreamNames.ParsersDivergeOnDottedPrefix` | update.go:112-127 | an upstream name with a '.' in its first prefix is read by the upstream parser and refused by the one in `issue.go` |
| `UpstreamNames.KeyAndFlat` | update.go:44-48 | a name without a date is both its own key and its own public name |
| `UpstreamNames.KeyAndFlatDated` | update.go:44-48 | a dated name is stored under the issue's storage key and published under its public name |
| `UpstreamNames.KeyDiffersFromFlat` | update.go:46-47 | an issue's storage key and public name are never equal |
| `UpstreamNames.KeyEqualsFlatIffUndated` | update.go:41-48 | key and public name coincide exactly when the name carries no date |
| `UpstreamNames.KeyToFlat` | update.go:44-48 | for a base name, turning the key's '/' into '-' gives the public name |
| `Fetch.FirstStored` | update.go:50-53 | it points at a stored hop with no stored hop before it, or past the end when no hop is stored |
| `Fetch.Follow` | update.go:39-56 | the chain is cut exactly when some hop's key is stored, and it then stops at the first such hop; otherwise the names are those of the last hop |
| `Fetch.HopNamesOf` | update.go:40-48 | a redirect target whose base carries a date is named by that issue's storage key and public name; any other target by its base for both |
| `Fetch.UnredirectedName` | update.go:34-35 | with no redirect, the file is stored under the base of the configured URL as it is, even when that base carries a date, without consulting the store, and `latest` names it |
| `Fetch.Update` | update.go:22-88 | there is one put exactly when no hop is stored and the final status is 200; `latest` changes only after a successful put, and then holds the returned name |
| `Fetch.UpdateHandler` | update.go:90-105 | a wrong key is refused with 401 before anything is fetched; otherwise the effects are `update`'s, an error is a 500, and success is a 307 whose target is `../<name>` as passed to `http.Redirect`, before it is resolved |
| `Fetch.AlreadyMirrored` | update.go:68-72 | with a stored hop, the result is the public name of the first stored hop; nothing is put and `latest` is left alone, however the chain ended |
| `Fetch.FreshDownload` | update.go:59-87 | with no stored hop, the outcome is fully determined: a transport error, the upstream status, a store error after the put, or success with `latest` set |
| `Fetch.ErrorKeepsLatest` | update.go:73-85 | an error never changes `latest` |
| `Fetch.UpstreamNameShape` | update.go:41-45 | an upstream file name holds no '/', and its extension is the issue's |
| `Fetch.HopOfUpstreamName` | update.go:39-48 | a redirect to an upstream file name gives the issue's storage key and public name |
| `Fetch.SecondHopAlreadyStored` | update.go:50-72 | if the second hop is the first whose key is stored, the result is its public name and nothing is written |
| `Fetch.FirstStoredAt` | update.go:50-53 | the first stored hop is the stored hop with none stored before it |
| `Fetch.FreshIssueStored` | update.go:76-87 | a 200 for a new issue makes exactly one put, at the last hop's key with its public name as download name, and `latest` then names it |
| `Latest.KeyDate` | update.go:167 | a key that parses names a real date with a four-digit year |
| `Latest.CandidateOf` | update.go:159-175 | a listed item competes exactly when it is a key under the "20" prefix that parses to a date after the zero time |
| `Latest.NameOfKey` | update.go:178 | turning the '/' of a parsing key into '-' gives the public name of that date's `.pdf` issue |
| `Latest.ShortPathNonEmpty` | update.go:178 | a public name is never empty, so "no issue found" (the empty name) is never confused with an issue |
| `Latest.KeepBest` | update.go:172-175 | an item that is not strictly later keeps the best-so-far invariant |
| `Latest.TakeBest` | update.go:172-175 | a strictly later candidate becomes the new best and keeps the invariant |
| `Latest.ScanResult` | update.go:176-179 | a non-empty result of the scan is the public name of a latest candidate |
| `Latest.Consider` | update.go:167-175 | a key replaces the best so far exactly when it is a candidate strictly later than it |
| `Latest.ScanListing` | update.go:153-180 | the slow path fails exactly when the listing reports an error; otherwise it returns the public name of a latest candidate, or "" when there is none |
| `Latest.FindLatest` | update.go:136-180 | today's issue wins if stored, then the previous calendar day's, and only then the scan |
| `Latest.FastPathNames` | update.go:139-150 | the fast path checks the `.pdf` issue's storage key and answers with its public name |
| `Latest.CandidatesCanonical` | update.go:167 | two listed keys with the same candidate date are the same key, so the latest name is unique |
| `Latest.RenderedKeyIsCandidate` | update.go:159-172 | the storage key of any issue from 2000 to 2099 is listed and competes with its own date |
| `Latest.KeyParses` | update.go:167 | a storage key reads back as its date |
| `Latest.KeyHasPrefix` | update.go:160 | the storage keys of the years 2000 to 2099 carry the listing prefix |
| `Latest.StorageRoundTrip` | update.go:167 | the layout `2006/01/02.pdf` reads back every date it writes |
| `Latest.LatestOfIssueKeys` | update.go:153-180 | a listing of issue keys scans to the public name of its latest date |
| `Latest.LatestOfUnique` | update.go:153-180 | the slow path's answer is determined by the listing |
| `Upload.UrlString` | upload.go:78-81 | the rendered URL ends with `?query` when there is a query and with the path otherwise; a bare path renders as itself |
| `Upload.Track` | upload.go:38-43 | the tracked name is the base of the last redirect target's path, or the initial name when there was no redirect |
| `Upload.UploadHandler` | upload.go:16-83 | it fetches exactly when the key matches, the `url` is set and the request could be built; 401 and 400 "Missing url" come first; there is one put exactly on a 200, at the mapped key of the last name; a final non-200 status is answered with that status; 200 is answered exactly when the put succeeded, with the request URL whose path is the public name and whose query is dropped, followed by a newline; a request that cannot be built, a transport error and a failed put are each a 500 carrying the library's message |
| `Upload.UploadLinksPublicName` | upload.go:78-81 | for a request in origin form, success answers with the public name and a newline, whatever the request's query was |
| `Upload.UploadOfUpstreamName` | upload.go:60-81 | a redirect to an upstream file name is stored under the issue's key with its public name as download name, and the answer links that name |
| `Upload.UploadLinkAbsolute` | upload.go:78-81 | a request in absolute form keeps its scheme and host in the link |
| `Serve.ObjectKey` | get.go:14-15 | every '-' of the requested name becomes '/' and every other character is kept in place, so the key holds no '-'; for a name without '/', turning the '/' back into '-' gives the name |
| `Serve.HandleStoreError` | get.go:41-47 | a not-found store error is answered with 404 "Not Found", and any other error with 500 |
| `Serve.Get` | get.go:12-39 | it fails exactly when opening or inspecting the object fails, through `handleMinioError`; otherwise it serves the rewritten key, with an ETag header exactly when the ETag is non-empty, quoted, and with Cache-Control last |
| `Serve.EscapeChar` | get.go:33 | a character is escaped exactly when it is '"', '\' or a control character, and is kept as itself otherwise |
| `Serve.Quote` | get.go:33 | the header value is enclosed in double quotes |
| `Serve.UnquoteEscape` | get.go:33 | each escape reads back as the character it encodes |
| `Serve.UnquoteQuote` | get.go:33 | round trip: unquoting the ETag header gives back the stored ETag |
| `Serve.QuoteBodyPrintable` | get.go:33 | the quoted ETag holds no control character |
| `Serve.ServesLatestKey` | get.go:14-17 | the name `findLatest` derives from a listed key is served from that key |
| `Serve.ServesFastPathName` | get.go:14-17 | the fast-path name is served from the key the fast path checked |
| `Serve.ServesIssue` | get.go:14-17 | an issue stored by `update` or `upload` is served under its public name, when its extension holds no '-' |
| `Serve.UndatedNameWithHyphenMissed` | get.go:14-17 | a name holding a '-' is never looked up under itself, so an undated name stored with a '-' cannot be served |

## Left out

- URL parsing and rendering are left out:
  - `url.Parse` of the configured URL and `http.NewRequest` are not modelled. Upload takes whether the request could be built as an input (`requestBuilt`).
  - `update` takes the configured URL as the text `u.String()` would give.
  - `URL.String` is modelled without path escaping, user info, fragments or `ForceQuery`.
- Query parsing: the `url` query parameter is an input.
- The network, the object store, the clock and the `Authorization` header are inputs, as described above. Time zones and time of day are not modelled: a date stands for midnight UTC.
- The program keeps the latest slot in an atomic variable. It is modelled as a value passed in and out; concurrent handlers are not modelled.
- Logging (`slog`), the `User-Agent` header and cancelling the listing's context have no effect on results and are left out.
- The text of library errors, `res.Status` and the error wrapping (`ErrInvalidFilename`) are not modelled:
  - a reply carrying such a message has the body `LibraryMessage`;
  - a date error is one of three reasons.
- `handleHTTPError` is not part of this model. Its call sites that pass a library error are modelled as `Http.LibraryError`, a status code and the library's message. The one call site with a fixed text (`upload.go:25`) is modelled as `Http.Error("Missing url", 400)`, whose body is that text and a newline.
- `http.Redirect` resolves the target `../<name>` against the request path and cleans it. The model records the target as passed, not the resolved `Location` header.
- `http.ServeContent` (ranges, conditional requests, Content-Type sniffing) and the Content-Type passthrough on put are not modelled. `get` ends by handing over the key and headers. A put records its key and Content-Disposition only.
- Issues.GetDate: its own contract only bounds the date it returns. What it accepts and refuses is stated by `Issues.GetDatePrefixErrors`, `Issues.GetDateAfterPrefixes`, `Issues.UpstreamNameParses` and `Issues.ShortPathRoundTrip`.
- UpstreamNames.GetDateUpstream: its own contract only bounds the date it returns. What it accepts and refuses is stated by `UpstreamNames.UpstreamPrefixErrors`, `UpstreamNames.PrefixedText`, `UpstreamNames.UpstreamNameAccepted` and `UpstreamNames.IsoNameRejected`.
- Serve.EscapeChar: `strconv.Quote` is modelled for ASCII only. Non-printable non-ASCII characters, which Go writes as `\u`/`\U` escapes, are kept as themselves.
- GoTime.Parse: only the layout chunks the program uses are modelled. Layouts with other chunks, time zones, fractional seconds and the error texts of `time.Parse` are left out.
- The main program, configuration, the store client, the User-Agent module and the router are not part of this model.
