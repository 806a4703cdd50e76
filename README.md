# fenfa, modelled in Dafny

fenfa is a small daemon that shares local files through expiring capability links. `fenfa link
<path>` resolves the path, zips it first if it is a directory, and stores a row
`hash -> (expiration, path)`. It then prints `host[:port]/hash`. The running daemon answers each
GET through a global rate limiter and then `FileHandler`. `FileHandler` checks, in order:

- whether the client is banned (too many failed attempts);
- whether the token names a known link;
- whether that link is still active;
- whether its file is still there.

Each check has a fixed effect on the two store tables.

This project models that core and proves what it promises:

- `RateLimit` (main.go `rateLimit` and `resetRateLimit`). The counter is a `RateLimiter` class. A
  reset is an explicit call; the one-minute timer is not modelled. `Replay` is a pure history of
  requests and resets. Its lemmas bound the counter and count the admissions in a window.
- `Store` (internal/store/store.go). The two SQLite tables `entries` and `ip_attempts` are the
  maps of a `LinkStore` class. The clock is an argument `now`. The lookup and counting rules are
  the functions `LookupIn`, `FailedAttempts` and `Incremented`, and lemmas state their
  read-after-write behaviour.
- `Link` (internal/link/link.go).
  - `FileHandler` is a method that takes the `LinkStore` as an argument and updates it. It is
    proved equal to the pure state machine `Handle`.
  - The lemmas cover each branch and its exact effect. Two of them are about a single request:
    an unban restores access, and a self-healed token answers the next request with a plain 404.
    Three are about any sequence of requests (`HandleAll`): counts never fall and stay bounded, a
    ban persists, and a token absent from the entries, such as a self-healed one, stays absent.
  - `GenerateFileLink` is a method proved equal to the pure `Issue`. Its lemmas cover the stored
    row, the 86400-second lifetime, the URL, and the refusal of oversized directories.
- `Server` (the handler closure in main.go's `startServer`). `Gate` is the ordering "method, then
  rate limit, then FileHandler". `Daemon.ServeHTTP` runs that ordering on the limiter and the
  store. The lemmas cover 405 and 429, and show that at most `RateLimit - requests` requests
  reach `FileHandler` in one window.
- `Utils` (pkg/utils/utils.go). It covers the depth-bounded walk shared by `estimateSizeHelper`
  and `addFilesToZip`, `ZipDirectory`'s output, and the PATH search of `ResolveToAbsolutePath`.
  - The file system is an oracle `fs: string -> Node`. A `Node` is one of: a file with a size
    and a flag saying whether it can be opened and read; a listable directory; a directory that
    cannot be listed; a missing path; or a path that cannot be inspected.
  - The walk is specified by `FirstFault` (the first failure in visiting order) and `Visible`
    (the files within the depth bound, by relative path). `FirstFault` takes the kind of walk.
    The estimate only stats files. The zip walk also opens and copies them, so an unreadable
    file fails the zip walk but not the estimate.
  - The zip writer's entries are specified by `Archived`.
  - The older copy in fenfa/pkg/utils/utils.go has the same traversal code, so these members
    model both copies. Some rows below cite the older copy's lines for that reason.
- `LegacyCodec` (fenfa/pkg/utils/utils.go `Encode`): `hex(sha256(input ++ %d(timestamp) ++ salt))`.
  SHA-256 is a parameter.
- `Text`, `Paths`, `Config` and `Base` hold the support the core relies on:
  - `Text`: the `%d` and hex formatting, with round trips;
  - `Paths`: `filepath.Join`, `Abs` and `Split` for '/'-separated paths;
  - `Config`: the configuration values, and the constant `DefaultExpirationPeriod = 86400` that
    link.go:68 uses;
  - `Base`: `Option` and `Result`.

## Model

| member | source | states |
|---|---|---|
| RateLimit.RateLimiter.TryAcquire | main.go:197-206 | admits exactly when the counter is below RateLimit; an admission adds exactly 1, a refusal leaves the counter as it was; the counter stays within [0, max(RateLimit, 0)] |
| RateLimit.RateLimiter.Reset | main.go:208-215 | one window end: the counter becomes 0 and the limit is unchanged |
| RateLimit.ReplayStaysBounded | main.go:197-215 | from a counter in range, no history of requests and resets pushes the counter above RateLimit (or below 0) |
| RateLimit.WindowAdmissions | main.go:201-205 | within one window, n calls admit exactly min(n, max(RateLimit - requests, 0)); after a reset that is at most RateLimit |
| RateLimit.RateWindowExample | main.go:197-215 | with RateLimit 2, the third request in a window is refused and the first one after a reset is admitted |
| Server.NonGetRejected | main.go:129-132 | a non-GET request gets 405 and neither the counter nor the tables change |
| Server.RateLimitedUntouched | main.go:133-136 | a GET over the rate limit gets 429 and the entries and attempts are untouched |
| Server.HandledIff | main.go:128-138 | a request reaches FileHandler iff it is a GET and the counter is below the limit; only then does the counter move, by 1 |
| Server.HandledWithinWindow | main.go:128-138 | in one window at most max(RateLimit - requests, 0) requests reach FileHandler |
| Server.Daemon.ServeHTTP | main.go:128-138 | the handler's effect on the limiter and the store equals Gate's, and the limiter keeps its limit and range |
| Server.Daemon.ResetWindow | main.go:209-214 | the counter becomes 0 and the tables are unchanged |
| Store.LinkStore.Get | internal/store/store.go:58-84 | returns LookupIn of the current entries: the zero Entry, not active, not found for an absent hash; otherwise the row, active iff expiration > now; modifies nothing |
| Store.ActiveIffBeforeExpiration | internal/store/store.go:78-83 | a present hash is found with its row, and active iff now < expiration (expiration == now is expired) |
| Store.LookupAbsent | internal/store/store.go:71-72 | an absent hash reads as Entry{0, ""}, not active, not found |
| Store.LinkStore.Add | internal/store/store.go:86-100 | upsert: the hash maps to the new row, overwriting any earlier one; attempts unchanged |
| Store.LookupAfterAdd | internal/store/store.go:93-94 | after an upsert the hash reads back as the new row (active iff expiration > now); other hashes read as before |
| Store.LinkStore.Delete | internal/store/store.go:103-111 | removes only the hash; attempts unchanged |
| Store.LookupAfterDelete | internal/store/store.go:103-111 | the deleted hash reads as absent, other hashes as before, and deleting an absent hash leaves the table as it was |
| Store.LinkStore.IncrementFailedAttempts | internal/store/store.go:155-170 | the client's row becomes its previous count + 1 (1 when absent); entries unchanged |
| Store.CountAfterIncrement | internal/store/store.go:162-163 | the incremented client's count rises by exactly 1, every other client's is unchanged |
| Store.LinkStore.GetFailedAttempts | internal/store/store.go:172-190 | returns the stored count, 0 for an unseen client; modifies nothing |
| Store.LinkStore.ResetFailedAttempts | internal/store/store.go:192-200 | deletes the client's row; entries unchanged |
| Store.CountAfterReset | internal/store/store.go:199 | after the reset the client reads 0 attempts; every other client keeps its count |
| Link.FileHandler | internal/link/link.go:88-137 | the status and the new tables are exactly Handle of the old tables, with the token taken from the URL path |
| Link.LockedOut | internal/link/link.go:103-107 | a client at or above FailedAttemptLimit gets 403 and neither table changes, whatever token it sends |
| Link.UnknownToken | internal/link/link.go:108-115 | an unknown token gets 404, the client's count rises by 1, the entries are unchanged |
| Link.ExpiredToken | internal/link/link.go:116-121 | an expired token gets 410, the count rises by 1 and the entry is kept |
| Link.VanishedFile | internal/link/link.go:123-128 | an active token whose file does not exist gets 404, the count rises by 1 and the entry is deleted |
| Link.UninspectableFile | internal/link/link.go:129-132 | an active token whose file cannot be inspected gets 500 and nothing changes |
| Link.ServedIff | internal/link/link.go:103-136 | the file is served iff the client is not banned, the token is stored, it has not expired and the file is present; serving changes nothing |
| Link.SelfHealIsFinal | internal/link/link.go:110-128 | after a 404 the token is not in the entries, so a later request for it is a plain 404 that leaves the entries alone |
| Link.HandleCountStep | internal/link/link.go:96-124 | one request changes a client's count by at most 1, only for the requesting client, and only while the count is below the limit |
| Link.CountsStayBounded | internal/link/link.go:96-124 | over any sequence of requests a count never decreases and never exceeds max(its start, FailedAttemptLimit) |
| Link.LockoutPersists | internal/link/link.go:103-107 | once banned, every later request from the client is refused with 403, whatever other clients do |
| Link.AbsentStaysAbsent | internal/link/link.go:96-136 | FileHandler never creates a link: a token absent from the entries stays absent through any sequence of requests |
| Link.UnbanRestoresAccess | internal/store/store.go:192-200 | after ResetFailedAttempts, with a positive limit, the client's request for an active link whose file is present is served |
| Link.GenerateFileLink | internal/link/link.go:16-86 | the outcome is Issue; the entries get exactly the issued row when a link is issued and are unchanged otherwise; attempts never change |
| Link.GetwdFailureIsFatal | internal/link/link.go:17-20 | when os.Getwd fails, resolving an existing relative path fails, and GenerateFileLink ends in log.Fatalf whatever the token |
| Link.FileIssuance | internal/link/link.go:68-83 | a resolvable plain file with a token yields the row (hash, now + 86400, absolute path) and the URL host[:port]/hash |
| Link.DirectoryIssuance | internal/link/link.go:29-65 | an issued directory link stores the path of the archive moved under the zip directory, and its estimate was within MaxZipSize |
| Link.OversizedDirectoryRefused | internal/link/link.go:37-41 | a directory whose estimate exceeds MaxZipSize is refused and gets no entry |
| Link.EstimatedDirectoryZips | internal/link/link.go:30-48 | after a successful estimate, zipping ends in dirPath + ".zip", CreateFailed (exactly when the archive cannot be created) or OpenFailed (a counted file cannot be opened or copied); when every counted file can be read and the archive can be created, it succeeds |
| Link.UrlEndsWithToken | internal/link/link.go:76-83 | the printed URL's last segment is the token, with or without the port |
| Link.IssuedLinkLifetime | internal/link/link.go:68-75 | an issued link is served to a client in good standing before now + 86400 if its file is present, and answers 410 from then on |
| Utils.EstimateSizeHelper | pkg/utils/utils.go:111-142 | fails iff the walk meets a stat or read-directory failure (the first one, in visiting order); otherwise returns the total size of the files within the depth bound |
| Utils.EstimateListing | fenfa/pkg/utils/utils.go:108-124 | the loop over a listing (written identically in both copies) stops at the first failing member and propagates its error; otherwise it sums the members' sizes |
| Utils.EstimateZipSize | pkg/utils/utils.go:107-109 | the walk from the root at depth 0: the first failure or the total visible size |
| Utils.AddFilesToZip | pkg/utils/utils.go:56-105 | reports the zip walk's first failure, including a file that cannot be opened or copied; the writer's entries become Archived: a directory entry for each non-root directory, a file entry for each file (created before the file is opened), in visiting order, up to the failure |
| Utils.ZipFaults | pkg/utils/utils.go:86-101 | the zip walk fails with the estimate's failure, or earlier with OpenFailed; when every file within the bound can be read, both walks fail alike |
| Utils.AddListingToZip | fenfa/pkg/utils/utils.go:63-68 | the loop over a listing (written identically in both copies) writes the members' entries in order and stops at the first failing member |
| Utils.ZipDirectory | pkg/utils/utils.go:37-54 | returns dirPath + ".zip" when the archive can be created and the walk succeeds, CreateFailed or the walk's failure otherwise; on success the archive's files are exactly the estimate's |
| Utils.ZipHoldsVisibleFiles | pkg/utils/utils.go:56-142 | a successful zip walk adds exactly the files the size estimate counts, in the same order and with the same sizes |
| Utils.ZipDirectoryNames | pkg/utils/utils.go:67-73 | every directory entry is a non-empty relative path followed by "/", so the root never gets one |
| Utils.DirectoryAtDepthBound | pkg/utils/utils.go:57-59 | a directory at depth maxDepth still gets its entry, none of its children are visited, and it adds size 0 |
| Utils.BeyondContributesNothing | fenfa/pkg/utils/utils.go:95-97 | with maxDepth >= 0, a node deeper than maxDepth is not visited: no failure, no entries, size 0 (the same cut-off as pkg/utils/utils.go:112-114) |
| Utils.UnboundedWalk | pkg/utils/utils.go:112 | with a negative maxDepth the starting depth makes no difference: nothing is cut off |
| Utils.FaultStopsListing | pkg/utils/utils.go:80-85 | once a member of a listing has failed, later members change neither the failure nor the entries |
| Utils.FirstOnPathFinds | pkg/utils/utils.go:154-162 | the PATH search finds nothing exactly when no entry has the file, and otherwise the first entry, in order, that has it |
| Utils.ResolveToAbsolutePath | pkg/utils/utils.go:149-163 | an absolute path is returned as it is; an existing path is made absolute directly; otherwise the result is the first PATH entry, in order, under which the path exists, made absolute; NotFoundOnPath exactly when no entry has it; GetwdFailed only when the working directory is unknown |
| LegacyCodec.Encode | fenfa/pkg/utils/utils.go:13-18 | the token is 64 lower-case hex digits |
| LegacyCodec.SamePreimageSameToken | fenfa/pkg/utils/utils.go:13-18 | the token depends on the inputs only through the preimage, so it is deterministic |
| LegacyCodec.PreimageCollision | fenfa/pkg/utils/utils.go:14 | without separators ("a1", 2) and ("a", 12) share a preimage and hence a token, under any salt |
| LegacyCodec.TimestampsSeparate | fenfa/pkg/utils/utils.go:14 | for a fixed input and salt, different timestamps give different preimages |
| LegacyCodec.TokenCarriesDigest | fenfa/pkg/utils/utils.go:15-17 | hex-decoding the token gives back exactly the 32-byte digest |
| LegacyCodec.DistinctDigestsDistinctTokens | fenfa/pkg/utils/utils.go:15-17 | distinct digests always give distinct tokens |
| Text.DecimalRoundTrip | fenfa/pkg/utils/utils.go:14 | %d of a timestamp is decimal text that reads back as the same number |
| Text.HexRoundTrip | fenfa/pkg/utils/utils.go:17 | hex encoding loses nothing: decoding gives the bytes back |
| Paths.LastSegmentIsSuffix | internal/link/link.go:108 | the token filepath.Split takes is the longest separator-free suffix of the URL path |
| Paths.LastSegmentAfter | internal/link/link.go:108 | a separator-free name after a "/"-terminated prefix is exactly what Split returns |

## Left out

- Process and daemon code is not modelled: `main`, `startServer` beyond the handler closure,
  `initializeDaemonContext`, `sendFlag` and `signalHandler`. They handle command-line
  arguments, signals and the daemon library.
- Configuration loading (internal/config/config.go and fenfa/internal/config/config.go) is not
  modelled; it reads `.env` files and the environment. Its values arrive as a constant
  `Settings`.
- Concurrency is not modelled: the mutex, the reset goroutine and its one-minute timer. A reset
  is an explicit call. Requests are handled one at a time, so the race between
  `GetFailedAttempts` and `IncrementFailedAttempts` in `FileHandler` does not appear.
- SQL and database errors are not modelled, including `Initialize`, `openDB`, `executeSQL` and
  `List`. Consequences:
  - `Store.LinkStore.Get` never fails. The source reports a query error as a missing row.
  - `Link.FileHandler` has no branch for a failing `GetFailedAttempts`, which the source answers
    with 500.
  - `Link.GenerateFileLink` does not model a failing `store.Add`; the source ignores that error
    at link.go:75.
- `Link.FileHandler` takes the result of `net.SplitHostPort` as an argument: the client address,
  or None when splitting fails. Address parsing is not modelled.
- The live `Encode` (HMAC-SHA256 keyed by a random salt, pkg/utils/utils.go:15-35) is foreign
  cryptography and entropy. `Link.GenerateFileLink` receives its result as an argument: a token,
  or None when salt generation fails.
- SHA-256 is not modelled. `LegacyCodec` takes any function from strings to 32-byte digests, and
  it does not model the UTF-8 encoding of the preimage.
- Zip output is not modelled: compressed bytes, closing the writer, and a failing
  `zipWriter.Create` for an entry. `Utils.AddFilesToZip` records only the entries created, in
  order. A failing `os.Open` or `io.Copy` is the file's `readable` flag; a partial copy is
  recorded as an empty entry.
- Some outcomes are boolean inputs of the environment: `os.Create` of the archive, `os.MkdirAll`
  and `os.Rename`. The archive moved under the zip directory is not added to the file-system
  oracle.
- `http.ServeFile` is not modelled; a served request is the status `Served(path)`, given the code
  200. The source's ServeFile can still answer otherwise: 400 for a URL path containing "..", 403,
  404 or 500 when opening the file fails after the stat, or a directory listing when the stored
  path is a directory.
- `Utils.EstimateSizeHelper` returns `Err` where the source returns size 0 together with an
  error; the size is not modelled on that path.
- `Utils.EstimateSizeHelper` does not model int64 overflow of the summed sizes. Expiration
  arithmetic (`now + 86400`) is on unbounded integers.
- Paths are not cleaned: no `..`, `.` or repeated separators. `filepath.Abs` joins a relative
  path to the working directory. The working directory is an input, and None stands for a
  failing `os.Getwd`. `filepath.Base` is the last segment, which is the same for the archive
  paths used here.
- `Utils.ResolveToAbsolutePath` takes `$PATH` already split into a list of directories.
- The size estimate and the zip walk see the same tree. A file system that changes between them
  is not modelled.
- The file-system oracle `fs: string -> Node` is more general than a real file system. Nothing
  ties `fs(Join(p, c.name))` to a child `c` of `fs(p)`. Nothing ties `Resolve`'s check of a
  relative path to the stat of its absolute form, so the model allows `Refused(StatError)`
  right after a successful resolve. A `Dir`'s children may come in any order, while
  `os.ReadDir` sorts them by name. Every proof holds for every oracle.
- The request URL is its path string. `Link.IssuedLinkLifetime` uses the printed URL as that
  path; it ends in the same segment as the URL's path.
