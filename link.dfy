/**
 * internal/link/link.go: FileHandler, the access-control state machine in front of every
 * download, and GenerateFileLink, which issues a link for a local path. Both work on the
 * two tables of the store; the clock, the file system and the token generator are inputs.
 */
module Link {
  import opened Base
  import opened Config
  import opened Paths
  import opened Store
  import opened Text
  import opened Utils

  // ----- Serving a link -----

  /** What os.Stat reports for a stored path, as FileHandler distinguishes it. */
  datatype Stat = Present | NotExist | OtherError

  function StatOf(n: Node): Stat
  {
    match n
    case Missing(_) => NotExist
    case Inaccessible(_) => OtherError
    case _ => Present
  }

  /** FileHandler's outcomes. */
  datatype Status =
    | Served(path: string)   // http.ServeFile on the stored path
    | AccessDenied           // the client is banned
    | NotFound               // unknown token, or its file has disappeared
    | Gone                   // the link has expired
    | InternalError          // no client address, or the file cannot be inspected
  {
    function Code(): int
    {
      match this
      case Served(_) => 200
      case AccessDenied => 403
      case NotFound => 404
      case Gone => 410
      case InternalError => 500
    }
  }

  /** The store's two tables. */
  datatype Tables = Tables(entries: map<string, Entry>, attempts: map<string, nat>)

  datatype Response = Response(status: Status, tables: Tables)

  /**
   * One FileHandler call. `ip` is the host part net.SplitHostPort finds in the remote
   * address (None when it fails); `hash` is the token, the file part filepath.Split takes
   * from the URL path (see Token).
   */
  function Handle(t: Tables, ip: Option<string>, hash: string, now: int, fs: string -> Node, limit: int): Response
  {
    if ip.None? then Response(InternalError, t)
    else if FailedAttempts(t.attempts, ip.value) >= limit then Response(AccessDenied, t)
    else
      var penalised := Incremented(t.attempts, ip.value);
      var lookup := LookupIn(t.entries, hash, now);
      if !lookup.found then Response(NotFound, Tables(t.entries, penalised))
      else if !lookup.active then Response(Gone, Tables(t.entries, penalised))
      else match StatOf(fs(lookup.record.path))
        case NotExist => Response(NotFound, Tables(t.entries - {hash}, penalised))
        case OtherError => Response(InternalError, t)
        case Present => Response(Served(lookup.record.path), t)
  }

  /** The token a request names: the last segment of its URL path. */
  function Token(urlPath: string): string
  {
    LastSegment(urlPath)
  }

  /** FileHandler, performing its effects on the store. */
  method FileHandler(store: LinkStore, ip: Option<string>, urlPath: string, now: int, fs: string -> Node, limit: int)
    returns (status: Status)
    modifies store
    ensures Response(status, Tables(store.entries, store.attempts))
         == Handle(Tables(old(store.entries), old(store.attempts)), ip, Token(urlPath), now, fs, limit)
  {
    if ip.None? {
      return InternalError;
    }
    var client := ip.value;
    var failedAttempts := store.GetFailedAttempts(client);
    if failedAttempts >= limit {
      return AccessDenied;
    }
    var hash := Token(urlPath);
    var entry, active, found := store.Get(hash, now);
    if !found {
      store.IncrementFailedAttempts(client);
      return NotFound;
    }
    if !active {
      store.IncrementFailedAttempts(client);
      return Gone;
    }
    var stat := StatOf(fs(entry.path));
    if stat == NotExist {
      store.IncrementFailedAttempts(client);
      store.Delete(hash);
      return NotFound;
    } else if stat == OtherError {
      return InternalError;
    }
    return Served(entry.path);
  }

  /** A banned client is refused with 403 whatever it asks for, and nothing is recorded. */
  lemma LockedOut(t: Tables, ip: string, hash: string, now: int, fs: string -> Node, limit: int)
    requires FailedAttempts(t.attempts, ip) >= limit
    ensures Handle(t, Some(ip), hash, now, fs, limit) == Response(AccessDenied, t)
    ensures Handle(t, Some(ip), hash, now, fs, limit).status.Code() == 403
  {
  }

  /** Unknown token: 404, one more failed attempt for this client, links untouched. */
  lemma UnknownToken(t: Tables, ip: string, hash: string, now: int, fs: string -> Node, limit: int)
    requires FailedAttempts(t.attempts, ip) < limit
    requires hash !in t.entries
    ensures Handle(t, Some(ip), hash, now, fs, limit) == Response(NotFound, Tables(t.entries, Incremented(t.attempts, ip)))
    ensures FailedAttempts(Handle(t, Some(ip), hash, now, fs, limit).tables.attempts, ip) == FailedAttempts(t.attempts, ip) + 1
  {
  }

  /** Expired token (expiration at or before now): 410, one more failed attempt, entry kept. */
  lemma ExpiredToken(t: Tables, ip: string, hash: string, now: int, fs: string -> Node, limit: int)
    requires FailedAttempts(t.attempts, ip) < limit
    requires hash in t.entries && t.entries[hash].expiration <= now
    ensures Handle(t, Some(ip), hash, now, fs, limit) == Response(Gone, Tables(t.entries, Incremented(t.attempts, ip)))
    ensures hash in Handle(t, Some(ip), hash, now, fs, limit).tables.entries
  {
  }

  /** Active token whose file has vanished: 404, one more failed attempt, and the link is dropped. */
  lemma VanishedFile(t: Tables, ip: string, hash: string, now: int, fs: string -> Node, limit: int)
    requires FailedAttempts(t.attempts, ip) < limit
    requires hash in t.entries && t.entries[hash].expiration > now
    requires StatOf(fs(t.entries[hash].path)) == NotExist
    ensures Handle(t, Some(ip), hash, now, fs, limit)
         == Response(NotFound, Tables(t.entries - {hash}, Incremented(t.attempts, ip)))
  {
  }

  /** Active token whose file cannot be inspected: 500 and no change at all. */
  lemma UninspectableFile(t: Tables, ip: string, hash: string, now: int, fs: string -> Node, limit: int)
    requires FailedAttempts(t.attempts, ip) < limit
    requires hash in t.entries && t.entries[hash].expiration > now
    requires StatOf(fs(t.entries[hash].path)) == OtherError
    ensures Handle(t, Some(ip), hash, now, fs, limit) == Response(InternalError, t)
  {
  }

  /** A request is served exactly when the client is not banned, the link is active and its file is there. */
  lemma ServedIff(t: Tables, ip: string, hash: string, now: int, fs: string -> Node, limit: int)
    ensures Handle(t, Some(ip), hash, now, fs, limit).status.Served? <==>
      FailedAttempts(t.attempts, ip) < limit
      && hash in t.entries
      && now < t.entries[hash].expiration
      && StatOf(fs(t.entries[hash].path)) == Present
    ensures Handle(t, Some(ip), hash, now, fs, limit).status.Served? ==>
      Handle(t, Some(ip), hash, now, fs, limit)
        == Response(Served(t.entries[hash].path), t)
  {
  }

  /** After the self-heal the token is unknown: the next try is a plain 404 that leaves the links alone. */
  lemma SelfHealIsFinal(t: Tables, ip: string, hash: string, now: int, fs: string -> Node, limit: int,
                        later: int, fs2: string -> Node)
    requires Handle(t, Some(ip), hash, now, fs, limit).status == NotFound
    ensures hash !in Handle(t, Some(ip), hash, now, fs, limit).tables.entries
    ensures var t2 := Handle(t, Some(ip), hash, now, fs, limit).tables;
      FailedAttempts(t2.attempts, ip) < limit ==>
        Handle(t2, Some(ip), hash, later, fs2, limit) == Response(NotFound, Tables(t2.entries, Incremented(t2.attempts, ip)))
  {
    var t2 := Handle(t, Some(ip), hash, now, fs, limit).tables;
    if hash in t.entries {
      assert t2.entries == t.entries - {hash};
    } else {
      assert t2.entries == t.entries;
    }
    assert hash !in t2.entries;
  }

  /**
   * One request changes a client's count by at most one, only for that client, and only
   * while it is below the limit.
   */
  lemma HandleCountStep(t: Tables, ip: Option<string>, hash: string, now: int, fs: string -> Node, limit: int,
                        other: string)
    ensures var after := FailedAttempts(Handle(t, ip, hash, now, fs, limit).tables.attempts, other);
      var before := FailedAttempts(t.attempts, other);
      after == before || (after == before + 1 && before < limit && ip == Some(other))
  {
  }

  // ----- Handling a sequence of requests -----

  /** One download attempt as FileHandler receives it. */
  datatype Download = Download(ip: Option<string>, urlPath: string, now: int, fs: string -> Node)

  /** The statuses of successive FileHandler calls and the tables they leave behind. */
  datatype Run = Run(statuses: seq<Status>, tables: Tables)

  function HandleAll(t: Tables, reqs: seq<Download>, limit: int): Run
    decreases |reqs|
  {
    if reqs == [] then Run([], t)
    else
      var first := Handle(t, reqs[0].ip, Token(reqs[0].urlPath), reqs[0].now, reqs[0].fs, limit);
      var rest := HandleAll(first.tables, reqs[1..], limit);
      Run([first.status] + rest.statuses, rest.tables)
  }

  /** Counts never go down, and never rise past the larger of their start and the limit. */
  lemma {:induction false} CountsStayBounded(t: Tables, reqs: seq<Download>, limit: int, ip: string)
    ensures FailedAttempts(t.attempts, ip) <= FailedAttempts(HandleAll(t, reqs, limit).tables.attempts, ip)
    ensures FailedAttempts(HandleAll(t, reqs, limit).tables.attempts, ip) <= Max(FailedAttempts(t.attempts, ip), limit)
    decreases |reqs|
  {
    if reqs != [] {
      var r := reqs[0];
      HandleCountStep(t, r.ip, Token(r.urlPath), r.now, r.fs, limit, ip);
      CountsStayBounded(Handle(t, r.ip, Token(r.urlPath), r.now, r.fs, limit).tables, reqs[1..], limit, ip);
    }
  }

  /** Once banned, every later request from that client is refused with 403, whatever else happens. */
  lemma {:induction false} LockoutPersists(t: Tables, reqs: seq<Download>, limit: int, ip: string)
    requires FailedAttempts(t.attempts, ip) >= limit
    ensures |HandleAll(t, reqs, limit).statuses| == |reqs|
    ensures forall k :: 0 <= k < |reqs| && reqs[k].ip == Some(ip) ==> HandleAll(t, reqs, limit).statuses[k] == AccessDenied
    decreases |reqs|
  {
    if reqs != [] {
      var r := reqs[0];
      var first := Handle(t, r.ip, Token(r.urlPath), r.now, r.fs, limit);
      HandleCountStep(t, r.ip, Token(r.urlPath), r.now, r.fs, limit, ip);
      LockoutPersists(first.tables, reqs[1..], limit, ip);
      var run := HandleAll(t, reqs, limit);
      var rest := HandleAll(first.tables, reqs[1..], limit);
      forall k | 0 <= k < |reqs| && reqs[k].ip == Some(ip)
        ensures run.statuses[k] == AccessDenied
      {
        if k > 0 {
          assert reqs[1..][k - 1] == reqs[k];
          assert run.statuses[k] == rest.statuses[k - 1];
        }
      }
    }
  }

  /**
   * FileHandler never creates a link: a token absent from the entries stays absent through any
   * sequence of requests. With SelfHealIsFinal, a self-healed token stays unknown for good.
   */
  lemma {:induction false} AbsentStaysAbsent(t: Tables, reqs: seq<Download>, limit: int, hash: string)
    requires hash !in t.entries
    ensures hash !in HandleAll(t, reqs, limit).tables.entries
    decreases |reqs|
  {
    if reqs != [] {
      var r := reqs[0];
      AbsentStaysAbsent(Handle(t, r.ip, Token(r.urlPath), r.now, r.fs, limit).tables, reqs[1..], limit, hash);
    }
  }

  /**
   * ResetFailedAttempts lifts a ban: with a positive limit, the client's next request for an
   * active link whose file is present is served.
   */
  lemma UnbanRestoresAccess(t: Tables, ip: string, hash: string, now: int, fs: string -> Node, limit: int)
    requires limit > 0 && NoSeparator(hash)
    requires hash in t.entries && now < t.entries[hash].expiration
    requires StatOf(fs(t.entries[hash].path)) == Present
    ensures Handle(Tables(t.entries, t.attempts - {ip}), Some(ip), Token("/" + hash), now, fs, limit).status
         == Served(t.entries[hash].path)
  {
    LastSegmentAfter("/", hash);
    assert Token("/" + hash) == hash;
    CountAfterReset(t.attempts, ip, ip);
  }

  // ----- Issuing a link -----

  /** What GenerateFileLink meets outside the program: the file system, its working directory and PATH, and three outcomes it cannot predict. */
  datatype Environment = Environment(
    fs: string -> Node,
    cwd: Option<string>,     // os.Getwd, None when it fails
    pathList: seq<string>,   // filepath.SplitList($PATH)
    createOk: bool,          // os.Create of the archive succeeds
    mkdirOk: bool,           // os.MkdirAll of the zip directory succeeds
    renameOk: bool           // os.Rename of the archive into it succeeds
  )

  datatype Refusal =
    | StatError
    | EstimateError(fault: FsError)
    | TooLarge
    | ZipError(fault: FsError)
    | MkdirError
    | RenameError
    | EncodeError

  datatype Issuance =
    | Issued(url: string, hash: string, entry: Entry)   // printed URL, stored row
    | Refused(reason: Refusal)                           // logged, and nothing stored
    | Fatal                                              // log.Fatalf: the path does not resolve

  /** The link's text: host, then ":port" when the template includes it, then "/" and the token. */
  function LinkUrl(cfg: Settings, hash: string): string
  {
    if cfg.templateIncludesPort then cfg.host + ":" + Decimal(cfg.port) + "/" + hash
    else cfg.host + "/" + hash
  }

  /** Where the archive of dirPath ends up: its file name moved under the zip directory. */
  function ArchivePath(cfg: Settings, dirPath: string): string
  {
    Join(cfg.zipDirectory, LastSegment(dirPath + ".zip"))
  }

  /** The path a link for `abs` serves: the file itself, or the moved archive of a directory. */
  function Target(cfg: Settings, env: Environment, abs: string): Result<string, Refusal>
  {
    var n := env.fs(abs);
    if !IsDirectory(n) then Ok(abs)
    else match SizeEstimate(n, "", 0, cfg.maxZipDepth)
      case Err(e) => Err(EstimateError(e))
      case Ok(size) =>
        if size > cfg.maxZipSize then Err(TooLarge)
        else match ZipOutcome(n, abs, cfg.maxZipDepth, env.createOk)
          case Err(e) => Err(ZipError(e))
          case Ok(zipPath) =>
            if !env.mkdirOk then Err(MkdirError)
            else if !env.renameOk then Err(RenameError)
            else Ok(Join(cfg.zipDirectory, LastSegment(zipPath)))
  }

  /** GenerateFileLink's outcome; `token` is what Encode returns (None when it fails). */
  function Issue(cfg: Settings, env: Environment, path: string, now: int, token: Option<string>): Issuance
  {
    match Resolve(env.fs, env.cwd, env.pathList, path)
    case Err(_) => Fatal
    case Ok(abs) =>
      if !Exists(env.fs(abs)) then Refused(StatError)
      else match Target(cfg, env, abs)
        case Err(reason) => Refused(reason)
        case Ok(target) =>
          match token
          case None => Refused(EncodeError)
          case Some(hash) => Issued(LinkUrl(cfg, hash), hash, Entry(now + DefaultExpirationPeriod, target))
  }

  /** GenerateFileLink: resolves, archives a directory, stores the link and returns it. */
  method GenerateFileLink(store: LinkStore, cfg: Settings, env: Environment, path: string, now: int,
                          token: Option<string>)
    returns (result: Issuance)
    modifies store
    ensures result == Issue(cfg, env, path, now, token)
    ensures result.Issued? ==> store.entries == old(store.entries)[result.hash := result.entry]
    ensures !result.Issued? ==> store.entries == old(store.entries)
    ensures store.attempts == old(store.attempts)
  {
    var resolved := ResolveToAbsolutePath(env.fs, env.cwd, env.pathList, path);
    if resolved.Err? {
      return Fatal;
    }
    var absolutePath := resolved.value;
    var info := env.fs(absolutePath);
    if !Exists(info) {
      return Refused(StatError);
    }
    if IsDirectory(info) {
      var estimatedSize := EstimateZipSize(info, cfg.maxZipDepth);
      if estimatedSize.Err? {
        return Refused(EstimateError(estimatedSize.error));
      }
      if estimatedSize.value > cfg.maxZipSize {
        return Refused(TooLarge);
      }
      var zipped, _ := ZipDirectory(info, absolutePath, cfg.maxZipDepth, env.createOk);
      if zipped.Err? {
        return Refused(ZipError(zipped.error));
      }
      if !env.mkdirOk {
        return Refused(MkdirError);
      }
      var finalZipPath := Join(cfg.zipDirectory, LastSegment(zipped.value));
      if !env.renameOk {
        return Refused(RenameError);
      }
      absolutePath := finalZipPath;
    }
    var expiration := now + DefaultExpirationPeriod;
    if token.None? {
      return Refused(EncodeError);
    }
    var hash := token.value;
    store.Add(hash, expiration, absolutePath);
    return Issued(LinkUrl(cfg, hash), hash, Entry(expiration, absolutePath));
  }

  /**
   * A relative path needs the working directory: when os.Getwd fails, even an existing file
   * ends in log.Fatalf, whatever the token; an absolute path never needs it.
   */
  lemma GetwdFailureIsFatal(cfg: Settings, env: Environment, path: string, now: int, token: Option<string>)
    requires env.cwd.None? && !IsAbs(path) && FileExists(env.fs, path)
    ensures Resolve(env.fs, env.cwd, env.pathList, path) == Err(GetwdFailed)
    ensures Issue(cfg, env, path, now, token) == Fatal
  {
  }

  /** A plain file that resolves and a working token always yield a link to that very file. */
  lemma FileIssuance(cfg: Settings, env: Environment, path: string, now: int, hash: string, abs: string)
    requires Resolve(env.fs, env.cwd, env.pathList, path) == Ok(abs)
    requires env.fs(abs).File?
    ensures Issue(cfg, env, path, now, Some(hash)) == Issued(LinkUrl(cfg, hash), hash, Entry(now + 86400, abs))
  {
  }

  /** A directory is linked through its archive under the zip directory, named after it with ".zip". */
  lemma DirectoryIssuance(cfg: Settings, env: Environment, path: string, now: int, hash: string, abs: string)
    requires Resolve(env.fs, env.cwd, env.pathList, path) == Ok(abs)
    requires IsDirectory(env.fs(abs))
    requires Issue(cfg, env, path, now, Some(hash)).Issued?
    ensures Issue(cfg, env, path, now, Some(hash)).entry.path == ArchivePath(cfg, abs)
    ensures SizeEstimate(env.fs(abs), "", 0, cfg.maxZipDepth).Ok?
    ensures SizeEstimate(env.fs(abs), "", 0, cfg.maxZipDepth).value <= cfg.maxZipSize
  {
  }

  /** A directory whose estimate exceeds MaxZipSize is refused before any archive is made. */
  lemma OversizedDirectoryRefused(cfg: Settings, env: Environment, path: string, now: int, token: Option<string>, abs: string)
    requires Resolve(env.fs, env.cwd, env.pathList, path) == Ok(abs)
    requires IsDirectory(env.fs(abs))
    requires SizeEstimate(env.fs(abs), "", 0, cfg.maxZipDepth).Ok?
    requires SizeEstimate(env.fs(abs), "", 0, cfg.maxZipDepth).value > cfg.maxZipSize
    ensures Issue(cfg, env, path, now, token) == Refused(TooLarge)
  {
  }

  /**
   * Once the estimate succeeded, zipping can still fail in two ways only: the archive cannot be
   * created, or a file the estimate counted cannot be opened or copied. When every such file
   * can be read, zipping a creatable archive succeeds.
   */
  lemma EstimatedDirectoryZips(n: Node, abs: string, maxDepth: int, createOk: bool)
    requires SizeEstimate(n, "", 0, maxDepth).Ok?
    ensures ZipOutcome(n, abs, maxDepth, createOk) == Ok(abs + ".zip")
         || ZipOutcome(n, abs, maxDepth, createOk) == Err(CreateFailed)
         || ZipOutcome(n, abs, maxDepth, createOk) == Err(OpenFailed)
    ensures ZipOutcome(n, abs, maxDepth, createOk) == Err(CreateFailed) <==> !createOk
    ensures createOk && AllReadable(n, 0, maxDepth) ==> ZipOutcome(n, abs, maxDepth, createOk) == Ok(abs + ".zip")
  {
    ZipFaults(n, 0, maxDepth);
  }

  /** The printed URL ends in the token, so it is exactly the segment FileHandler will look up. */
  lemma UrlEndsWithToken(cfg: Settings, hash: string)
    requires NoSeparator(hash)
    ensures Token(LinkUrl(cfg, hash)) == hash
  {
    var prefix := if cfg.templateIncludesPort then cfg.host + ":" + Decimal(cfg.port) + "/" else cfg.host + "/";
    assert LinkUrl(cfg, hash) == prefix + hash;
    LastSegmentAfter(prefix, hash);
  }

  /**
   * A freshly issued link works for a client in good standing until 86400 seconds after
   * issuance, provided its target is then present; from that moment on it answers 410.
   */
  lemma IssuedLinkLifetime(cfg: Settings, env: Environment, path: string, now: int, hash: string,
                           t: Tables, ip: string, later: int, fs: string -> Node)
    requires Issue(cfg, env, path, now, Some(hash)).Issued?
    requires NoSeparator(hash)
    requires FailedAttempts(t.attempts, ip) < cfg.failedAttemptLimit
    ensures var issued := Issue(cfg, env, path, now, Some(hash));
      var r := Handle(Tables(t.entries[hash := issued.entry], t.attempts), Some(ip), Token(issued.url), later, fs,
                      cfg.failedAttemptLimit);
      (later < now + DefaultExpirationPeriod && StatOf(fs(issued.entry.path)) == Present ==>
         r == Response(Served(issued.entry.path), Tables(t.entries[hash := issued.entry], t.attempts)))
      && (later >= now + DefaultExpirationPeriod ==> r.status == Gone)
  {
    UrlEndsWithToken(cfg, hash);
  }
}
