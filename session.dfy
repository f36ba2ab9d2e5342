/**
 * The cookie-refresh decision of `refresh_session`: the session is logged in
 * again when the refresh is forced, when the cookie file is missing (it is
 * first created empty) or empty, or when its modification time lies strictly
 * before `now - COOKIE_LIFETIME`. Times are whole seconds.
 */
module Session {
  import opened Wrappers

  /** `COOKIE_LIFETIME`: thirty minutes, in seconds. */
  const CookieLifetime: int := 30 * 60

  /** What `os.path.getsize` and `os.path.getmtime` report for the cookie file. */
  datatype CookieFile = CookieFile(size: nat, mtime: int)

  /** The size of the cookie jar a login writes: `json.dump` of a dictionary
      writes at least `{}`, two bytes. */
  type JarSize = n: nat | n >= 2 witness 2

  /** The file as it is after `open(COOKIE_FILE, "w").close()` has run when it was missing. */
  function Touched(f: Option<CookieFile>, now: int): CookieFile {
    match f
    case None => CookieFile(0, now)
    case Some(file) => file
  }

  /** The stored cookie can no longer be used. */
  predicate IsStale(file: CookieFile, now: int) {
    file.mtime < now - CookieLifetime || file.size == 0
  }

  /** `forced or file_mtime < file_refresh or file_size == 0`, evaluated on the
      file after a missing one has been created. */
  predicate NeedsLogin(forced: bool, f: Option<CookieFile>, now: int): (b: bool)
    ensures b <==> forced || f.None? || f.value.size == 0 || f.value.mtime < now - 1800
  {
    forced || IsStale(Touched(f, now), now)
  }

  /** The cookie file after `refresh_session`: a login writes `written` bytes of
      cookie jar at `now`; otherwise the file was present and stays. Either way
      the file is not stale afterwards. */
  function AfterRefresh(forced: bool, f: Option<CookieFile>, now: int, written: JarSize): (file: CookieFile)
    ensures NeedsLogin(forced, f, now) ==> file == CookieFile(written, now)
    ensures !NeedsLogin(forced, f, now) ==> f == Some(file)
    ensures !IsStale(file, now)
  {
    if NeedsLogin(forced, f, now) then CookieFile(written, now) else Touched(f, now)
  }

  /** A missing cookie file always leads to a login: it is created empty. */
  lemma MissingFileLogsIn(forced: bool, now: int)
    ensures NeedsLogin(forced, None, now)
  {
  }

  /** The comparison is strict: a non-empty file exactly `COOKIE_LIFETIME`
      seconds old is still used, one second later it is replaced. */
  lemma LifetimeBoundary(file: CookieFile)
    requires file.size > 0
    ensures !NeedsLogin(false, Some(file), file.mtime + CookieLifetime)
    ensures NeedsLogin(false, Some(file), file.mtime + CookieLifetime + 1)
  {
  }

  /** A login keeps the session for the whole lifetime: an unforced refresh up
      to `COOKIE_LIFETIME` seconds later does not log in again. */
  lemma RefreshedStaysFresh(forced: bool, f: Option<CookieFile>, now: int, written: JarSize, later: int)
    requires NeedsLogin(forced, f, now)
    requires now <= later <= now + CookieLifetime
    ensures !NeedsLogin(false, Some(AfterRefresh(forced, f, now, written)), later)
  {
  }
}
