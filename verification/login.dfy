/** The login state machine of `driver/wx.py`: the lock marker file, the
    QR-code login attempt (`wxLogin`), what `Call_Success` records, and the
    periodic refresh. Threads and timers become sequential steps: `GetCode`
    queues an attempt, and a scheduled refresh is a counter. */
module Login {
  import opened Options
  import Chains
  import opened Text
  import opened Cookies

  /** The login-related state of the `Wx` object and of the files it owns. */
  datatype Wx = Wx(
    lock: bool,               // data/.lock exists
    isLock: bool,             // the isLOCK attribute
    hasLogin: bool,
    hasCode: bool,
    qr: Option<nat>,          // size in bytes of static/wx_qrcode.png, when present
    session: Option<Session>,
    callback: bool,           // CallBack is set
    notice: bool,             // Notice is set
    refreshInterval: int,
    saved: seq<seq<Cookie>>,  // cookie lists handed to Store.save
    delivered: seq<Session>,  // sessions handed to CallBack
    notified: nat,            // calls of Notice
    queued: seq<bool>,        // login attempts started by GetCode, with whether a CallBack was passed
    timers: nat)              // refresh timers started

  /** `refresh_interval` set by the constructor: 3660 * 24 seconds. */
  const DefaultInterval: int := 3660 * 24

  /** The smallest QR screenshot, in bytes, that counts as a QR code. */
  const MinQrBytes: nat := 365

  /** A new `Wx`: the class defaults, the QR file removed and the lock
      released (whether or not a stale marker was present). */
  function Init(staleLock: bool, qr: Option<nat>): (w: Wx)
    ensures !w.lock && !w.isLock && !w.hasLogin && !w.hasCode
    ensures w.qr.None? && w.session.None? && w.queued == [] && w.timers == 0
    ensures w.refreshInterval == 87840
  {
    var w0 := Wx(staleLock, false, false, false, qr, None, false, false, DefaultInterval, [], [], 0, [], 0);
    ReleaseLock(Clean(w0)).0
  }

  /** `check_lock` */
  function CheckLock(w: Wx): bool {
    w.lock
  }

  /** `set_lock` */
  function SetLock(w: Wx): (r: Wx)
    ensures CheckLock(r)
  {
    w.(lock := true, isLock := true)
  }

  /** `release_lock`: removes the marker and reports whether there was one
      to remove; `isLOCK` is cleared only when the removal succeeds. */
  function ReleaseLock(w: Wx): (r: (Wx, bool))
    ensures !CheckLock(r.0)
    ensures r.1 <==> CheckLock(w)
    ensures !r.1 ==> r.0 == w
  {
    if w.lock then (w.(lock := false, isLock := false), true) else (w, false)
  }

  /** The three lock operations compose as a marker should. */
  lemma LockRoundTrip(w: Wx)
    ensures ReleaseLock(SetLock(w)).1
    ensures ReleaseLock(SetLock(w)).0 == w.(lock := false, isLock := false)
    ensures !ReleaseLock(ReleaseLock(w).0).1
  {
  }

  /** `Clean`: delete the QR image, ignoring a missing file. */
  function Clean(w: Wx): (r: Wx)
    ensures r.qr.None? && r.(qr := w.qr) == w
  {
    w.(qr := None)
  }

  datatype CodeReply = AlreadyRunning | Started

  /** `GetCode`: while the marker exists the "already running" answer comes
      back and no attempt starts; otherwise the QR file is cleared and one
      attempt (with `NeedExit = True`) is queued. */
  function GetCode(w: Wx, callback: bool, notice: bool): (r: (Wx, CodeReply))
    ensures r.1 == AlreadyRunning <==> CheckLock(w)
    ensures r.1 == AlreadyRunning ==> r.0 == w.(notice := notice)
    ensures r.1 == Started ==> r.0.queued == w.queued + [callback] && r.0.qr.None?
    ensures r.1 == Started ==> r.0 == Clean(w).(notice := notice, queued := w.queued + [callback])
    ensures r.0.lock == w.lock && r.0.hasLogin == w.hasLogin
  {
    var w1 := w.(notice := notice);
    if CheckLock(w1) then (w1, AlreadyRunning)
    else (Clean(w1).(queued := w1.queued + [callback]), Started)
  }

  /** The browser's answers during `Call_Success`: the page the token is
      looked for on, the cookie list (`None` when reading it, or `expire`
      on it, raises) and what `expire(cookies)` returns. */
  datatype SuccessEnv = SuccessEnv(page: Option<TokenSources>, cookies: Option<seq<Cookie>>, expiry: Option<string>)

  /** `Call_Success`. The second component is false when reading the
      cookies raised, in which case nothing is recorded. */
  function CallSuccess(w: Wx, env: SuccessEnv): (r: (Wx, bool))
    ensures !r.1 <==> env.cookies.None?
    ensures !r.1 ==> r.0 == w
    ensures r.1 ==> (&& r.0.hasLogin == env.expiry.Some?
                     && r.0.session.Some?
                     && r.0.session.value.cookiesStr == CookieString(env.cookies.value)
                     && r.0.qr.None?)
    ensures r.1 ==> r.0.saved == w.saved + (if env.expiry.Some? then [env.cookies.value] else [])
    ensures r.1 ==> |r.0.delivered| == |w.delivered| + (if w.callback then 1 else 0)
    ensures r.0.lock == w.lock && r.0.queued == w.queued && r.0.timers == w.timers
  {
    match env.cookies
    case None => (w, false)
    case Some(cs) =>
      var session := Session(cs, CookieString(cs), LastToken(cs, ExtractToken(env.page)), env.expiry);
      var loggedIn := session.expiry.Some?;
      var w1 := Clean(w.(session := Some(session), hasLogin := loggedIn));
      var w2 := if loggedIn then w1.(saved := w1.saved + [cs]) else w1;
      var w3 := if w2.callback then w2.(delivered := w2.delivered + [session]) else w2;
      (w3, true)
  }

  /** The session `Call_Success` records is what `format_token` builds from
      the cookie list and the extracted token. */
  lemma CallSuccessSession(w: Wx, env: SuccessEnv)
    requires env.cookies.Some?
    ensures var s := CallSuccess(w, env).0.session.value;
      && s.cookies == env.cookies.value
      && s.token == LastToken(env.cookies.value, ExtractToken(env.page))
      && s.expiry == env.expiry
      && (w.callback ==> CallSuccess(w, env).0.delivered == w.delivered + [s])
  {
  }

  /** What one login attempt meets: whether the dependency check passes,
      whether the browser reaches the QR code and screenshots it, the size
      of that screenshot, whether the user scans it before the two-minute
      wait ends, and the answers of `Call_Success`. */
  datatype LoginEnv = LoginEnv(depsOk: bool, browserOk: bool, qrBytes: nat, scanned: bool, success: SuccessEnv)

  datatype LoginResult =
    | NoDeps                           // `None` before the lock is looked at
    | Busy                             // the "already running" message
    | Finished(session: Option<Session>)

  /** The `except Exception` branch followed by the `finally` block: the
      session is dropped, the QR file deleted and the marker released;
      `HasLogin`, the queue, the timers and what was saved or delivered
      stay as the failed step left them. */
  function Fail(w: Wx, needExit: bool): (r: (Wx, LoginResult))
    ensures r.1 == Finished(None)
    ensures !CheckLock(r.0) && r.0.session.None? && r.0.qr.None?
    ensures r.0.isLock == (w.isLock && !w.lock)
    ensures r.0.(isLock := w.isLock) == w.(session := None, qr := None, lock := false)
  {
    var w1 := Clean(w.(session := None));
    var w2 := ReleaseLock(w1).0;
    (if needExit then Clean(w2) else w2, Finished(None))
  }

  /** The attempt after the lock check, up to (not including) `finally`.
      The second component is false when an exception was raised. */
  function Attempt(w: Wx, callback: bool, env: LoginEnv): (r: (Wx, bool))
    requires CheckLock(w)
    ensures CheckLock(r.0) && r.0.queued == w.queued && r.0.timers == w.timers
  {
    var w1 := Clean(w.(hasLogin := false));
    if !env.browserOk then (w1, false)
    else
      var w2 := w1.(qr := Some(env.qrBytes), hasCode := true);
      if env.qrBytes < MinQrBytes then (w2, false)
      else
        var w3 := if w2.notice then w2.(notified := w2.notified + 1) else w2;
        if !env.scanned then (w3, false)
        else CallSuccess(w3.(hasLogin := true, callback := callback), env.success)
  }

  /** `wxLogin` with the lock check repaired: an attempt that finds the
      marker of another attempt returns without touching it. */
  function WxLogin(w: Wx, callback: bool, needExit: bool, env: LoginEnv): (r: (Wx, LoginResult))
    ensures !env.depsOk ==> r == (w, NoDeps)
    ensures env.depsOk && CheckLock(w) ==> r == (w, Busy)
    ensures env.depsOk && !CheckLock(w) ==> !CheckLock(r.0) && r.1.Finished?
    ensures env.depsOk && !CheckLock(w) && needExit ==> r.0.qr.None?
    ensures r.0.queued == w.queued && r.0.timers == w.timers
  {
    if !env.depsOk then (w, NoDeps)
    else if CheckLock(w) then (w, Busy)
    else
      var (w1, ok) := Attempt(SetLock(w), callback, env);
      if !ok then Fail(w1, needExit)
      else
        var w2 := ReleaseLock(w1).0;
        (if needExit then Clean(w2) else w2, Finished(w1.session))
  }

  /** `wxLogin` as written: the early return for an attempt already running
      sits inside the `try`, so its `finally` removes the running attempt's
      marker. */
  function WxLoginAsWritten(w: Wx, callback: bool, needExit: bool, env: LoginEnv): (r: (Wx, LoginResult))
    ensures env.depsOk ==> !CheckLock(r.0)
  {
    if env.depsOk && CheckLock(w) then (ReleaseLock(w).0, Busy)
    else WxLogin(w, callback, needExit, env)
  }

  /** The two definitions differ only when a marker is present. */
  lemma AsWrittenAgreesWhenUnlocked(w: Wx, callback: bool, needExit: bool, env: LoginEnv)
    requires !CheckLock(w) || !env.depsOk
    ensures WxLoginAsWritten(w, callback, needExit, env) == WxLogin(w, callback, needExit, env)
  {
  }

  /** The defect: while attempt A holds the marker, a second `wxLogin`
      answers "already running" but deletes A's marker, so the next
      `GetCode` starts another attempt next to A. */
  lemma BusyAttemptFreesLock(w: Wx, callback: bool, needExit: bool, env: LoginEnv, notice: bool)
    requires CheckLock(w) && env.depsOk
    ensures WxLoginAsWritten(w, callback, needExit, env).1 == Busy
    ensures GetCode(WxLoginAsWritten(w, callback, needExit, env).0, callback, notice).1 == Started
    ensures GetCode(w, callback, notice).1 == AlreadyRunning
  {
  }

  /** Repaired: a busy answer leaves the running attempt's marker, so
      `GetCode` keeps refusing. */
  lemma BusyAttemptKeepsLock(w: Wx, callback: bool, needExit: bool, env: LoginEnv, notice: bool)
    requires CheckLock(w) && env.depsOk
    ensures WxLogin(w, callback, needExit, env) == (w, Busy)
    ensures GetCode(WxLogin(w, callback, needExit, env).0, callback, notice).1 == AlreadyRunning
  {
  }

  /** A screenshot of at most 364 bytes fails the attempt: no session, not
      logged in, marker released. */
  lemma SmallQrFails(w: Wx, callback: bool, needExit: bool, env: LoginEnv)
    requires !CheckLock(w) && env.depsOk && env.browserOk && env.qrBytes <= 364
    ensures var r := WxLogin(w, callback, needExit, env);
      r.1 == Finished(None) && !r.0.hasLogin && !CheckLock(r.0) && r.0.hasCode && r.0.qr.None?
  {
  }

  /** A scanned code and a readable cookie list end the attempt with a
      session; the user is logged in exactly when the cookies carry an
      expiry, and the cookies are saved only then. */
  lemma ScannedLogsIn(w: Wx, callback: bool, needExit: bool, env: LoginEnv)
    requires !CheckLock(w) && env.depsOk && env.browserOk && env.qrBytes >= MinQrBytes && env.scanned
    requires env.success.cookies.Some?
    ensures var r := WxLogin(w, callback, needExit, env);
      && r.1.Finished? && r.1.session.Some?
      && r.0.hasLogin == env.success.expiry.Some?
      && r.0.saved == w.saved + (if env.success.expiry.Some? then [env.success.cookies.value] else [])
      && r.0.callback == callback
      && !CheckLock(r.0)
  {
  }

  /** When `Call_Success` raises after the scan, `HasLogin` stays true while
      the session is cleared. */
  lemma FailedSuccessKeepsLogin(w: Wx, callback: bool, needExit: bool, env: LoginEnv)
    requires !CheckLock(w) && env.depsOk && env.browserOk && env.qrBytes >= MinQrBytes && env.scanned
    requires env.success.cookies.None?
    ensures var r := WxLogin(w, callback, needExit, env);
      r.1 == Finished(None) && r.0.hasLogin && r.0.session.None? && !CheckLock(r.0)
  {
  }

  /** Running the first attempt `GetCode` queued (`NeedExit = True`): the
      thread runs `wxLogin` as written, so an attempt that finds another
      attempt's marker answers "already running" and deletes that marker. */
  function RunQueued(w: Wx, env: LoginEnv): (r: (Wx, LoginResult))
    requires |w.queued| > 0
    ensures r.0.queued == w.queued[1..]
    ensures env.depsOk ==> !CheckLock(r.0)
    ensures env.depsOk && CheckLock(w) ==> r.1 == Busy
    ensures env.depsOk && !CheckLock(w) ==> r.1.Finished? && !CheckLock(r.0) && r.0.qr.None?
    ensures env.depsOk && !CheckLock(w) && env.browserOk && env.qrBytes >= MinQrBytes && env.scanned ==>
      r.0.callback == w.queued[0]
    ensures !env.depsOk ==> r.1 == NoDeps
  {
    var w0 := w.(queued := w.queued[1..]);
    QueuedRunFacts(w0, w.queued[0], env);
    WxLoginAsWritten(w0, w.queued[0], true, env)
  }

  /** Without a marker the written `wxLogin` is the repaired one, and a
      scanned attempt keeps the callback it was given. */
  lemma QueuedRunFacts(w: Wx, callback: bool, env: LoginEnv)
    ensures env.depsOk && !CheckLock(w) ==>
      WxLoginAsWritten(w, callback, true, env) == WxLogin(w, callback, true, env)
    ensures env.depsOk && !CheckLock(w) && env.browserOk && env.qrBytes >= MinQrBytes && env.scanned ==>
      WxLogin(w, callback, true, env).0.callback == callback
  {
  }

  /** In a sequential run an attempt queued by `GetCode` never meets a
      marker, so the repaired and the written `wxLogin` behave alike. */
  lemma QueuedAttemptUnlocked(w: Wx, callback: bool, notice: bool, env: LoginEnv)
    requires GetCode(w, callback, notice).1 == Started
    ensures var w1 := GetCode(w, callback, notice).0;
      WxLoginAsWritten(w1, callback, true, env) == WxLogin(w1, callback, true, env)
  {
  }

  /** The browser's answers during one `refresh_task`: whether reloading
      works, the answers of `Call_Success`, and the URL afterwards. */
  datatype RefreshEnv = RefreshEnv(reloadOk: bool, success: SuccessEnv, url: string)

  datatype RefreshResult = Idle | Rescheduled | Failed

  /** `schedule_refresh`: nothing unless the interval is positive and the
      user is logged in; otherwise refresh, and start the next timer only
      when the refresh succeeded. A URL without "home" is an expired login. */
  function ScheduleRefresh(w: Wx, env: RefreshEnv): (r: (Wx, RefreshResult))
    ensures w.refreshInterval <= 0 || !w.hasLogin ==> r == (w, Idle)
    ensures r.1 == Rescheduled <==>
      w.refreshInterval > 0 && w.hasLogin && env.reloadOk && env.success.cookies.Some? && Contains(env.url, "home")
    ensures r.1 == Rescheduled ==> r.0.timers == w.timers + 1
    ensures r.1 != Rescheduled ==> r.0.timers == w.timers
    ensures r.0.lock == w.lock && r.0.queued == w.queued
  {
    if w.refreshInterval <= 0 || !w.hasLogin then (w, Idle)
    else if !env.reloadOk then (w, Failed)
    else
      var (w1, ok) := CallSuccess(w, env.success);
      if !ok || !Contains(env.url, "home") then (w1, Failed)
      else (w1.(timers := w1.timers + 1), Rescheduled)
  }

  /** A refresh whose cookies carry no expiry logs the user out, so the
      timer it still starts does nothing. */
  lemma ExpiredRefreshStops(w: Wx, env: RefreshEnv, next: RefreshEnv)
    requires w.refreshInterval > 0 && w.hasLogin && env.reloadOk
    requires env.success.cookies.Some? && env.success.expiry.None?
    ensures var (w1, res) := ScheduleRefresh(w, env);
      !w1.hasLogin && ScheduleRefresh(w1, next) == (w1, Idle)
  {
  }

  /** Timer firings one after another until one does not reschedule. */
  function RefreshChain(w: Wx, envs: seq<RefreshEnv>): (r: (Wx, nat))
    ensures r.1 <= |envs|
    decreases |envs|
  {
    if |envs| == 0 then (w, 0)
    else
      var (w1, res) := ScheduleRefresh(w, envs[0]);
      if res == Rescheduled then
        var (w2, n) := RefreshChain(w1, envs[1..]);
        (w2, n + 1)
      else (w1, 0)
  }

  /** `RefreshChain` is the self-arming timer of `Chains` whose step is
      `schedule_refresh` and which goes on when it reschedules. */
  lemma {:induction false} RefreshChainIsChain(w: Wx, envs: seq<RefreshEnv>)
    ensures RefreshChain(w, envs) == Chains.Chain(ScheduleRefresh, Rescheduled, w, envs)
    decreases |envs|
  {
    if |envs| > 0 {
      RefreshChainIsChain(ScheduleRefresh(w, envs[0]).0, envs[1..]);
    }
  }

  /** The chain counts the leading firings that reschedule: each of the
      first `n`, run on the state the previous ones left, starts the next
      timer. */
  lemma RefreshChainPrefix(w: Wx, envs: seq<RefreshEnv>)
    ensures forall k :: 0 <= k < RefreshChain(w, envs).1 ==>
      ScheduleRefresh(Chains.Fired(ScheduleRefresh, w, envs, k), envs[k]).1 == Rescheduled
  {
    RefreshChainIsChain(w, envs);
    Chains.ChainPrefix(ScheduleRefresh, Rescheduled, w, envs);
  }

  /** The firing after the rescheduling ones, if any, does not
      reschedule. */
  lemma RefreshChainEnd(w: Wx, envs: seq<RefreshEnv>)
    ensures RefreshChain(w, envs).1 < |envs| ==>
      ScheduleRefresh(Chains.Fired(ScheduleRefresh, w, envs, RefreshChain(w, envs).1), envs[RefreshChain(w, envs).1]).1
        != Rescheduled
  {
    RefreshChainIsChain(w, envs);
    Chains.ChainStop(ScheduleRefresh, Rescheduled, w, envs);
  }

  /** The chain ends in the state its last firing leaves: the one that
      did not reschedule, or the last of the list when every firing
      rescheduled. */
  lemma RefreshChainFinal(w: Wx, envs: seq<RefreshEnv>)
    ensures RefreshChain(w, envs).0 ==
      Chains.Fired(ScheduleRefresh, w, envs, if RefreshChain(w, envs).1 < |envs| then RefreshChain(w, envs).1 + 1 else |envs|)
  {
    RefreshChainIsChain(w, envs);
    Chains.ChainFinal(ScheduleRefresh, Rescheduled, w, envs);
  }

  /** Each successful firing starts exactly one timer, and the chain never
      touches the lock marker. */
  lemma {:induction false} RefreshChainTimers(w: Wx, envs: seq<RefreshEnv>)
    ensures RefreshChain(w, envs).0.timers == w.timers + RefreshChain(w, envs).1
    ensures RefreshChain(w, envs).0.lock == w.lock
    decreases |envs|
  {
    if |envs| > 0 {
      var (w1, res) := ScheduleRefresh(w, envs[0]);
      if res == Rescheduled {
        RefreshChainTimers(w1, envs[1..]);
      }
    }
  }
}
