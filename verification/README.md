# we-mp-rss driver core in Dafny

This project models the deterministic core of the `driver/` package of
we-mp-rss. That package fetches WeChat official-account articles with a
browser and keeps a WeChat login session alive. The browser, the
filesystem, the clock, threads and timers are all replaced by values.
Each lookup the code makes becomes an input, and a lookup that raises is a
`None` or an error constructor.

Modules:

- `Text`, `Scan`, `Codec` and `Options` are the Python building blocks
  the core uses:
  - `str.strip`, `str.split`, `str.lower` and `in`;
  - `re.search` for a literal prefix followed by a greedy
    character-class group;
  - base64 and UTF-8 decoding, as partial functions passed in;
  - `Option`.
- `ArticleId` covers `extract_id_from_url`: the `/s/<segment>` id,
  padding and decoding with its fallback.
- `PublishTime` covers `convert_publish_time_to_timestamp`: the six
  `strptime` formats in order, the month-day rule that rolls back a year,
  and the fallback to `now`.
- `PageCheck` covers the seven phrases `get_article_content` checks
  before reading any field, and their precedence.
- `Biz` covers `extract_biz_from_source` and the `MP_WXS_` account id.
- `Images` covers image selection (`data-src` over `src`) and `pic_url`.
- `Fetch` covers `get_article_content` as a whole, over the answers of
  its page lookups.
- `Batch` covers the `FixArticle` loop: skipping, per-item failure,
  counting and pacing.
- `Cookies` covers `format_token` and the token search order of
  `extract_token_from_requests`.
- `Chains` is a self-arming timer over any step: the states after each
  firing, and how far a chain of firings goes.
- `Login` covers the lock marker, `GetCode`, `wxLogin`, `Call_Success`
  and `schedule_refresh`/`refresh_task`, as sequential transitions of one
  state record.
- `Controller` covers the `PlaywrightController` logic:
  `parse_string_to_dict`, browser dispatch, headless mode, the
  start/cleanup lifecycle and the cookie guards.
- `Credentials` covers `driver/token.py`: the store load, `set_token` and
  `get`.

Where the code and its docstrings disagree, the model follows the code:

- The `wxLogin` docstring promises a refresh thread after login, but
  `wxLogin` never calls `schedule_refresh`. The model therefore starts no
  timer there (`Login.WxLogin` keeps `timers`).
- The login lock is said to be released on every exit of an attempt.
  The code's `finally` also releases it on the "already running" exit,
  which removes the lock of the attempt that is actually running (see
  Findings).

## Model

| member | source | states |
|---|---|---|
| Text.Strip | driver/playwright_driver.py:34-38 | `str.strip()`: the result is no longer than the input, neither starts nor ends with whitespace, and is empty exactly when the input is all whitespace |
| Text.StripShape | driver/playwright_driver.py:34-38 | `str.strip()` removes only whitespace: the input is the result between a whitespace-only prefix and a whitespace-only suffix |
| Text.StripCount | driver/playwright_driver.py:36-37 | stripping never changes how many times a non-whitespace character (such as `=`) occurs, so a stripped item splits like the raw one |
| Text.Split | driver/playwright_driver.py:34-37 | `str.split(sep)`: the parts contain no separator, there is one more part than separators, and joining them with the separator gives back the input |
| Text.DecimalLength | driver/wxarticle.py:53-54 | `str(year)` has exactly four digits for the years 1000-9999, so only then can the `%Y` directive accept the prefixed year |
| Scan.Find | driver/wxarticle.py:124-126 | `re.search` for a literal prefix followed by a greedy group: `None` exactly when no position matches; otherwise the group captured at the leftmost match |
| Scan.FoundAt | driver/wxarticle.py:85-87 | a capture whose prefix is at `i`, with no earlier match and the run not continued, is what `re.search` returns |
| ArticleId.Pad | driver/wxarticle.py:131-133 | padding appends 0-3 `=` so that the length is a multiple of 4, and keeps the segment as a prefix |
| ArticleId.ExtractId | driver/wxarticle.py:113-145 | "" when the URL has no `/s/[A-Za-z0-9_-]+` segment; otherwise the decoded padded segment, or the padded segment when a decode fails |
| ArticleId.SegmentFound | driver/wxarticle.py:124-128 | the first `/s/` segment of a URL, when it ends at a non-id character, is the one extracted |
| ArticleId.IdDecoded | driver/wxarticle.py:136-138 | when both decoders succeed on the padded segment, the id is the decoded text |
| ArticleId.IdFallback | driver/wxarticle.py:139-141 | when a decoder fails, the id is the padded segment, not the raw one |
| PublishTime.Parse | driver/wxarticle.py:54-60 | `strptime` with one format: whatever it returns is a date-time the `datetime` constructor accepts (no 30 February, no second 60) |
| PublishTime.FirstParse | driver/wxarticle.py:47-63 | the formats are tried in order: the result is the first that parses, and `None` only when none does |
| PublishTime.MonthDay | driver/wxarticle.py:49-58 | the month-day branch never yields a date after `now`; the year is `now`'s or the one before, the one before exactly when the date in `now`'s year lies after `now`; before year 1000 the branch always fails |
| PublishTime.Convert | driver/wxarticle.py:27-71 | the result is always a valid date-time: a parsed one, or `now` when no format applies |
| PublishTime.FullRoundTrip | driver/wxarticle.py:38-61 | the zero-padded `%Y-%m-%d %H:%M:%S` rendering of any valid date-time converts back to exactly that date-time, whatever `now` is |
| PublishTime.ReadsBack | driver/wxarticle.py:38-60 | a format that names every field parses its own rendering of a valid date-time back to that date-time |
| PublishTime.FirstFormatWins | driver/wxarticle.py:39-61 | when the first format parses the input, the conversion returns that parse |
| PublishTime.FullExample | driver/wxarticle.py:39 | "2024-01-01 12:30:45" converts to that date and time |
| PublishTime.YearNeedsFour | driver/wxarticle.py:39-60 | a format starting with `%Y` fails on a string whose leading digit run is not four long |
| PublishTime.MonthDayInput | driver/wxarticle.py:44-67 | a rendered month-day string converts to that date at midnight in `now`'s year, to the year before when that date lies after `now`, and to `now` when the date does not exist in the year before |
| PublishTime.NoYearNoFormat | driver/wxarticle.py:39-61 | none of the five year-bearing formats reads a string whose leading digit run is not four long, so such a string reaches the month-day branch |
| PublishTime.PrefixedMonthDay | driver/wxarticle.py:53-58 | the year-prefixed month-day string parses under the `%Y年%m月%d日` format to that date at midnight |
| PublishTime.MonthDayExample | driver/wxarticle.py:44-58 | "03月24日" read on 23 March 2026 is still ahead, so it becomes 24 March 2025 |
| PublishTime.MonthDayToday | driver/wxarticle.py:56-58 | today's month and day stay in the current year, because midnight is not after `now` |
| PublishTime.LeapDayFallsThrough | driver/wxarticle.py:57-63 | rolling 02-29 back into a non-leap year raises, is caught, and the conversion falls back to `now` |
| PageCheck.Classify | driver/wxarticle.py:264-287 | `None` exactly when no phrase occurs in the body; otherwise a block whose phrase occurs, with no earlier-checked phrase occurring |
| PageCheck.ClassifyExactly | driver/wxarticle.py:264-287 | a body is classified as block `b` iff `b`'s phrase occurs and no phrase checked before it occurs |
| PageCheck.VerificationFirst | driver/wxarticle.py:264-269 | a body with the verification phrase is a verification challenge, whatever else it holds |
| PageCheck.MessageCollision | driver/wxarticle.py:269-287 | two blocks raise the same message exactly when they are the same, or they are the Chinese and English violation checks |
| Images.Pick | driver/wxarticle.py:334-338 | an image contributes its `data-src` when that is truthy, else its `src` when truthy, else nothing |
| Images.CollectImages | driver/wxarticle.py:334-338 | the selected URLs come from the images that have a truthy attribute, in DOM order, one per image, and equal `ImageUrls` |
| Images.SelectionUnique | driver/wxarticle.py:334-338 | any list holding, in DOM order, the pick of every image that has a truthy attribute and nothing else equals `ImageUrls`: the selection rule determines the list |
| Images.PicUrlFirst | driver/wxarticle.py:342-343 | `pic_url` is the pick of the first image that has one |
| Images.NoPicks | driver/wxarticle.py:339-343 | when no image has a truthy attribute, the list is empty and `pic_url` is never set |
| Biz.ExtractBiz | driver/wxarticle.py:74-112 | a `[?&]__biz=` URL parameter wins; otherwise `var biz = "..."` in the page source; otherwise `window.__biz=`; otherwise "" |
| Biz.MpId | driver/wxarticle.py:370 | the account id is `MP_WXS_` followed by the decoded biz, and is absent exactly when decoding fails |
| Biz.UrlParamWins | driver/wxarticle.py:85-87 | a biz parameter in the URL is returned whatever the page source holds |
| Biz.VarBizFound | driver/wxarticle.py:99-101 | without a URL parameter, the first `var biz = "..."` value of the source is returned |
| Fetch.Body | driver/wxarticle.py:321-341 | content is `#js_content` ("" when it raises) when `#js_article` cannot be read, the raw `#js_article` HTML when cleaning raises, and the cleaned HTML otherwise; images are the selection of the article's `<img>` elements only when cleaning and the image lookup both succeed, and `[]` on every other path |
| Fetch.FetchArticle | driver/wxarticle.py:218-375 | a failed page load or any blocking phrase raises before fields are read; otherwise the id is `ExtractId` of the URL, the title is `Fetch.Title` (`document.title`, else og:title, else ""), the author is the stripped text or "", the publish time is the conversion of the stripped text or absent, content and images are `Fetch.Body`, `pic_url` is the first image, and `mp_info`/`mp_id` are set from the profile bar and the decoded biz only when the profile lookup succeeds |
| Fetch.BlockedIgnoresFields | driver/wxarticle.py:264-287 | on a blocked page the outcome depends on the body alone |
| Fetch.FetchedImages | driver/wxarticle.py:329-343 | with a cleaned article, the images are the selection of its `<img>` elements and `pic_url` is the first of them |
| Batch.Record | driver/wxarticle.py:175-183 | the stored article uses the caller's `mp_id` unless it is `None`, and carries the fetched id and content and the item's URL |
| Batch.StepAt | driver/wxarticle.py:166-208 | an empty URL is skipped; an item is stored iff its fetch succeeds and the update does not raise, and a stored item carries the record built from the fetched data and exactly the boolean `UpdateArticle` returned for it |
| Batch.UpdatedPositive | driver/wxarticle.py:191-211 | the success count is positive iff some item's update returned true |
| Batch.PausesExactly | driver/wxarticle.py:202-204 | a pause follows position `p` iff that item completed and `p` is not the last position; pauses are increasing |
| Batch.StoredArticles | driver/wxarticle.py:167-178 | every article handed to the store has a non-empty URL and the caller's `mp_id` when one was given |
| Batch.RunMeaning | driver/wxarticle.py:166-211 | the batch reports success iff some update returned true, pauses exactly after completed non-final items, and stores only proper articles |
| Batch.FixArticle | driver/wxarticle.py:146-217 | the loop's count, pauses and stored articles are those of the position-by-position definition |
| Cookies.CookieString | driver/wx.py:249-251 | the cookie header is empty exactly when there are no cookies |
| Cookies.CookieStringAppend | driver/wx.py:249-251 | the header of a concatenation is the concatenation of the headers: `name=value; ` per cookie, in order |
| Cookies.LastTokenIsLast | driver/wx.py:252-253 | the token is the value of the last cookie whose lower-cased name contains "token", or the token passed in when there is none |
| Cookies.FormatToken | driver/wx.py:247-262 | the loop builds exactly that header and that last token, and keeps the cookie list and expiry |
| Cookies.FirstToken | driver/wx.py:70-74 | the cookie search returns the first token cookie's value, and `None` iff no cookie name contains "token" |
| Cookies.SingleTokenAgrees | driver/wx.py:70-74 | with exactly one token cookie, the first-token search and the last-token rule agree |
| Cookies.ExtractToken | driver/wx.py:50-79 | a URL `token=` parameter wins; without one, a truthy localStorage value is returned, else a truthy sessionStorage value, else the first cookie whose name contains "token"; a storage read or the cookie read that raises gives `None` |
| Cookies.UrlTokenHides | driver/wx.py:56-58 | with a URL token, the storages and cookies have no effect |
| Login.Init | driver/wx.py:27-34 | a new object starts unlocked, logged out, without a QR file or session, with the refresh interval 87840 |
| Login.SetLock | driver/wx.py:348-352 | after `set_lock`, `check_lock` (`Login.CheckLock`, the marker's existence) is true |
| Login.ReleaseLock | driver/wx.py:354-361 | after `release_lock`, `check_lock` (`Login.CheckLock`) is false; the result is true iff the marker existed, and nothing changes otherwise |
| Login.LockRoundTrip | driver/wx.py:343-361 | set then release removes the marker and reports it; a second release reports nothing |
| Login.Clean | driver/wx.py:322-328 | `Clean` removes the QR file and changes nothing else |
| Login.GetCode | driver/wx.py:81-95 | `Notice` is recorded in both cases; with the marker present the answer is "already running" and nothing else changes; otherwise the QR file is cleared and one attempt is queued, and nothing else changes |
| Login.CallSuccess | driver/wx.py:263-310 | `HasLogin` is true iff the expiry is not `None`; cookies are saved only then; the callback receives the session once when set; a raising cookie read records nothing |
| Login.CallSuccessSession | driver/wx.py:247-310 | the recorded session is the `format_token` result for the cookie list and the extracted token |
| Login.Fail | driver/wx.py:233-245 | a raised attempt drops the session, deletes the QR file and releases the marker (`isLOCK` cleared only when a marker was removed), finishes with `None`, and leaves `HasLogin`, the queue, the timers and the saved and delivered data as they were |
| Login.Attempt | driver/wx.py:177-231 | the attempt body keeps the marker it set, and never queues or starts timers |
| Login.WxLogin | driver/wx.py:160-246 | without dependencies nothing happens; a present marker gives "already running" and is left alone; otherwise the attempt ends unlocked, and with `NeedExit` without a QR file |
| Login.WxLoginAsWritten | driver/wx.py:174-240 | as written, every attempt that passes the dependency check ends with no marker, including the "already running" exit |
| Login.AsWrittenAgreesWhenUnlocked | driver/wx.py:174-177 | the written and repaired `wxLogin` agree whenever no marker is present |
| Login.BusyAttemptFreesLock | driver/wx.py:174-240 | as written, a busy `wxLogin` deletes the running attempt's marker, so the next `GetCode` starts a second attempt |
| Login.BusyAttemptKeepsLock | driver/wx.py:174-176 | repaired, a busy `wxLogin` leaves the marker, so `GetCode` keeps refusing |
| Login.SmallQrFails | driver/wx.py:211-240 | a QR screenshot of at most 364 bytes ends the attempt with no session, logged out, unlocked |
| Login.ScannedLogsIn | driver/wx.py:218-226 | after the home page is reached and cookies are read, the user is logged in iff the expiry is not `None`, and cookies are saved only then |
| Login.FailedSuccessKeepsLogin | driver/wx.py:221-238 | when `Call_Success` raises, `HasLogin` stays true while the session is cleared |
| Login.RunQueued | driver/wx.py:92-93 | running a queued attempt consumes exactly the head of the queue and runs `wxLogin` as written with it and `NeedExit` set: a missing dependency gives the no-dependency outcome; with dependencies met the marker is gone afterwards, a marker already present gives the "already running" answer (deleting that marker, the defect under Findings), a free lock finishes with no QR code kept, and a successful scan hands the queued callback over |
| Login.QueuedAttemptUnlocked | driver/wx.py:83-93 | an attempt queued by `GetCode` starts with no marker, so the written and repaired `wxLogin` agree on it |
| Login.ScheduleRefresh | driver/wx.py:103-125 | nothing happens when the interval is not positive or the user is logged out; a new timer starts exactly when the reload works, `Call_Success` reads the cookies and the URL afterwards contains "home"; otherwise nothing is rescheduled |
| Login.ExpiredRefreshStops | driver/wx.py:114-125 | a refresh whose cookies carry no expiry logs the user out, so the next firing does nothing |
| Login.RefreshChain | driver/wx.py:114-125 | the number of successful firings is at most the number of firings |
| Login.RefreshChainPrefix | driver/wx.py:114-125 | the chain's count `n` covers only firings that reschedule: each of the first `n` firings, run on the state the previous ones left, starts the next timer |
| Login.RefreshChainEnd | driver/wx.py:114-125 | the chain stops at the first firing that does not reschedule: the firing right after the counted ones, if there is one, starts no timer |
| Login.RefreshChainFinal | driver/wx.py:114-125 | the chain's final state is the state its last firing leaves: the non-rescheduling one, or the last of the list when every firing rescheduled |
| Login.RefreshChainTimers | driver/wx.py:114-125 | each successful firing starts exactly one timer, and the chain never touches the lock marker |
| Controller.Item | driver/playwright_driver.py:36-40 | an item is kept iff its stripped text contains exactly one `=`, and then the pair is the stripped text before that `=` and the stripped text after it |
| Controller.ParseKv | driver/playwright_driver.py:32-41 | the keys of the result are exactly the keys of the kept items of `strip().split(';')`, and each key maps to the value of an item with that key after which no kept item has the same key |
| Controller.ParseKvValues | driver/playwright_driver.py:32-41 | a key maps to a value iff some kept item carries that pair and no later kept item has the same key: the last occurrence wins |
| Controller.ItemDrops | driver/playwright_driver.py:36-40 | empty items and items whose value contains `=` are dropped |
| Controller.EntriesExactly | driver/playwright_driver.py:35-41 | a key maps to a value iff some kept item has that key and value and no later kept item has that key (later duplicates overwrite) |
| Controller.EntriesKeys | driver/playwright_driver.py:35-41 | a key is in the dictionary iff some kept item carries it |
| Text.Lower | driver/playwright_driver.py:82-84 | `str.lower()` keeps the length and lowers each character, exact for the characters that can lower to an ASCII letter |
| Text.Contains | driver/wxarticle.py:264-286 | `p in s` holds exactly when `p` occurs in `s` at some position |
| Controller.SelectEngine | driver/playwright_driver.py:82-87 | firefox exactly when the lower-cased name is "firefox", webkit exactly when it is "webkit", chromium for every other name |
| Controller.SelectEngineIgnoresCase | driver/playwright_driver.py:82-87 | browser dispatch depends only on the lower-cased name |
| Controller.SelectEngineExamples | driver/playwright_driver.py:82-87 | "FireFox" gives firefox, "WEBKIT" gives webkit, and any other name gives chromium |
| Controller.EffectiveHeadless | driver/playwright_driver.py:76-77 | the browser is headless iff headless was requested and `NOT_HEADLESS` is unset or empty; "0" forces a window |
| Controller.Cleanup | driver/playwright_driver.py:119-132 | cleanup sets `isClose` and closes every assigned handle; it never unassigns a handle and never stops the driver |
| Controller.Start | driver/playwright_driver.py:74-105 | a successful start leaves every handle live, `isClose` false and the chosen engine set; a failing step runs cleanup, so `isClose` is true |
| Controller.StartThenClose | driver/playwright_driver.py:100-132 | start then close toggles `isClose`, closes the handles and leaves the driver running |
| Controller.AddCookie | driver/playwright_driver.py:49-52 | adding raises iff the context is not live or the browser refuses the cookie, with "not started" iff no context was ever assigned and a refusal iff the context is live; a raise leaves the controller unchanged, otherwise the cookie is appended |
| Controller.AddCookies | driver/playwright_driver.py:43-47 | with no context the guard raises; with a live context it succeeds iff the browser accepts every cookie, adding all of them in order, and otherwise raises at the first refused cookie with exactly the cookies before it added; on a closed context an empty list makes no call and succeeds unchanged, and a non-empty one raises |
| Controller.CookiesAfterCleanup | driver/playwright_driver.py:119-132 | after cleanup the context stays assigned, so the "not started" guard no longer fires and the closed context raises instead |
| Credentials.Load | driver/token.py:5-10 | an absent store file starts as the empty map; otherwise its contents are used |
| Credentials.SetToken | driver/token.py:12-33 | a missing or empty token changes nothing and returns normally; otherwise `token`, `cookie` and `expiry` are written with their defaults, `ext_data` only when given, no other key changes, and the call then raises unless `data["expiry"]` is a dictionary holding `expiry_time` |
| Credentials.DefaultExpiryRaises | driver/token.py:20-33 | without an `expiry` in the data the `{}` default is saved and the call then raises |
| Credentials.SetTokenCompletes | driver/token.py:12-33 | the call returns normally iff the guard returned early or the saved expiry holds `expiry_time` |
| Credentials.SetTokenIdempotent | driver/token.py:12-24 | writing the same data twice is the same as writing it once |
| Credentials.Get | driver/token.py:35-36 | `get` returns the default for an absent key and the stored string for a present one |
| Credentials.GetAfterSetToken | driver/token.py:18-36 | after `set_token`, `get` returns the written token and the cookie header (or ""), and the previous `ext_data` when none was passed |
| Credentials.NullTokenStored | driver/token.py:18-36 | a `None` token passes the guard and reads back as the string "None" |

## Left out

- Browser automation:
  - The Playwright calls (locators, screenshots, `wait_for_url`,
    `evaluate`, `page.content()`) are not modelled. Their answers are
    inputs (`Fetch.Page`, `Cookies.TokenSources`, `Login.LoginEnv`,
    `Login.RefreshEnv`), and `None` or `Throws` stands for a lookup that
    raised.
  - Starting the browser is one step that may fail (`Controller.Start`).
- Threads, timers and `time.sleep` are not modelled as concurrency.
  - `GetCode` queues an attempt that `Login.RunQueued` runs later.
  - A started `Timer` is a counter.
  - A sleep is a recorded pause position (`Batch.Report.pauses`).
  - `_login_lock` is not modelled, because a sequential model has no
    interleaving.
- Filesystem: the lock marker is a bool, the QR image is its byte size,
  and `wx.lic` is a map. The race between the lock check and the marker
  being created is not modelled.
- Timestamps and time zones: `convert_publish_time_to_timestamp` returns
  the parsed date-time, not an epoch value. `now` is a parameter and the
  `timestamp()` conversion, which depends on the local time zone, is left
  out.
- Calls into code that is not part of this model are parameters or are
  left out:
  - `clean_article_content` (`tools.html.clean_html`) is the `clean`
    parameter of `Fetch.Tools`.
  - `export_to_pdf` is left out.
  - `cookies.expire` is the `expiry` input.
  - `Store.save` is recorded in `Login.Wx.saved`.
  - `UpdateArticle` is the `update` parameter of `Batch.Env`.
  - `setStatus`, `sys_notice` and `Success` are left out.
  - The base64 and UTF-8 decoders are partial functions passed in as
    `Codec.Decoders`.
- Call_Success's account scraping is left out. It calls
  `driver.find_element` on the Playwright object, which has no such
  method, so the `AttributeError` is raised before `By` is evaluated,
  is caught there, and `ext_data` stays `None`. The model records that
  outcome only.
- The object `Call_Success` and `refresh_task` call `get_cookies()` and
  `refresh()` on is the Playwright object, which does not have those
  methods in the source as written. Their outcomes are inputs here:
  `SuccessEnv.cookies`, and `RefreshEnv.reloadOk`.
- `Wx.isLock` and `QRcode` are left out. `isLock` tests the method object
  itself, so it is always truthy. `QRcode` only returns a path.
- `Wx.Token`, `GetHasCode`, `expire_all_cookies`, `Close` and `DoSuccess`
  are thin wrappers over browser or file calls and are not part of this
  model.
- The module-level `GetCode` at `driver/wx.py:368-369` passes `NeedExit`
  to a method that does not accept it. That `TypeError` path is not
  modelled.
- The `except NameError` branch of `wxLogin` is not modelled. Nothing
  in the attempt raises a `NameError`: the unimported `By` is never
  evaluated.
- Callbacks are assumed to return normally. A `Notice` callback that
  raises (`driver/wx.py:216`), a failing `Store.save` (`driver/wx.py:302`)
  or a raising `CallBack` (`driver/wx.py:308`) would end the attempt
  through `wxLogin`'s generic handler. Those paths are not modelled.
- `expire` raising inside `format_token` (`driver/wx.py:255`) leaves the
  attempt exactly as a raising `get_cookies()` does, since both happen
  before the session is assigned. `SuccessEnv.cookies` being `None`
  stands for both.
- The import of `UpdateArticle` failing (`driver/wxarticle.py:157`)
  makes `FixArticle` return `False` before any item
  (`driver/wxarticle.py:213-215`). The model assumes the import succeeds.
- The `urls is []` check at `driver/wxarticle.py:160` is left out. It is
  never true, so it has no behaviour to model.
- `Fetch.FetchArticle`: context release is not asserted. The `Close()` at
  the end of `get_article_content` is skipped when a blocked page raises.
- Fetch.FetchArticle depends on the URL and the page only. Nothing about
  the order of URLs within a batch changes its outcome. A fetch that
  depends on earlier items (cookies kept between items) is not modelled.
- A raising `document.body.innerText` read (`driver/wxarticle.py:261`)
  has no input of its own. It is folded into `Fetch.FetchArticle`'s
  absent page, because the handler re-raises and the outcome is the same
  `BrowserFailed`.
- `string_to_json`, `dict_to_json`, `randomize_browser_features` and
  `open_url` are left out. They are wrappers, or they draw a random user
  agent.
- `cleanup` failures are left out. The source swallows every exception
  in `cleanup`, and the model treats each close as succeeding.
- PublishTime.Parse: only ASCII digits are accepted by the numeric
  directives. CPython's `strptime` also accepts other Unicode decimal
  digits, and that is not modelled.
- Credentials.Load: the `Config` class is not part of this model. The
  store is a plain string-keyed map. A dictionary value is carried as
  its keys and its `str()` rendering, and other non-string values as
  their `str()` rendering only.
- Text.Lower is exact only for the ASCII letters and the Kelvin sign.
  Other characters are mapped to themselves. The comparisons still come
  out as in Python:
  - Any other character lowers either to characters that are not ASCII
    letters, or, for U+0130, to `i` followed by U+0307.
  - That trailing U+0307 occurs in none of "token", "firefox" and
    "webkit". So a name holding U+0130 matches neither browser name,
    and no "token" can run across it, as in the model.

## Findings

| source | as written | input that shows it | evidently intended | confidence | as-written member | corrected member |
|---|---|---|---|---|---|---|
| driver/wx.py:174-240 | the "already running" `return` sits inside the `try` whose `finally` calls `release_lock()`, so the busy call deletes the marker of the attempt that holds it | a marker is present (attempt A is running) and a second `wxLogin` with its dependencies satisfied is made: it returns the busy message with the marker gone, and the next `GetCode` starts attempt B next to A | a busy call leaves the other attempt's marker in place | not executed | Login.WxLoginAsWritten | Login.WxLogin |
