/** The deterministic parts of `PlaywrightController`: the `k=v; k=v`
    cookie-string parser, the choice of browser engine and headless mode,
    and the start / cleanup lifecycle with its cookie guards. The browser
    itself is reduced to which handles are set. */
module Controller {
  import opened Options
  import opened Text
  import Cookies

  /** One `;`-separated item of `parse_string_to_dict`: kept only when the
      stripped item splits on `=` into exactly two parts. */
  function Item(item: string): (e: Option<(string, string)>)
    ensures e.Some? <==> multiset(Strip(item))['='] == 1
    ensures e.Some? ==> var t := Strip(item);
      exists i :: 0 <= i < |t| && t[i] == '=' && e.value == (Strip(t[..i]), Strip(t[i + 1..]))
  {
    var t := Strip(item);
    var parts := Split(t, '=');
    if |parts| == 2 then
      assert Join(parts[1..], '=') == parts[1];
      assert t == parts[0] + ['='] + parts[1];
      var i := |parts[0]|;
      assert t[..i] == parts[0] && t[i + 1..] == parts[1];
      Some((Strip(parts[0]), Strip(parts[1])))
    else None
  }

  /** An empty item and an item whose value holds another `=` are dropped. */
  lemma ItemDrops(key: string, value: string)
    ensures Item("").None?
    ensures '=' in value ==> Item(key + "=" + value).None?
  {
    StripCount("", '=');
    var item := key + "=" + value;
    if '=' in value {
      StripCount(item, '=');
      assert multiset(item) == multiset(key) + multiset("=") + multiset(value);
      assert multiset(value)['='] >= 1;
    }
  }

  /** The item results of a list of items. */
  function Kept(items: seq<string>): (es: seq<Option<(string, string)>>)
    ensures |es| == |items| && forall j :: 0 <= j < |items| ==> es[j] == Item(items[j])
  {
    seq(|items|, j requires 0 <= j < |items| => Item(items[j]))
  }

  /** The dictionary built from the kept items, later items overwriting
      earlier ones with the same key. */
  function Entries(es: seq<Option<(string, string)>>): map<string, string>
  {
    if |es| == 0 then map[]
    else
      var m := Entries(es[..|es| - 1]);
      match es[|es| - 1]
      case None => m
      case Some(kv) => m[kv.0 := kv.1]
  }

  /** The `;`-separated items of the stripped input. */
  function Items(s: string): seq<string> {
    Split(Strip(s), ';')
  }

  /** `parse_string_to_dict`: the keys are those of the kept items, each
      mapped to the value of the last item kept with it. */
  function ParseKv(s: string): (r: map<string, string>)
    ensures forall key :: key in r <==>
      exists j :: 0 <= j < |Items(s)| && Item(Items(s)[j]).Some? && Item(Items(s)[j]).value.0 == key
    ensures forall key :: key in r ==>
      exists j :: 0 <= j < |Items(s)| && Item(Items(s)[j]) == Some((key, r[key])) && LastItem(Items(s), j, key)
  {
    KeptMap(Items(s));
    Entries(Kept(Items(s)))
  }

  lemma KeptMap(items: seq<string>)
    ensures forall key :: key in Entries(Kept(items)) <==>
      exists j :: 0 <= j < |items| && Item(items[j]).Some? && Item(items[j]).value.0 == key
    ensures forall key :: key in Entries(Kept(items)) ==>
      exists j :: 0 <= j < |items| && Item(items[j]) == Some((key, Entries(Kept(items))[key])) && LastItem(items, j, key)
  {
    forall key
      ensures key in Entries(Kept(items)) <==>
        exists j :: 0 <= j < |items| && Item(items[j]).Some? && Item(items[j]).value.0 == key
    {
      EntriesKeys(Kept(items), key);
    }
    forall key | key in Entries(Kept(items))
      ensures exists j :: 0 <= j < |items| && Item(items[j]) == Some((key, Entries(Kept(items))[key])) && LastItem(items, j, key)
    {
      KeptValues(items, key, Entries(Kept(items))[key]);
    }
  }

  /** A later duplicate overwrites: `key` maps to `value` exactly when some
      item is kept as that pair and no later item is kept with that key. */
  lemma ParseKvValues(s: string, key: string, value: string)
    ensures key in ParseKv(s) && ParseKv(s)[key] == value <==>
      exists j :: 0 <= j < |Items(s)| && Item(Items(s)[j]) == Some((key, value)) && LastItem(Items(s), j, key)
  {
    KeptValues(Items(s), key, value);
  }

  /** On the raw items: no item after position `j` parses to a pair with
      key `key`. */
  predicate LastItem(items: seq<string>, j: nat, key: string) {
    forall l :: j < l < |items| ==> Item(items[l]).None? || Item(items[l]).value.0 != key
  }

  lemma KeptValues(items: seq<string>, key: string, value: string)
    ensures key in Entries(Kept(items)) && Entries(Kept(items))[key] == value <==>
      exists j :: 0 <= j < |items| && Item(items[j]) == Some((key, value)) && LastItem(items, j, key)
  {
    var es := Kept(items);
    EntriesExactly(es, key, value);
    if exists j :: 0 <= j < |es| && es[j] == Some((key, value)) && LastWith(es, j, key) {
      var j :| 0 <= j < |es| && es[j] == Some((key, value)) && LastWith(es, j, key);
      assert LastItem(items, j, key);
    }
    if exists j :: 0 <= j < |items| && Item(items[j]) == Some((key, value)) && LastItem(items, j, key) {
      var j :| 0 <= j < |items| && Item(items[j]) == Some((key, value)) && LastItem(items, j, key);
      assert LastWith(es, j, key);
    }
  }

  /** The same condition on the parsed entries (`None` for a dropped
      item), as `Entries` sees them; `KeptValues` moves between the two. */
  predicate LastWith(es: seq<Option<(string, string)>>, j: nat, key: string) {
    forall l :: j < l < |es| ==> es[l].None? || es[l].value.0 != key
  }

  /** `key` maps to `value` exactly when some kept item has that key and
      value and no later kept item has the same key. */
  lemma {:induction false} EntriesExactly(es: seq<Option<(string, string)>>, key: string, value: string)
    ensures key in Entries(es) && Entries(es)[key] == value <==>
      exists j :: 0 <= j < |es| && es[j] == Some((key, value)) && LastWith(es, j, key)
    decreases |es|
  {
    if |es| > 0 {
      var n := |es| - 1;
      var init := es[..n];
      EntriesExactly(init, key, value);
      if es[n].Some? && es[n].value.0 == key {
        if es[n].value.1 == value {
          assert LastWith(es, n, key);
        } else {
          forall j | 0 <= j < |es| && es[j] == Some((key, value))
            ensures !LastWith(es, j, key)
          {
            assert j < n;
          }
        }
      } else {
        if exists j :: 0 <= j < |es| && es[j] == Some((key, value)) && LastWith(es, j, key) {
          var j :| 0 <= j < |es| && es[j] == Some((key, value)) && LastWith(es, j, key);
          assert j < n;
          assert init[j] == es[j];
          assert LastWith(init, j, key);
        }
        if exists j :: 0 <= j < n && init[j] == Some((key, value)) && LastWith(init, j, key) {
          var j :| 0 <= j < n && init[j] == Some((key, value)) && LastWith(init, j, key);
          assert es[j] == init[j];
          assert LastWith(es, j, key);
        }
      }
    }
  }

  /** A key is present exactly when some kept item carries it. */
  lemma {:induction false} EntriesKeys(es: seq<Option<(string, string)>>, key: string)
    ensures key in Entries(es) <==> exists j :: 0 <= j < |es| && es[j].Some? && es[j].value.0 == key
    decreases |es|
  {
    if |es| > 0 {
      var n := |es| - 1;
      var init := es[..n];
      EntriesKeys(init, key);
      if exists j :: 0 <= j < n && init[j].Some? && init[j].value.0 == key {
        var j :| 0 <= j < n && init[j].Some? && init[j].value.0 == key;
        assert es[j] == init[j];
      }
      if exists j :: 0 <= j < |es| && es[j].Some? && es[j].value.0 == key {
        var j :| 0 <= j < |es| && es[j].Some? && es[j].value.0 == key;
        if j < n {
          assert init[j] == es[j];
        }
      }
    }
  }

  datatype Engine = Firefox | Webkit | Chromium

  /** Browser dispatch in `start_browser`: case-insensitive, with chromium
      for every other name. */
  function SelectEngine(name: string): (e: Engine)
    ensures e == Firefox <==> Lower(name) == "firefox"
    ensures e == Webkit <==> Lower(name) == "webkit"
    ensures e == Chromium <==> Lower(name) != "firefox" && Lower(name) != "webkit"
  {
    if Lower(name) == "firefox" then Firefox
    else if Lower(name) == "webkit" then Webkit
    else Chromium
  }

  lemma LowerIdempotent(s: string)
    ensures Lower(Lower(s)) == Lower(s)
  {
    forall k | 0 <= k < |s|
      ensures LowerChar(LowerChar(s[k])) == LowerChar(s[k])
    {
    }
  }

  /** Names that differ only in case select the same engine. */
  lemma SelectEngineIgnoresCase(a: string, b: string)
    requires Lower(a) == Lower(b)
    ensures SelectEngine(a) == SelectEngine(b)
    ensures SelectEngine(Lower(a)) == SelectEngine(a)
  {
    LowerIdempotent(a);
  }

  lemma SelectEngineExamples()
    ensures SelectEngine("FireFox") == Firefox
    ensures SelectEngine("WEBKIT") == Webkit
    ensures SelectEngine("chrome") == Chromium
  {
    assert Lower("FireFox") == "firefox";
    assert Lower("WEBKIT") == "webkit";
    assert Lower("chrome") == "chrome";
  }

  /** `bool(os.getenv("NOT_HEADLESS", False))` overrides the requested mode:
      any non-empty value, "0" included, shows the window. */
  function EffectiveHeadless(requested: bool, notHeadless: Option<string>): (h: bool)
    ensures h ==> requested
    ensures h <==> requested && (notHeadless.None? || notHeadless.value == "")
  {
    match notHeadless
    case Some(v) => if v != "" then false else requested
    case None => requested
  }

  /** A browser object reference: never assigned, or assigned (and then
      open or closed). `cleanup` closes objects but never unassigns them. */
  datatype Handle = Unset | Live | Closed

  predicate Assigned(h: Handle) {
    h != Unset
  }

  datatype Ctl = Ctl(
    driver: Handle,
    browser: Handle,
    context: Handle,
    page: Handle,
    engine: Option<Engine>,
    headless: bool,
    isClose: bool,
    cookies: seq<Cookies.Cookie>)  // cookies added to the current context

  /** A new controller: nothing assigned and `isClose` set. */
  const NewCtl: Ctl := Ctl(Unset, Unset, Unset, Unset, None, true, true, [])

  /** The steps of `start_browser` that can raise, in order. */
  datatype StartStep = StartDriver | Launch | NewContext | NewPage | Configure

  /** `cleanup`: closes what is assigned and sets `isClose`; the driver is
      never stopped, because the guard tests an attribute that is never set. */
  function Cleanup(c: Ctl): (r: Ctl)
    ensures r.isClose && r.driver == c.driver
    ensures r.browser == (if Assigned(c.browser) then Closed else Unset)
    ensures r.context == (if Assigned(c.context) then Closed else Unset)
    ensures r.page == (if Assigned(c.page) then Closed else Unset)
  {
    var close := (h: Handle) => if h == Unset then Unset else Closed;
    c.(browser := close(c.browser), context := close(c.context), page := close(c.page), isClose := true)
  }

  /** `start_browser`. `fails` names the step that raises, if any; starting
      the driver only happens while it is unset. A failure runs `cleanup`
      and re-raises (the second component is false). */
  function Start(c: Ctl, name: string, headless: bool, notHeadless: Option<string>, fails: Option<StartStep>): (r: (Ctl, bool))
    ensures r.1 ==> !r.0.isClose && r.0.browser == Live && r.0.context == Live && r.0.page == Live
    ensures r.1 ==> r.0.driver == Live && r.0.engine == Some(SelectEngine(name)) && r.0.cookies == []
    ensures r.1 ==> r.0.headless == EffectiveHeadless(headless, notHeadless)
    ensures !r.1 ==> r.0.isClose
    ensures r.1 <==> fails.None? || (fails == Some(StartDriver) && c.driver != Unset)
  {
    var h := EffectiveHeadless(headless, notHeadless);
    if fails == Some(StartDriver) && c.driver == Unset then (Cleanup(c), false)
    else
      var c1 := c.(driver := Live, engine := Some(SelectEngine(name)), headless := h);
      if fails == Some(Launch) then (Cleanup(c1), false)
      else
        var c2 := c1.(browser := Live);
        if fails == Some(NewContext) then (Cleanup(c2), false)
        else
          var c3 := c2.(context := Live, cookies := []);
          if fails == Some(NewPage) then (Cleanup(c3), false)
          else
            var c4 := c3.(page := Live);
            if fails == Some(Configure) then (Cleanup(c4), false)
            else
              assert fails.None? || fails.value == StartDriver;
              (c4.(isClose := false), true)
  }

  /** Start then close: `isClose` goes false then true, the handles stay
      assigned and the driver keeps running. */
  lemma StartThenClose(c: Ctl, name: string, headless: bool, notHeadless: Option<string>)
    ensures var (c1, ok) := Start(c, name, headless, notHeadless, None);
      && ok && !c1.isClose
      && var c2 := Cleanup(c1);
      && c2.isClose && c2.driver == Live
      && c2.browser == Closed && c2.context == Closed && c2.page == Closed
  {
  }

  datatype CookieError =
    | NotStarted     // the guard: no context was ever assigned
    | ContextClosed  // the browser library: the context was closed
    | Rejected       // the browser library: the cookie itself was refused

  /** The outcome of adding cookies; after a raise, `ctl` is the
      controller as the exception leaves it. */
  datatype Result = Success(ctl: Ctl) | Failure(error: CookieError, ctl: Ctl)

  /** `add_cookie`: raises "browser not started" while no context was ever
      assigned; the browser library raises on a closed context and on a
      cookie it refuses (`accepts` is its answer, e.g. a cookie with
      neither a URL nor a domain and path). */
  function AddCookie(c: Ctl, cookie: Cookies.Cookie, accepts: Cookies.Cookie -> bool): (r: Result)
    ensures r.Failure? <==> c.context != Live || !accepts(cookie)
    ensures r.Failure? ==> r.ctl == c
    ensures r.Failure? ==> (r.error == NotStarted <==> c.context == Unset)
    ensures r.Failure? ==> (r.error == Rejected <==> c.context == Live)
    ensures r.Success? ==> r.ctl == c.(cookies := c.cookies + [cookie])
  {
    match c.context
    case Unset => Failure(NotStarted, c)
    case Closed => Failure(ContextClosed, c)
    case Live => if accepts(cookie) then Success(c.(cookies := c.cookies + [cookie])) else Failure(Rejected, c)
  }

  /** `cs[k]` is the first cookie the browser refuses. */
  predicate FirstRefused(cs: seq<Cookies.Cookie>, accepts: Cookies.Cookie -> bool, k: int) {
    0 <= k < |cs| && !accepts(cs[k]) && forall j :: 0 <= j < k ==> accepts(cs[j])
  }

  /** `add_cookies`: the guard, then one `add_cookie` per cookie in order,
      stopping at the first raise with the earlier cookies kept; an empty
      list makes no call, so it succeeds on a closed context. */
  function AddCookies(c: Ctl, cs: seq<Cookies.Cookie>, accepts: Cookies.Cookie -> bool): (r: Result)
    ensures c.context == Unset ==> r == Failure(NotStarted, c)
    ensures c.context == Live ==> (r.Success? <==> forall k :: 0 <= k < |cs| ==> accepts(cs[k]))
    ensures c.context == Live && r.Success? ==> r.ctl == c.(cookies := c.cookies + cs)
    ensures c.context == Live && r.Failure? ==>
      && r.error == Rejected
      && exists k :: FirstRefused(cs, accepts, k) && r.ctl == c.(cookies := c.cookies + cs[..k])
    ensures c.context == Closed ==> (r.Success? <==> |cs| == 0)
    ensures c.context == Closed ==> r.ctl == c
    ensures c.context == Closed && |cs| > 0 ==> r.error == ContextClosed
    decreases |cs|
  {
    if c.context == Unset then Failure(NotStarted, c)
    else if |cs| == 0 then Success(c)
    else
      match AddCookie(c, cs[0], accepts)
      case Failure(e, c1) =>
        assert FirstRefused(cs, accepts, 0) ==> c1 == c.(cookies := c.cookies + cs[..0]);
        Failure(e, c1)
      case Success(c1) =>
        var r := AddCookies(c1, cs[1..], accepts);
        AddCookiesStep(c, cs, accepts, c1, r);
        r
  }

  /** The step of `AddCookies` after the first cookie was accepted. */
  lemma AddCookiesStep(c: Ctl, cs: seq<Cookies.Cookie>, accepts: Cookies.Cookie -> bool, c1: Ctl, r: Result)
    requires |cs| > 0 && c.context == Live && accepts(cs[0])
    requires c1 == c.(cookies := c.cookies + [cs[0]])
    requires r.Success? <==> forall k :: 0 <= k < |cs| - 1 ==> accepts(cs[1..][k])
    requires r.Success? ==> r.ctl == c1.(cookies := c1.cookies + cs[1..])
    requires r.Failure? ==> r.error == Rejected && exists k :: FirstRefused(cs[1..], accepts, k) && r.ctl == c1.(cookies := c1.cookies + cs[1..][..k])
    ensures r.Success? <==> forall k :: 0 <= k < |cs| ==> accepts(cs[k])
    ensures r.Success? ==> r.ctl == c.(cookies := c.cookies + cs)
    ensures r.Failure? ==> exists k :: FirstRefused(cs, accepts, k) && r.ctl == c.(cookies := c.cookies + cs[..k])
  {
    assert forall k :: 0 <= k < |cs| - 1 ==> cs[1..][k] == cs[k + 1];
    assert c.cookies + [cs[0]] + cs[1..] == c.cookies + cs;
    if r.Failure? {
      var k :| FirstRefused(cs[1..], accepts, k) && r.ctl == c1.(cookies := c1.cookies + cs[1..][..k]);
      assert FirstRefused(cs, accepts, k + 1);
      assert c.cookies + [cs[0]] + cs[1..][..k] == c.cookies + cs[..k + 1];
    }
  }

  /** After `cleanup` the context is closed but still assigned, so the
      "browser not started" guard no longer fires. */
  lemma CookiesAfterCleanup(c: Ctl, cookie: Cookies.Cookie, accepts: Cookies.Cookie -> bool)
    requires c.context == Live
    ensures AddCookie(Cleanup(c), cookie, accepts) == Failure(ContextClosed, Cleanup(c))
  {
  }
}
