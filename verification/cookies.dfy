/** The session bookkeeping of `driver/wx.py` that works on cookies:
    `format_token` (the cookie header and the token it carries) and the
    order in which `extract_token_from_requests` looks for a token. */
module Cookies {
  import opened Options
  import opened Text
  import opened Scan

  datatype Cookie = Cookie(name: string, value: string)

  /** `'token' in cookie['name'].lower()` */
  predicate IsTokenName(name: string) {
    Contains(Lower(name), "token")
  }

  /** One cookie's contribution to `cookies_str`. */
  function Entry(c: Cookie): string {
    c.name + "=" + c.value + "; "
  }

  /** `cookies_str`: the entries of all cookies, in order. */
  function CookieString(cs: seq<Cookie>): (r: string)
    ensures |cs| == 0 <==> r == ""
  {
    if |cs| == 0 then "" else CookieString(cs[..|cs| - 1]) + Entry(cs[|cs| - 1])
  }

  /** The header of a concatenation is the concatenation of the headers. */
  lemma {:induction false} CookieStringAppend(a: seq<Cookie>, b: seq<Cookie>)
    ensures CookieString(a + b) == CookieString(a) + CookieString(b)
    decreases |b|
  {
    if |b| > 0 {
      var b' := b[..|b| - 1];
      assert (a + b)[..|a + b| - 1] == a + b';
      CookieStringAppend(a, b');
    } else {
      assert a + b == a;
    }
  }

  /** The token `format_token` ends with: each token cookie overrides the
      value passed in, so the last one wins. */
  function LastToken(cs: seq<Cookie>, token: Option<string>): (r: Option<string>)
  {
    if |cs| == 0 then token
    else if IsTokenName(cs[|cs| - 1].name) then Some(cs[|cs| - 1].value)
    else LastToken(cs[..|cs| - 1], token)
  }

  /** The last token cookie decides; without one the token passed in is
      kept. */
  lemma {:induction false} LastTokenIsLast(cs: seq<Cookie>, token: Option<string>)
    ensures (forall k :: 0 <= k < |cs| ==> !IsTokenName(cs[k].name)) ==> LastToken(cs, token) == token
    ensures forall k :: 0 <= k < |cs| && IsTokenName(cs[k].name)
                        && (forall l :: k < l < |cs| ==> !IsTokenName(cs[l].name))
                        ==> LastToken(cs, token) == Some(cs[k].value)
  {
    if |cs| > 0 {
      var init := cs[..|cs| - 1];
      LastTokenIsLast(init, token);
      forall k | 0 <= k < |init|
        ensures init[k] == cs[k]
      {
      }
    }
  }

  /** The dictionary `format_token` returns, without the values it copies
      through unchanged. `expiry` is the answer of `expire(cookies)`. */
  datatype Session = Session(cookies: seq<Cookie>, cookiesStr: string, token: Option<string>, expiry: Option<string>)

  /** `format_token` as the loop the source runs. */
  method FormatToken(cs: seq<Cookie>, token: Option<string>, expiry: Option<string>) returns (s: Session)
    ensures s.cookies == cs && s.expiry == expiry
    ensures s.cookiesStr == CookieString(cs)
    ensures s.token == LastToken(cs, token)
  {
    var str := "";
    var tok := token;
    var i := 0;
    while i < |cs|
      invariant 0 <= i <= |cs|
      invariant str == CookieString(cs[..i])
      invariant tok == LastToken(cs[..i], token)
    {
      assert cs[..i + 1][..i] == cs[..i];
      str := str + Entry(cs[i]);
      if IsTokenName(cs[i].name) {
        tok := Some(cs[i].value);
      }
      i := i + 1;
    }
    assert cs[..i] == cs;
    s := Session(cs, str, tok, expiry);
  }

  /** The first token cookie: `extract_token_from_requests` returns inside
      its loop. */
  function FirstToken(cs: seq<Cookie>): (r: Option<string>)
    ensures r.None? <==> forall k :: 0 <= k < |cs| ==> !IsTokenName(cs[k].name)
    ensures r.Some? ==> exists k :: 0 <= k < |cs| && IsTokenName(cs[k].name) && r.value == cs[k].value
                          && forall l :: 0 <= l < k ==> !IsTokenName(cs[l].name)
  {
    if |cs| == 0 then None
    else if IsTokenName(cs[0].name) then Some(cs[0].value)
    else
      var r := FirstToken(cs[1..]);
      assert forall k :: 1 <= k < |cs| ==> cs[1..][k - 1] == cs[k];
      r
  }

  /** With a single token cookie both readings agree; with several, the
      session keeps the last and the extraction returns the first. */
  lemma SingleTokenAgrees(cs: seq<Cookie>, k: nat, token: Option<string>)
    requires k < |cs| && IsTokenName(cs[k].name)
    requires forall l :: 0 <= l < |cs| && l != k ==> !IsTokenName(cs[l].name)
    ensures FirstToken(cs) == LastToken(cs, token) == Some(cs[k].value)
  {
    LastTokenIsLast(cs, token);
  }

  /** An answer of a page script: its value (`None` for a JavaScript null),
      or the script raised. */
  datatype Lookup = Returns(value: Option<string>) | Throws

  /** What `extract_token_from_requests` can see on the page; a `None`
      cookie list means reading the cookies raised. */
  datatype TokenSources = TokenSources(url: string, local: Lookup, session: Lookup, cookies: Option<seq<Cookie>>)

  /** `token=([^&]+)` */
  const UrlToken: Pattern := Pattern(Lit("token="), NotAmp, None)

  /** Python truthiness of a script answer. */
  predicate Truthy(l: Lookup) {
    l.Returns? && l.value.Some? && l.value.value != ""
  }

  /** The token search: the URL parameter, then localStorage, then
      sessionStorage, then the first token cookie; any exception, or a page
      that is not there, gives `None`. */
  function ExtractToken(page: Option<TokenSources>): (r: Option<string>)
    ensures page.None? ==> r.None?
    ensures page.Some? && Find(page.value.url, UrlToken).Some? ==> r == Find(page.value.url, UrlToken)
    ensures page.Some? && NoMatch(page.value.url, UrlToken) ==>
      var p := page.value;
      && (p.local.Throws? ==> r.None?)
      && (Truthy(p.local) ==> r == p.local.value)
      && (p.local.Returns? && !Truthy(p.local) ==>
            && (p.session.Throws? ==> r.None?)
            && (Truthy(p.session) ==> r == p.session.value)
            && (p.session.Returns? && !Truthy(p.session) ==>
                  r == if p.cookies.Some? then FirstToken(p.cookies.value) else None))
  {
    match page
    case None => None
    case Some(p) =>
      match Find(p.url, UrlToken)
      case Some(t) => Some(t)
      case None =>
        match p.local
        case Throws => None
        case Returns(l) =>
          if Truthy(p.local) then l
          else
            match p.session
            case Throws => None
            case Returns(s) =>
              if Truthy(p.session) then s
              else
                match p.cookies
                case None => None
                case Some(cs) => FirstToken(cs)
  }

  /** A later source is consulted only when every earlier one is empty: a
      URL parameter hides the storages and cookies completely. */
  lemma UrlTokenHides(p: TokenSources, q: TokenSources)
    requires p.url == q.url && Find(p.url, UrlToken).Some?
    ensures ExtractToken(Some(p)) == ExtractToken(Some(q))
  {
  }
}
