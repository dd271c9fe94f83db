/** The account id of an article (`extract_biz_from_source` and the
    `mp_id` it feeds): the `__biz` URL parameter, else the page's
    `var biz = "..."`, else its `window.__biz=...`, else "". */
module Biz {
  import opened Options
  import opened Scan
  import Codec

  /** `[?&]__biz=([^&]+)` */
  const UrlBiz: Pattern := Pattern([{'?', '&'}] + Lit("__biz="), NotAmp, None)
  /** `var biz = "([^"]+)"` */
  const VarBiz: Pattern := Pattern(Lit("var biz = \""), NotQuote, Some('"'))
  /** `window\.__biz=([^&]+)` */
  const WindowBiz: Pattern := Pattern(Lit("window.__biz="), NotAmp, None)

  /** The biz id of an article. `source` is the page's HTML, `None` when
      there is no page or reading it raised. */
  function ExtractBiz(url: string, source: Option<string>): (r: string)
    ensures forall i :: IsFirstMatch(url, i, UrlBiz) ==> r == Capture(url, i, UrlBiz)
    ensures NoMatch(url, UrlBiz) && source.None? ==> r == ""
    ensures NoMatch(url, UrlBiz) && source.Some? ==>
      var page := source.value;
      && (forall i :: IsFirstMatch(page, i, VarBiz) ==> r == Capture(page, i, VarBiz))
      && (NoMatch(page, VarBiz) ==>
            && (forall i :: IsFirstMatch(page, i, WindowBiz) ==> r == Capture(page, i, WindowBiz))
            && (NoMatch(page, WindowBiz) ==> r == ""))
  {
    match Find(url, UrlBiz)
    case Some(b) => b
    case None =>
      match source
      case None => ""
      case Some(page) =>
        match Find(page, VarBiz)
        case Some(b) => b
        case None => Find(page, WindowBiz).GetOr("")
  }

  const MpIdPrefix: string := "MP_WXS_"

  /** `"MP_WXS_" + base64.b64decode(biz).decode("utf-8")`, `None` when the
      decoding raises (the source then leaves `mp_id` unset). */
  function MpId(biz: string, d: Codec.Decoders): (r: Option<string>)
    ensures r.Some? <==> Codec.DecodeText(d, biz).Some?
    ensures r.Some? ==> |r.value| >= 7 && r.value[..7] == MpIdPrefix && Codec.DecodeText(d, biz) == Some(r.value[7..])
  {
    match Codec.DecodeText(d, biz)
    case None => None
    case Some(text) => Some(MpIdPrefix + text)
  }

  /** The URL parameter wins over anything in the page. */
  lemma UrlParamWins(head: string, c: char, v: string, tail: string, source: Option<string>)
    requires c == '?' || c == '&'
    requires |v| > 0 && '&' !in v
    requires |tail| > 0 ==> tail[0] == '&'
    requires forall j :: 0 <= j < |head| ==> !MatchAt(head + [c] + "__biz=" + v + tail, j, UrlBiz)
    ensures ExtractBiz(head + [c] + "__biz=" + v + tail, source) == v
  {
    var url := head + [c] + "__biz=" + v + tail;
    var i := |head|;
    assert url[i..i + 7] == [c] + "__biz=";
    assert PrefixAt(url, i, UrlBiz.prefix) by {
      forall k | 0 <= k < 7
        ensures url[i + k] in UrlBiz.prefix[k]
      {
        assert url[i + k] == ([c] + "__biz=")[k];
      }
    }
    assert url[i + 7..i + 7 + |v|] == v;
    if |tail| > 0 {
      assert url[i + 7 + |v|] == tail[0];
    }
    FoundAt(url, i, UrlBiz, v);
  }

  /** Without the URL parameter, the quoted `var biz` of the page is taken. */
  lemma VarBizFound(url: string, head: string, v: string, tail: string)
    requires NoMatch(url, UrlBiz)
    requires |v| > 0 && '"' !in v
    requires forall j :: 0 <= j < |head| ==> !MatchAt(head + "var biz = \"" + v + "\"" + tail, j, VarBiz)
    ensures ExtractBiz(url, Some(head + "var biz = \"" + v + "\"" + tail)) == v
  {
    var page := head + "var biz = \"" + v + "\"" + tail;
    var i := |head|;
    assert page[i..i + 11] == "var biz = \"";
    assert PrefixAt(page, i, VarBiz.prefix) by {
      forall k | 0 <= k < 11
        ensures page[i + k] in VarBiz.prefix[k]
      {
        assert page[i + k] == "var biz = \""[k];
      }
    }
    assert page[i + 11..i + 11 + |v|] == v;
    assert page[i + 11 + |v|] == '"';
    FoundAt(page, i, VarBiz, v);
  }
}
