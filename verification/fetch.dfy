/** `get_article_content` with the browser replaced by the answers of its
    page lookups: the id is derived from the URL, a blocked page raises
    before any field is read, and otherwise each field falls back to its
    default when its lookup raises. */
module Fetch {
  import opened Options
  import opened Text
  import opened Images
  import ArticleId
  import PublishTime
  import PageCheck
  import Biz
  import Codec

  /** The account bar of the page: the avatar's `src` and the nickname. */
  datatype Profile = Profile(logo: Option<string>, name: string)

  /** What the page lookups return; a `None` lookup raised (missing element,
      timeout, script error). */
  datatype Page = Page(
    body: string,                    // document.body.innerText
    ogTitle: Option<Option<string>>, // content attribute of og:title, itself possibly absent
    docTitle: Option<string>,        // document.title
    author: Option<string>,          // text of the author element
    publishText: Option<string>,     // text of #publish_time
    jsContent: Option<string>,       // inner HTML of #js_content
    article: Option<string>,         // inner HTML of #js_article
    imgs: Option<seq<Img>>,          // the <img> elements of #js_article and their attributes
    profile: Option<Profile>,
    source: Option<string>)          // page.content()

  datatype MpInfo = MpInfo(name: string, logo: Option<string>, biz: string)

  /** The returned dictionary. `title` is `None` where Python holds `None`;
      `publishTime` is `None` where the source stores ""; `picUrl` and
      `mpId` are `None` where the key is never set. */
  datatype Info = Info(
    id: string,
    title: Option<string>,
    author: string,
    publishTime: Option<PublishTime.DateTime>,
    content: string,
    images: seq<string>,
    picUrl: Option<string>,
    mpInfo: MpInfo,
    mpId: Option<string>)

  datatype Failure =
    | BrowserFailed                 // starting the browser, loading the URL or reading the body text raised
    | Blocked(block: PageCheck.Block)

  datatype Outcome = Fetched(info: Info) | Raised(failure: Failure)

  /** The collaborators the source calls: the two decoders, the HTML
      cleaner of `clean_article_content` (`None` when it raises) and the
      clock. */
  datatype Tools = Tools(decoders: Codec.Decoders, clean: string -> Option<string>, now: PublishTime.DateTime)

  const NoMpInfo: MpInfo := MpInfo("", Some(""), "")

  /** Title: og:title ("" when the lookup raised), overridden by
      `document.title` when that succeeds. */
  function Title(p: Page): Option<string> {
    match p.docTitle
    case Some(t) => Some(t)
    case None =>
      match p.ogTitle
      case None => Some("")
      case Some(a) => a
  }

  /** Content and images: `#js_content` ("" when it raises), replaced by
      the HTML of `#js_article`, which is replaced in turn by its cleaned
      form; the images are read only once cleaning succeeded, and any
      failure on the way leaves the content last assigned and no images. */
  function Body(p: Page, clean: string -> Option<string>): (r: (string, seq<string>))
    ensures p.article.None? ==> r == (p.jsContent.GetOr(""), [])
    ensures p.article.Some? && clean(p.article.value).None? ==> r == (p.article.value, [])
    ensures p.article.Some? && clean(p.article.value).Some? ==>
      && r.0 == clean(p.article.value).value
      && r.1 == (if p.imgs.Some? then ImageUrls(p.imgs.value) else [])
    ensures r.1 != [] ==> p.article.Some? && clean(p.article.value).Some? && p.imgs.Some?
  {
    match p.article
    case None => (p.jsContent.GetOr(""), [])
    case Some(html) =>
      match clean(html)
      case None => (html, [])
      case Some(cleaned) =>
        match p.imgs
        case None => (cleaned, [])
        case Some(imgs) => (cleaned, ImageUrls(imgs))
  }

  function FetchArticle(url: string, page: Option<Page>, tools: Tools): (r: Outcome)
    requires PublishTime.Valid(tools.now)
    ensures page.None? ==> r == Raised(BrowserFailed)
    ensures page.Some? ==>
      (r.Raised? <==> PageCheck.Classify(page.value.body).Some?)
    ensures page.Some? && r.Raised? ==> r.failure == Blocked(PageCheck.Classify(page.value.body).value)
    ensures r.Fetched? ==>
      && r.info.id == ArticleId.ExtractId(url, tools.decoders)
      && r.info.picUrl == PicUrl(r.info.images)
      && (r.info.images == [] || (page.value.imgs.Some? && r.info.images == ImageUrls(page.value.imgs.value)))
      && (r.info.publishTime.Some? ==> PublishTime.Valid(r.info.publishTime.value))
      && (r.info.mpId.Some? ==> r.info.mpInfo.biz == Biz.ExtractBiz(url, page.value.source))
    ensures page.Some? && r.Fetched? ==>
      var p := page.value;
      && r.info.title == Title(p)
      && r.info.author == (if p.author.Some? then Strip(p.author.value) else "")
      && r.info.publishTime ==
           (if p.publishText.Some? then Some(PublishTime.Convert(Strip(p.publishText.value), tools.now)) else None)
      && (r.info.content, r.info.images) == Body(p, tools.clean)
      && r.info.mpInfo == (if p.profile.Some? then MpInfo(p.profile.value.name, p.profile.value.logo, Biz.ExtractBiz(url, p.source)) else NoMpInfo)
      && r.info.mpId == (if p.profile.Some? then Biz.MpId(Biz.ExtractBiz(url, p.source), tools.decoders) else None)
  {
    match page
    case None => Raised(BrowserFailed)
    case Some(p) =>
      match PageCheck.Classify(p.body)
      case Some(b) => Raised(Blocked(b))
      case None =>
        var (content, images) := Body(p, tools.clean);
        var mpInfo :=
          match p.profile
          case None => NoMpInfo
          case Some(pr) => MpInfo(pr.name, pr.logo, Biz.ExtractBiz(url, p.source));
        Fetched(Info(
          ArticleId.ExtractId(url, tools.decoders),
          Title(p),
          if p.author.Some? then Strip(p.author.value) else "",
          if p.publishText.Some? then Some(PublishTime.Convert(Strip(p.publishText.value), tools.now)) else None,
          content,
          images,
          PicUrl(images),
          mpInfo,
          if p.profile.Some? then Biz.MpId(mpInfo.biz, tools.decoders) else None))
  }

  /** A blocked page raises before any field lookup: the outcome depends on
      the body alone. */
  lemma BlockedIgnoresFields(url: string, p: Page, q: Page, tools: Tools)
    requires PublishTime.Valid(tools.now)
    requires p.body == q.body && PageCheck.Classify(p.body).Some?
    ensures FetchArticle(url, Some(p), tools) == FetchArticle(url, Some(q), tools)
  {
  }

  /** On an ordinary page with a cleaned article, the images are the
      selection of the article's `<img>` elements and the picture is the
      first of them. */
  lemma FetchedImages(url: string, p: Page, tools: Tools)
    requires PublishTime.Valid(tools.now)
    requires PageCheck.Classify(p.body).None?
    requires p.article.Some? && tools.clean(p.article.value).Some? && p.imgs.Some?
    ensures var r := FetchArticle(url, Some(p), tools);
      && r.Fetched?
      && r.info.images == ImageUrls(p.imgs.value)
      && r.info.picUrl == (if |ImageUrls(p.imgs.value)| > 0 then Some(ImageUrls(p.imgs.value)[0]) else None)
      && r.info.content == tools.clean(p.article.value).value
  {
  }
}
