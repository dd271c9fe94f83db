/** Image selection in `get_article_content`: every `<img>` of the article
    contributes `data-src or src` when that value is truthy, in document
    order, and the first selected URL becomes the article's picture. */
module Images {
  import opened Options

  /** An `<img>` element's two attributes; `None` is an absent attribute. */
  datatype Img = Img(dataSrc: Option<string>, src: Option<string>)

  /** Python truthiness of an attribute value: present and non-empty. */
  predicate Truthy(a: Option<string>) {
    a.Some? && a.value != ""
  }

  /** `img.get_attribute("data-src") or img.get_attribute("src")`, kept only
      when truthy. */
  function Pick(img: Img): (r: Option<string>)
    ensures r.Some? <==> Truthy(img.dataSrc) || Truthy(img.src)
    ensures r.Some? ==> r.value != ""
    ensures Truthy(img.dataSrc) ==> r == img.dataSrc
    ensures !Truthy(img.dataSrc) ==> (r.Some? <==> Truthy(img.src)) && (r.Some? ==> r == img.src)
  {
    if Truthy(img.dataSrc) then img.dataSrc
    else if Truthy(img.src) then img.src
    else None
  }

  /** The list comprehension: the picks of the images that have one. */
  function ImageUrls(imgs: seq<Img>): (urls: seq<string>)
    ensures |urls| <= |imgs|
    ensures forall k :: 0 <= k < |urls| ==> urls[k] != ""
  {
    if |imgs| == 0 then []
    else
      var rest := ImageUrls(imgs[..|imgs| - 1]);
      match Pick(imgs[|imgs| - 1])
      case None => rest
      case Some(u) => rest + [u]
  }

  /** `pic_url`: set to the first selected URL only when there is one. */
  function PicUrl(urls: seq<string>): Option<string> {
    if |urls| > 0 then Some(urls[0]) else None
  }

  /** `from` lists, in increasing order, the positions of the images that
      contribute, and `urls` their picks. */
  predicate Selection(imgs: seq<Img>, urls: seq<string>, from: seq<nat>) {
    && |from| == |urls|
    && (forall k :: 0 <= k < |from| ==> from[k] < |imgs| && Pick(imgs[from[k]]) == Some(urls[k]))
    && (forall k, l :: 0 <= k < l < |from| ==> from[k] < from[l])
    && (forall i :: 0 <= i < |imgs| && Pick(imgs[i]).Some? ==> i in from)
  }

  /** The comprehension as a loop over the images, recording where each
      selected URL came from. */
  method CollectImages(imgs: seq<Img>) returns (urls: seq<string>, from: seq<nat>)
    ensures Selection(imgs, urls, from)
    ensures urls == ImageUrls(imgs)
  {
    urls, from := [], [];
    var i := 0;
    while i < |imgs|
      invariant 0 <= i <= |imgs|
      invariant |from| == |urls|
      invariant forall k :: 0 <= k < |from| ==> from[k] < i && Pick(imgs[from[k]]) == Some(urls[k])
      invariant forall k, l :: 0 <= k < l < |from| ==> from[k] < from[l]
      invariant forall j :: 0 <= j < i && Pick(imgs[j]).Some? ==> j in from
      invariant urls == ImageUrls(imgs[..i])
    {
      assert imgs[..i + 1][..i] == imgs[..i];
      match Pick(imgs[i]) {
        case None =>
        case Some(u) =>
          urls := urls + [u];
          from := from + [i];
      }
      i := i + 1;
    }
    assert imgs[..i] == imgs;
  }

  /** The selection is unique: any increasing list of positions covering
      every contributing image yields exactly `ImageUrls`. */
  lemma {:induction false} SelectionUnique(imgs: seq<Img>, urls: seq<string>, from: seq<nat>)
    requires Selection(imgs, urls, from)
    ensures urls == ImageUrls(imgs)
    decreases |imgs|
  {
    if |imgs| > 0 {
      var n := |imgs| - 1;
      var init := imgs[..n];
      if Pick(imgs[n]).Some? {
        assert n in from;
        var k :| 0 <= k < |from| && from[k] == n;
        assert from[|from| - 1] <= n;
        assert k == |from| - 1;
        SelectionInit(imgs, urls, from, |from| - 1);
        SelectionUnique(init, urls[..|from| - 1], from[..|from| - 1]);
        assert urls == urls[..|from| - 1] + [urls[|from| - 1]];
      } else {
        SelectionInit(imgs, urls, from, |from|);
        assert urls[..|from|] == urls && from[..|from|] == from;
        SelectionUnique(init, urls, from);
      }
    }
  }

  /** Dropping the last image (and its pick, if it is the last entry). */
  lemma SelectionInit(imgs: seq<Img>, urls: seq<string>, from: seq<nat>, m: nat)
    requires |imgs| > 0 && Selection(imgs, urls, from)
    requires m == |from| || (m + 1 == |from| && from[m] == |imgs| - 1)
    requires m == |from| ==> Pick(imgs[|imgs| - 1]).None?
    ensures Selection(imgs[..|imgs| - 1], urls[..m], from[..m])
  {
    var n := |imgs| - 1;
    var init := imgs[..n];
    forall k | 0 <= k < m
      ensures from[k] < n
    {
      if m == |from| {
        assert from[k] != n;
      } else {
        assert from[k] < from[m];
      }
    }
    forall i | 0 <= i < n && Pick(init[i]).Some?
      ensures i in from[..m]
    {
      assert init[i] == imgs[i];
      assert i in from;
      var k :| 0 <= k < |from| && from[k] == i;
      assert k < m;
      assert from[..m][k] == i;
    }
  }

  /** The picture is the pick of the first image that has one. */
  lemma {:induction false} PicUrlFirst(imgs: seq<Img>, i: nat)
    requires i < |imgs| && Pick(imgs[i]).Some?
    requires forall j :: 0 <= j < i ==> Pick(imgs[j]).None?
    ensures PicUrl(ImageUrls(imgs)) == Pick(imgs[i])
    decreases |imgs|
  {
    var n := |imgs| - 1;
    if i < n {
      assert imgs[..n][i] == imgs[i];
      PicUrlFirst(imgs[..n], i);
    } else {
      NoPicks(imgs[..n]);
    }
  }

  /** Without a contributing image there is no picture. */
  lemma {:induction false} NoPicks(imgs: seq<Img>)
    requires forall j :: 0 <= j < |imgs| ==> Pick(imgs[j]).None?
    ensures ImageUrls(imgs) == []
    decreases |imgs|
  {
    if |imgs| > 0 {
      NoPicks(imgs[..|imgs| - 1]);
    }
  }
}
