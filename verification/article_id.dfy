/** The article id derived from an article URL (`extract_id_from_url`):
    the first `/s/<segment>` of the URL, padded with `=` to a multiple of
    four characters and base64-decoded; when decoding fails the padded
    segment itself is the id, and a URL without a segment gives "". */
module ArticleId {
  import opened Options
  import opened Scan
  import Codec

  /** `/s/([A-Za-z0-9_-]+)` */
  const SegmentPattern: Pattern := Pattern(Lit("/s/"), IdChar, None)

  /** The segment followed by `4 - |seg| % 4` `=` characters, none when that
      count is 4. */
  function Pad(seg: string): (r: string)
    ensures |r| % 4 == 0
    ensures |seg| <= |r| < |seg| + 4
    ensures r[..|seg|] == seg
    ensures forall k :: |seg| <= k < |r| ==> r[k] == '='
  {
    var padding := 4 - |seg| % 4;
    if padding != 4 then seg + seq(padding, _ => '=') else seg
  }

  function ExtractId(url: string, d: Codec.Decoders): (r: string)
    ensures NoMatch(url, SegmentPattern) ==> r == ""
    ensures forall i :: IsFirstMatch(url, i, SegmentPattern) ==>
      var padded := Pad(Capture(url, i, SegmentPattern));
      r == Codec.DecodeText(d, padded).GetOr(padded)
  {
    match Find(url, SegmentPattern)
    case None => ""
    case Some(seg) =>
      var padded := Pad(seg);
      Codec.DecodeText(d, padded).GetOr(padded)
  }

  /** A URL `head + "/s/" + seg + tail` with no segment inside `head`, a
      non-empty segment and a tail that does not continue it. */
  predicate SegmentUrl(head: string, seg: string, tail: string) {
    var url := head + "/s/" + seg + tail;
    && |seg| > 0
    && (forall k :: 0 <= k < |seg| ==> InClass(seg[k], IdChar))
    && (|tail| > 0 ==> !InClass(tail[0], IdChar))
    && (forall j :: 0 <= j < |head| ==> !MatchAt(url, j, SegmentPattern))
  }

  /** The segment right after the first `/s/` is the one that is decoded. */
  lemma SegmentFound(head: string, seg: string, tail: string)
    requires SegmentUrl(head, seg, tail)
    ensures Find(head + "/s/" + seg + tail, SegmentPattern) == Some(seg)
  {
    var url := head + "/s/" + seg + tail;
    assert url[|head|..|head| + 3] == "/s/";
    assert PrefixAt(url, |head|, SegmentPattern.prefix) by {
      forall k | 0 <= k < 3
        ensures url[|head| + k] in SegmentPattern.prefix[k]
      {
        assert url[|head| + k] == "/s/"[k];
      }
    }
    assert url[|head| + 3..|head| + 3 + |seg|] == seg;
    if |tail| > 0 {
      assert url[|head| + 3 + |seg|] == tail[0];
    }
    FoundAt(url, |head|, SegmentPattern, seg);
  }

  /** Decoding success: the id is the decoded text. */
  lemma IdDecoded(head: string, seg: string, tail: string, d: Codec.Decoders, text: string)
    requires SegmentUrl(head, seg, tail)
    requires Codec.DecodeText(d, Pad(seg)) == Some(text)
    ensures ExtractId(head + "/s/" + seg + tail, d) == text
  {
    SegmentFound(head, seg, tail);
  }

  /** Decoding failure: the id is the PADDED segment, which differs from the
      raw segment whenever its length is not a multiple of four. */
  lemma IdFallback(head: string, seg: string, tail: string, d: Codec.Decoders)
    requires SegmentUrl(head, seg, tail)
    requires Codec.DecodeText(d, Pad(seg)).None?
    ensures var r := ExtractId(head + "/s/" + seg + tail, d);
      && r == Pad(seg)
      && |r| % 4 == 0
      && r[..|seg|] == seg
      && (r == seg <==> |seg| % 4 == 0)
  {
    SegmentFound(head, seg, tail);
  }
}
