/** The blocked-page check at the top of `get_article_content`: the page
    body is searched for seven phrases in a fixed order, and the first
    phrase found decides the exception the fetch raises. */
module PageCheck {
  import opened Options
  import opened Text

  /** Why WeChat refused to show the article. */
  datatype Block =
    | Verification  // the anti-bot "verify to continue" interstitial
    | Deleted       // deleted by the publisher (Chinese or English notice)
    | UnderReview
    | Unavailable
    | Violation
    | SendFailed
    | ViolationEn   // the English regulation notice

  const VerifyPhrase: string := "当前环境异常，完成验证后即可继续访问"
  const DeletedPhrase: string := "该内容已被发布者删除"
  const DeletedPhraseEn: string := "The content has been deleted by the author."
  const ReviewPhrase: string := "内容审核中"
  const UnavailablePhrase: string := "该内容暂时无法查看"
  const ViolationPhrase: string := "违规无法查看"
  const SendFailedPhrase: string := "发送失败无法查看"
  const ViolationPhraseEn: string := "Unable to view this content because it violates regulation"

  /** The body shows the notice of block `b`. */
  predicate Hit(body: string, b: Block) {
    match b
    case Verification => Contains(body, VerifyPhrase)
    case Deleted => Contains(body, DeletedPhrase) || Contains(body, DeletedPhraseEn)
    case UnderReview => Contains(body, ReviewPhrase)
    case Unavailable => Contains(body, UnavailablePhrase)
    case Violation => Contains(body, ViolationPhrase)
    case SendFailed => Contains(body, SendFailedPhrase)
    case ViolationEn => Contains(body, ViolationPhraseEn)
  }

  /** Position of the block's test in the source's chain of `if`s. */
  function Rank(b: Block): (n: nat)
    ensures n < 7
  {
    match b
    case Verification => 0
    case Deleted => 1
    case UnderReview => 2
    case Unavailable => 3
    case Violation => 4
    case SendFailed => 5
    case ViolationEn => 6
  }

  lemma RankInjective(a: Block, b: Block)
    ensures Rank(a) == Rank(b) ==> a == b
  {
  }

  /** The first block whose notice the body shows, or `None` when the page
      is an ordinary article. */
  function Classify(body: string): (r: Option<Block>)
    ensures r.None? <==> forall b :: !Hit(body, b)
    ensures r.Some? ==> Hit(body, r.value)
    ensures r.Some? ==> forall b :: Rank(b) < Rank(r.value) ==> !Hit(body, b)
  {
    if Hit(body, Verification) then Some(Verification)
    else if Hit(body, Deleted) then Some(Deleted)
    else if Hit(body, UnderReview) then Some(UnderReview)
    else if Hit(body, Unavailable) then Some(Unavailable)
    else if Hit(body, Violation) then Some(Violation)
    else if Hit(body, SendFailed) then Some(SendFailed)
    else if Hit(body, ViolationEn) then Some(ViolationEn)
    else None
  }

  /** First match wins, in both directions: `b` is reported exactly when
      the body shows `b` and none of the blocks tested before it. */
  lemma ClassifyExactly(body: string, b: Block)
    ensures Classify(body) == Some(b) <==>
      Hit(body, b) && forall c :: Rank(c) < Rank(b) ==> !Hit(body, c)
  {
    if Hit(body, b) && forall c :: Rank(c) < Rank(b) ==> !Hit(body, c) {
      var r := Classify(body);
      assert r.Some?;
      assert !(Rank(r.value) < Rank(b));
      assert !(Rank(b) < Rank(r.value));
      RankInjective(r.value, b);
    }
  }

  /** Any text containing the verification notice is classified as the
      verification page, whatever else it contains. */
  lemma VerificationFirst(before: string, after: string)
    ensures Classify(before + VerifyPhrase + after) == Some(Verification)
  {
    assert StartsWith(VerifyPhrase, VerifyPhrase);
    ContainsAppend(before, VerifyPhrase, VerifyPhrase);
    ContainsAppend(before + VerifyPhrase, after, VerifyPhrase);
  }

  /** The message of the exception raised for each block. */
  function Message(b: Block): string {
    match b
    case Verification => VerifyPhrase
    case Deleted => DeletedPhrase
    case UnderReview => ReviewPhrase
    case Unavailable => UnavailablePhrase
    case Violation => ViolationPhrase
    case SendFailed => SendFailedPhrase
    case ViolationEn => ViolationPhrase
  }

  /** Messages tell blocks apart except the two regulation notices, which
      raise the same Chinese message. */
  lemma MessageCollision(a: Block, b: Block)
    ensures Message(a) == Message(b) <==>
      a == b || ({a, b} == {Violation, ViolationEn})
  {
    if a != b && Message(a) == Message(b) {
      assert |Message(a)| == |Message(b)|;
      assert Message(a)[0] == Message(b)[0];
    }
  }
}
