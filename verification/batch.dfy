/** `FixArticle`: fetch and store a list of articles one by one. Empty URLs
    are skipped, an exception in one item only ends that item, an item
    counts when the store reports an update, and a pause follows every
    completed item except one in the last position. */
module Batch {
  import opened Options
  import Fetch
  import PublishTime

  /** The record handed to `UpdateArticle`. */
  datatype Article = Article(
    id: string,
    title: Option<string>,
    mpId: Option<string>,
    publishTime: Option<PublishTime.DateTime>,
    picUrl: Option<string>,
    content: string,
    url: string)

  /** The calls the loop makes, answered per 1-based position: the fetch
      (`Raised` is an exception) and `UpdateArticle` (`None` when it
      raises, else its boolean result). */
  datatype Env = Env(
    fetch: (nat, string) -> Fetch.Outcome,
    update: (nat, Article) -> Option<bool>)

  /** What happened to one position of the list. */
  datatype Step =
    | Skipped                             // empty URL
    | Failed                              // the fetch or the update raised
    | Stored(article: Article, updated: bool)

  /** The article built from fetched data; the caller's `mp_id` is used
      unless it is `None`. */
  function Record(info: Fetch.Info, url: string, mpId: Option<string>): (a: Article)
    ensures mpId.Some? ==> a.mpId == mpId
    ensures mpId.None? ==> a.mpId == info.mpId
    ensures a.url == url && a.id == info.id && a.content == info.content
  {
    Article(info.id, info.title, if mpId.None? then info.mpId else mpId,
            info.publishTime, info.picUrl, info.content, url)
  }

  /** The loop body for 1-based position `i`. */
  function StepAt(i: nat, url: string, mpId: Option<string>, env: Env): (s: Step)
    ensures url == "" ==> s == Skipped
    ensures s.Stored? ==> env.fetch(i, url).Fetched? && s.article == Record(env.fetch(i, url).info, url, mpId)
    ensures s.Stored? <==> url != "" && env.fetch(i, url).Fetched?
                           && env.update(i, Record(env.fetch(i, url).info, url, mpId)).Some?
    ensures s.Stored? ==> env.update(i, s.article) == Some(s.updated)
  {
    if url == "" then Skipped
    else
      match env.fetch(i, url)
      case Raised(_) => Failed
      case Fetched(info) =>
        var article := Record(info, url, mpId);
        match env.update(i, article)
        case None => Failed
        case Some(ok) => Stored(article, ok)
  }

  /** The steps of the first `n` positions. */
  function Steps(urls: seq<string>, mpId: Option<string>, env: Env, n: nat): (r: seq<Step>)
    requires n <= |urls|
    ensures |r| == n
    ensures forall k :: 0 <= k < n ==> r[k] == StepAt(k + 1, urls[k], mpId, env)
  {
    if n == 0 then [] else Steps(urls, mpId, env, n - 1) + [StepAt(n, urls[n - 1], mpId, env)]
  }

  /** Number of steps whose update succeeded. */
  function Updated(steps: seq<Step>): (c: nat)
    ensures c <= |steps|
  {
    if |steps| == 0 then 0
    else Updated(steps[..|steps| - 1]) + (if steps[|steps| - 1].Stored? && steps[|steps| - 1].updated then 1 else 0)
  }

  /** The count is positive exactly when some step updated an article. */
  lemma {:induction false} UpdatedPositive(steps: seq<Step>)
    ensures Updated(steps) > 0 <==> exists k :: 0 <= k < |steps| && steps[k].Stored? && steps[k].updated
  {
    if |steps| > 0 {
      var init := steps[..|steps| - 1];
      UpdatedPositive(init);
      if exists k :: 0 <= k < |init| && init[k].Stored? && init[k].updated {
        var k :| 0 <= k < |init| && init[k].Stored? && init[k].updated;
        assert steps[k] == init[k];
      }
      if exists k :: 0 <= k < |steps| && steps[k].Stored? && steps[k].updated {
        var k :| 0 <= k < |steps| && steps[k].Stored? && steps[k].updated;
        if k < |init| {
          assert init[k] == steps[k];
        }
      }
    }
  }

  /** The 1-based positions after which the loop sleeps: those whose item
      completed, except the last position of the list. */
  function Pauses(steps: seq<Step>, total: nat): seq<nat> {
    if |steps| == 0 then []
    else Pauses(steps[..|steps| - 1], total) + (if steps[|steps| - 1].Stored? && |steps| < total then [|steps|] else [])
  }

  /** The articles handed to the store, in order. */
  function StoredOf(steps: seq<Step>): seq<Article> {
    if |steps| == 0 then []
    else StoredOf(steps[..|steps| - 1]) + (if steps[|steps| - 1].Stored? then [steps[|steps| - 1].article] else [])
  }

  /** A pause follows position `p` exactly when that item completed and it
      is not the last position; pauses come in increasing order. */
  lemma {:induction false} PausesExactly(steps: seq<Step>, total: nat)
    ensures forall p :: p in Pauses(steps, total) <==> 1 <= p <= |steps| && p < total && steps[p - 1].Stored?
    ensures forall k, l :: 0 <= k < l < |Pauses(steps, total)| ==> Pauses(steps, total)[k] < Pauses(steps, total)[l]
    ensures forall k :: 0 <= k < |Pauses(steps, total)| ==> Pauses(steps, total)[k] <= |steps|
  {
    if |steps| > 0 {
      var init := steps[..|steps| - 1];
      PausesExactly(init, total);
    }
  }

  /** A stored article has a URL and, when the caller gave one, the
      caller's account id. */
  predicate Proper(a: Article, mpId: Option<string>) {
    a.url != "" && (mpId.Some? ==> a.mpId == mpId)
  }

  /** Every article handed to the store is proper when every step is. */
  lemma {:induction false} StoredProper(steps: seq<Step>, mpId: Option<string>)
    requires forall k :: 0 <= k < |steps| && steps[k].Stored? ==> Proper(steps[k].article, mpId)
    ensures forall a :: a in StoredOf(steps) ==> Proper(a, mpId)
  {
    if |steps| > 0 {
      var init := steps[..|steps| - 1];
      assert forall k :: 0 <= k < |init| ==> init[k] == steps[k];
      StoredProper(init, mpId);
    }
  }

  /** Every stored article of the batch is proper. */
  lemma StoredArticles(urls: seq<string>, mpId: Option<string>, env: Env)
    ensures forall a :: a in StoredOf(Steps(urls, mpId, env, |urls|)) ==> Proper(a, mpId)
  {
    var steps := Steps(urls, mpId, env, |urls|);
    forall k | 0 <= k < |steps| && steps[k].Stored?
      ensures Proper(steps[k].article, mpId)
    {
      assert steps[k] == StepAt(k + 1, urls[k], mpId, env);
    }
    StoredProper(steps, mpId);
  }

  /** The outcome of the whole batch. `pauses` lists the 1-based positions
      after which the loop sleeps; `stored` the articles handed to the
      store, in order. */
  datatype Report = Report(ok: bool, count: nat, pauses: seq<nat>, stored: seq<Article>)

  /** The report the batch produces, position by position. */
  function Run(urls: seq<string>, mpId: Option<string>, env: Env): Report {
    var steps := Steps(urls, mpId, env, |urls|);
    Report(Updated(steps) > 0, Updated(steps), Pauses(steps, |urls|), StoredOf(steps))
  }

  /** What the report means in terms of the individual items: the batch
      succeeds iff some article was updated, a pause follows exactly the
      completed items that are not last, in increasing order, and every
      stored article has a URL and the caller's account id when given. */
  lemma RunMeaning(urls: seq<string>, mpId: Option<string>, env: Env)
    ensures var r := Run(urls, mpId, env);
      && (r.ok <==> exists k :: 0 <= k < |urls| && StepAt(k + 1, urls[k], mpId, env).Stored?
                                && StepAt(k + 1, urls[k], mpId, env).updated)
      && (forall p :: p in r.pauses <==> 1 <= p < |urls| && StepAt(p, urls[p - 1], mpId, env).Stored?)
      && (forall k, l :: 0 <= k < l < |r.pauses| ==> r.pauses[k] < r.pauses[l])
      && (forall a :: a in r.stored ==> Proper(a, mpId))
  {
    var steps := Steps(urls, mpId, env, |urls|);
    UpdatedPositive(steps);
    PausesExactly(steps, |urls|);
    StoredArticles(urls, mpId, env);
  }

  method FixArticle(urls: seq<string>, mpId: Option<string>, env: Env) returns (r: Report)
    ensures r == Run(urls, mpId, env)
  {
    var count := 0;
    var pauses: seq<nat> := [];
    var stored: seq<Article> := [];
    var i := 1;
    while i <= |urls|
      invariant 1 <= i <= |urls| + 1
      invariant count == Updated(Steps(urls, mpId, env, i - 1))
      invariant pauses == Pauses(Steps(urls, mpId, env, i - 1), |urls|)
      invariant stored == StoredOf(Steps(urls, mpId, env, i - 1))
    {
      var step := StepAt(i, urls[i - 1], mpId, env);
      ghost var prev := Steps(urls, mpId, env, i - 1);
      ghost var next := Steps(urls, mpId, env, i);
      assert next == prev + [step];
      assert next[..i - 1] == prev;
      assert Updated(next) == Updated(prev) + (if step.Stored? && step.updated then 1 else 0);
      assert Pauses(next, |urls|) == Pauses(prev, |urls|) + (if step.Stored? && i < |urls| then [i] else []);
      assert StoredOf(next) == StoredOf(prev) + (if step.Stored? then [step.article] else []);
      if step.Stored? {
        if step.updated {
          count := count + 1;
        }
        stored := stored + [step.article];
        if i < |urls| {
          pauses := pauses + [i];
        }
      }
      i := i + 1;
    }
    assert i - 1 == |urls|;
    r := Report(count > 0, count, pauses, stored);
  }
}
