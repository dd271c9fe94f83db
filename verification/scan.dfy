/** Leftmost search for the regular expressions the source passes to
    `re.search`. Every one of them has the shape
      PREFIX (CLASS+) CLOSE?
    where PREFIX is a fixed run of character sets, CLASS a character class
    and CLOSE an optional closing character outside CLASS. For that shape the
    greedy capture is the maximal run of CLASS characters after the prefix,
    and backtracking can never shorten it (a shorter run is followed by a
    CLASS character, which is not CLOSE). */
module Scan {
  import opened Options

  /** The character classes that follow a prefix in the source's patterns. */
  datatype CharClass =
    | IdChar    // [A-Za-z0-9_-]
    | NotAmp    // [^&]
    | NotQuote  // [^"]

  predicate InClass(c: char, k: CharClass) {
    match k
    case IdChar => ('A' <= c <= 'Z') || ('a' <= c <= 'z') || ('0' <= c <= '9') || c == '_' || c == '-'
    case NotAmp => c != '&'
    case NotQuote => c != '"'
  }

  datatype Pattern = Pattern(prefix: seq<set<char>>, body: CharClass, close: Option<char>)

  /** The prefix that matches exactly the literal `s`. */
  function Lit(s: string): (p: seq<set<char>>)
    ensures |p| == |s|
    ensures forall k :: 0 <= k < |s| ==> p[k] == {s[k]}
  {
    seq(|s|, k requires 0 <= k < |s| => {s[k]})
  }

  predicate PrefixAt(s: string, i: nat, pre: seq<set<char>>) {
    i + |pre| <= |s| && forall k :: 0 <= k < |pre| ==> s[i + k] in pre[k]
  }

  /** Length of the maximal run of `k`-characters starting at `j`. */
  function RunLen(s: string, j: nat, k: CharClass): (n: nat)
    requires j <= |s|
    ensures j + n <= |s|
    ensures forall t :: j <= t < j + n ==> InClass(s[t], k)
    ensures j + n < |s| ==> !InClass(s[j + n], k)
    decreases |s| - j
  {
    if j < |s| && InClass(s[j], k) then 1 + RunLen(s, j + 1, k) else 0
  }

  /** The pattern matches at position `i`. */
  predicate MatchAt(s: string, i: nat, p: Pattern) {
    && PrefixAt(s, i, p.prefix)
    && RunLen(s, i + |p.prefix|, p.body) > 0
    && (p.close.Some? ==>
          var e := i + |p.prefix| + RunLen(s, i + |p.prefix|, p.body);
          e < |s| && s[e] == p.close.value)
  }

  /** `i` is the position `re.search` reports: a match with none before it. */
  predicate IsFirstMatch(s: string, i: nat, p: Pattern) {
    MatchAt(s, i, p) && forall j :: 0 <= j < i ==> !MatchAt(s, j, p)
  }

  predicate NoMatch(s: string, p: Pattern) {
    forall i :: 0 <= i <= |s| ==> !MatchAt(s, i, p)
  }

  /** The text of group 1 of a match at `i`. */
  function Capture(s: string, i: nat, p: Pattern): (g: string)
    requires PrefixAt(s, i, p.prefix)
  {
    var j := i + |p.prefix|;
    s[j..j + RunLen(s, j, p.body)]
  }

  /** Leftmost match position at or after `from`. */
  function Search(s: string, p: Pattern, from: nat): (r: Option<nat>)
    requires from <= |s|
    ensures r.Some? ==> from <= r.value <= |s| && MatchAt(s, r.value, p)
    ensures forall j :: from <= j <= |s| && (r.None? || j < r.value) ==> !MatchAt(s, j, p)
    decreases |s| - from
  {
    if MatchAt(s, from, p) then Some(from)
    else if from == |s| then None
    else Search(s, p, from + 1)
  }

  /** `re.search(p, s)` followed by `.group(1)`: the capture of the first
      match, or `None` when the pattern matches nowhere. */
  function Find(s: string, p: Pattern): (r: Option<string>)
    ensures r.None? <==> NoMatch(s, p)
    ensures forall i :: IsFirstMatch(s, i, p) ==> r == Some(Capture(s, i, p))
    ensures r.Some? ==> |r.value| > 0 && forall k :: 0 <= k < |r.value| ==> InClass(r.value[k], p.body)
  {
    match Search(s, p, 0)
    case None => None
    case Some(i) =>
      assert IsFirstMatch(s, i, p);
      FirstMatchUnique(s, i, p);
      Some(Capture(s, i, p))
  }

  lemma FirstMatchUnique(s: string, i: nat, p: Pattern)
    requires IsFirstMatch(s, i, p)
    ensures forall j :: IsFirstMatch(s, j, p) ==> j == i
  {
  }

  /** A run of `k`-characters that is not continued is the maximal run. */
  lemma {:induction false} RunCovers(s: string, j: nat, run: string, k: CharClass)
    requires j + |run| <= |s| && s[j..j + |run|] == run
    requires forall t :: 0 <= t < |run| ==> InClass(run[t], k)
    requires j + |run| < |s| ==> !InClass(s[j + |run|], k)
    ensures RunLen(s, j, k) == |run|
    decreases |run|
  {
    if |run| > 0 {
      assert s[j] == run[0];
      assert s[j + 1..j + 1 + |run[1..]|] == run[1..];
      RunCovers(s, j + 1, run[1..], k);
    }
  }

  /** A match at `i` with nothing matching before it is what `Find`
      reports: its capture is the run after the prefix. */
  lemma FoundAt(s: string, i: nat, p: Pattern, run: string)
    requires PrefixAt(s, i, p.prefix)
    requires i + |p.prefix| + |run| <= |s| && s[i + |p.prefix|..i + |p.prefix| + |run|] == run
    requires |run| > 0 && forall t :: 0 <= t < |run| ==> InClass(run[t], p.body)
    requires i + |p.prefix| + |run| < |s| ==> !InClass(s[i + |p.prefix| + |run|], p.body)
    requires p.close.Some? ==> i + |p.prefix| + |run| < |s| && s[i + |p.prefix| + |run|] == p.close.value
    requires forall j :: 0 <= j < i ==> !MatchAt(s, j, p)
    ensures Find(s, p) == Some(run)
  {
    RunCovers(s, i + |p.prefix|, run, p.body);
    assert IsFirstMatch(s, i, p);
  }
}
