/** String helpers shared by the parsers: Python's whitespace class,
    `str.strip()`, `str.split(sep)`, the part of `str.lower()` the parsers
    depend on, substring search and decimal digits. */
module Text {

  /** The characters for which Python's `str.isspace()` holds. In a `str`
      regular expression `\s` matches exactly these characters. */
  predicate IsSpace(c: char) {
    || c == ' '
    || ('\t' <= c <= '\r')
    || ('\U{1c}' <= c <= '\U{1f}')
    || c == '\U{85}' || c == '\U{a0}' || c == '\U{1680}'
    || ('\U{2000}' <= c <= '\U{200a}')
    || c == '\U{2028}' || c == '\U{2029}' || c == '\U{202f}'
    || c == '\U{205f}' || c == '\U{3000}'
  }

  predicate IsDigit(c: char) {
    '0' <= c <= '9'
  }

  predicate AllSpace(s: string) {
    forall k :: 0 <= k < |s| ==> IsSpace(s[k])
  }

  /** Number of leading whitespace characters. */
  function LeadSpaces(s: string): (n: nat)
    ensures n <= |s|
    ensures AllSpace(s[..n])
    ensures n < |s| ==> !IsSpace(s[n])
  {
    if |s| > 0 && IsSpace(s[0]) then 1 + LeadSpaces(s[1..]) else 0
  }

  /** Number of trailing whitespace characters. */
  function TrailSpaces(s: string): (n: nat)
    ensures n <= |s|
    ensures AllSpace(s[|s| - n..])
    ensures n < |s| ==> !IsSpace(s[|s| - n - 1])
  {
    if |s| > 0 && IsSpace(s[|s| - 1]) then 1 + TrailSpaces(s[..|s| - 1]) else 0
  }

  /** Python's `s.strip()` with no argument. */
  function Strip(s: string): (r: string)
    ensures |r| <= |s|
    ensures |r| > 0 ==> !IsSpace(r[0]) && !IsSpace(r[|r| - 1])
    ensures r == [] <==> AllSpace(s)
  {
    var a := LeadSpaces(s);
    var t := s[a..];
    var r := t[..|t| - TrailSpaces(t)];
    StripEmpty(s, a, t, r);
    r
  }

  /** What `strip()` removes: the input is the result between two
      whitespace-only margins. */
  lemma StripShape(s: string)
    ensures exists pre, post :: s == pre + Strip(s) + post && AllSpace(pre) && AllSpace(post)
  {
    var a := LeadSpaces(s);
    var t := s[a..];
    var n := TrailSpaces(t);
    Margins(s, a, t, n);
    ShapeWitness(s, s[..a], Strip(s), t[|t| - n..]);
  }

  lemma Margins(s: string, a: nat, t: string, n: nat)
    requires a == LeadSpaces(s) && t == s[a..] && n == TrailSpaces(t)
    ensures Strip(s) == t[..|t| - n]
    ensures AllSpace(s[..a]) && AllSpace(t[|t| - n..])
    ensures s == s[..a] + t[..|t| - n] + t[|t| - n..]
  {
    Recompose(s, a, |t| - n);
  }

  lemma Recompose(s: string, a: nat, m: nat)
    requires a + m <= |s|
    ensures s == s[..a] + s[a..][..m] + s[a..][m..]
  {
    assert s[a..] == s[a..][..m] + s[a..][m..];
    assert s == s[..a] + s[a..];
  }

  lemma ShapeWitness(s: string, pre: string, r: string, post: string)
    requires s == pre + r + post && AllSpace(pre) && AllSpace(post)
    ensures exists p, q :: s == p + r + q && AllSpace(p) && AllSpace(q)
  {
  }

  lemma StripEmpty(s: string, a: nat, t: string, r: string)
    requires a == LeadSpaces(s) && t == s[a..] && r == t[..|t| - TrailSpaces(t)]
    ensures r == [] <==> AllSpace(s)
  {
    if r == [] {
      assert a == |s|;
      assert s[..a] == s;
    }
    if AllSpace(s) {
      assert a == |s|;
    }
  }

  /** Stripping removes whitespace only: every other character keeps its
      number of occurrences. */
  lemma StripCount(s: string, c: char)
    requires !IsSpace(c)
    ensures multiset(Strip(s))[c] == multiset(s)[c]
  {
    var a := LeadSpaces(s);
    var t := s[a..];
    var n := TrailSpaces(t);
    Margins(s, a, t, n);
    var head, r, tail := s[..a], t[..|t| - n], t[|t| - n..];
    NoSpaceCount(head, c);
    NoSpaceCount(tail, c);
    assert multiset(head + r + tail) == multiset(head) + multiset(r) + multiset(tail);
  }

  lemma NoSpaceCount(x: string, c: char)
    requires AllSpace(x) && !IsSpace(c)
    ensures multiset(x)[c] == 0
  {
  }

  /** Stripping is idempotent. */
  lemma StripIdempotent(s: string)
    ensures Strip(Strip(s)) == Strip(s)
  {
    var r := Strip(s);
    assert LeadSpaces(r) == 0;
    assert TrailSpaces(r) == 0;
  }

  /** Position of the first `c` in `s`, or `|s|` when there is none. */
  function IndexOf(s: string, c: char): (i: nat)
    ensures i <= |s|
    ensures i < |s| ==> s[i] == c
    ensures c !in s[..i]
  {
    if |s| == 0 then 0
    else if s[0] == c then 0
    else
      var j := IndexOf(s[1..], c);
      assert s[..1 + j] == [s[0]] + s[1..][..j];
      1 + j
  }

  /** Parts joined back with the separator between consecutive parts. */
  function Join(parts: seq<string>, sep: char): string
    requires |parts| >= 1
  {
    if |parts| == 1 then parts[0] else parts[0] + [sep] + Join(parts[1..], sep)
  }

  /** Python's `s.split(sep)` for a one-character separator: one more part
      than there are separators, no part holds the separator, and joining
      the parts gives `s` back. */
  function Split(s: string, sep: char): (parts: seq<string>)
    ensures |parts| == multiset(s)[sep] + 1
    ensures forall k :: 0 <= k < |parts| ==> sep !in parts[k]
    ensures Join(parts, sep) == s
    decreases |s|
  {
    var i := IndexOf(s, sep);
    if i == |s| then
      assert s[..i] == s;
      [s]
    else
      var rest := Split(s[i + 1..], sep);
      SplitStep(s, sep, i, rest);
      [s[..i]] + rest
  }

  /** One separator found at `i`: the part before it, followed by the
      parts of the remainder, splits all of `s`. */
  lemma SplitStep(s: string, sep: char, i: nat, rest: seq<string>)
    requires i < |s| && s[i] == sep && sep !in s[..i]
    requires |rest| == multiset(s[i + 1..])[sep] + 1
    requires Join(rest, sep) == s[i + 1..]
    ensures |[s[..i]] + rest| == multiset(s)[sep] + 1
    ensures Join([s[..i]] + rest, sep) == s
  {
    var head := s[..i];
    assert s == head + [sep] + s[i + 1..];
    SepCount(head, s[i + 1..], sep);
    JoinCons(head, rest, sep);
  }

  lemma JoinCons(head: string, rest: seq<string>, sep: char)
    requires |rest| >= 1
    ensures Join([head] + rest, sep) == head + [sep] + Join(rest, sep)
  {
    assert ([head] + rest)[1..] == rest;
  }

  lemma SepCount(head: string, tail: string, sep: char)
    requires sep !in head
    ensures multiset(head + [sep] + tail)[sep] == multiset(tail)[sep] + 1
  {
    assert multiset(head + [sep] + tail) == multiset(head) + multiset([sep]) + multiset(tail);
  }

  /** `str.lower()` on one character, as far as it can produce an ASCII
      letter: ASCII capitals and the Kelvin sign (which lowers to `k`). Every
      other character lowers to characters that are not ASCII letters, or
      (U+0130) to `i` followed by U+0307, and that U+0307 keeps any
      comparison with an ASCII word from matching across it. */
  function LowerChar(c: char): char {
    if 'A' <= c <= 'Z' then (c as int + 32) as char
    else if c == '\U{212A}' then 'k'
    else c
  }

  function Lower(s: string): (r: string)
    ensures |r| == |s|
    ensures forall k :: 0 <= k < |s| ==> r[k] == LowerChar(s[k])
  {
    seq(|s|, k requires 0 <= k < |s| => LowerChar(s[k]))
  }

  predicate StartsWith(s: string, p: string) {
    |p| <= |s| && s[..|p|] == p
  }

  /** `p` occurs in `s` starting at position `i`. */
  predicate OccursAt(s: string, p: string, i: int) {
    0 <= i && i + |p| <= |s| && s[i..i + |p|] == p
  }

  /** Python's `p in s` for strings: a scan from the left, which holds
      exactly when `p` occurs somewhere in `s`. */
  predicate Contains(s: string, p: string)
    ensures Contains(s, p) <==> exists i :: OccursAt(s, p, i)
    decreases |s|
  {
    if StartsWith(s, p) then
      assert OccursAt(s, p, 0);
      true
    else if |s| == 0 then false
    else
      var found := Contains(s[1..], p);
      OccursShift(s, p);
      found
  }

  /** Past a non-matching first position, the occurrences are those of
      the rest, one position on. */
  lemma OccursShift(s: string, p: string)
    requires |s| > 0 && !StartsWith(s, p)
    ensures (exists i :: OccursAt(s, p, i)) <==> (exists i :: OccursAt(s[1..], p, i))
  {
    if exists i :: OccursAt(s, p, i) {
      var i :| OccursAt(s, p, i);
      assert i != 0;
      assert s[1..][i - 1..i - 1 + |p|] == s[i..i + |p|];
      assert OccursAt(s[1..], p, i - 1);
    }
    if exists i :: OccursAt(s[1..], p, i) {
      var i :| OccursAt(s[1..], p, i);
      assert s[1..][i..i + |p|] == s[i + 1..i + 1 + |p|];
      assert OccursAt(s, p, i + 1);
    }
  }

  lemma {:induction false} ContainsAppend(a: string, b: string, p: string)
    requires Contains(a, p) || Contains(b, p)
    ensures Contains(a + b, p)
    decreases |a|
  {
    if StartsWith(a, p) {
      assert (a + b)[..|p|] == a[..|p|];
    } else if |a| > 0 && Contains(a[1..], p) {
      ContainsAppend(a[1..], b, p);
      assert (a + b)[1..] == a[1..] + b;
    } else if |a| > 0 {
      ContainsAppend(a[1..], b, p);
      assert (a + b)[1..] == a[1..] + b;
    } else {
      assert a + b == b;
    }
  }

  /** The value of a string of decimal digits. */
  function DigitsValue(s: string): (v: nat)
    requires forall k :: 0 <= k < |s| ==> IsDigit(s[k])
  {
    if |s| == 0 then 0
    else
      assert IsDigit(s[|s| - 1]);
      assert forall k :: 0 <= k < |s| - 1 ==> s[..|s| - 1][k] == s[k];
      10 * DigitsValue(s[..|s| - 1]) + (s[|s| - 1] as int - '0' as int)
  }

  function DigitChar(d: nat): (c: char)
    requires d < 10
    ensures IsDigit(c)
    ensures c as int - '0' as int == d
  {
    ('0' as int + d) as char
  }

  /** Python's `str(n)` for a non-negative integer. */
  function Decimal(n: nat): (s: string)
    ensures |s| >= 1
    ensures forall k :: 0 <= k < |s| ==> IsDigit(s[k])
    ensures DigitsValue(s) == n
    ensures n < 10 <==> |s| == 1
    ensures 10 <= n ==> Decimal(n / 10) == s[..|s| - 1]
  {
    if n < 10 then [DigitChar(n)]
    else
      var s := Decimal(n / 10) + [DigitChar(n % 10)];
      assert s[..|s| - 1] == Decimal(n / 10);
      s
  }

  /** The decimal form of `n` has exactly four digits iff `n` has four digits. */
  lemma {:induction false} DecimalLength(n: nat)
    ensures |Decimal(n)| == 4 <==> 1000 <= n <= 9999
  {
    if n >= 10 {
      DecimalLength(n / 10);
      if n >= 100 {
        DecimalLength(n / 100);
      }
    }
  }
}
