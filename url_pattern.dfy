/** The URL pattern of the plain-text extractor,
    `(?:(?:https?):\/\/)[\w/\-?=%~.]+\.[\w/\-&?=%~]+`, and `re.search` with it,
    written out as the backtracking matcher evaluates it. */
module UrlPattern {
  import opened Results
  import opened TextOps

  /** `[\w/\-?=%~.]`: the characters before the final dot. */
  predicate IsPathChar(c: char)
  {
    IsWordChar(c) || c == '/' || c == '-' || c == '?' || c == '=' || c == '%' || c == '~' || c == '.'
  }

  /** `[\w/\-&?=%~]`: the characters after it (no dot, but `&`). */
  predicate IsTailChar(c: char)
  {
    IsWordChar(c) || c == '/' || c == '-' || c == '&' || c == '?' || c == '=' || c == '%' || c == '~'
  }

  predicate InClass(c: char, tail: bool)
  {
    if tail then IsTailChar(c) else IsPathChar(c)
  }

  /** The length of the scheme at `p`: `https?` is greedy, so `https://` is
      tried before `http://`; 0 when neither is there. */
  function SchemeLength(t: string, p: nat): nat
  {
    if OccursAt(t, "https://", p) then 8
    else if OccursAt(t, "http://", p) then 7
    else 0
  }

  /** The end of the longest run of class characters starting at `q`. */
  function RunEnd(t: string, q: nat, tail: bool): (e: nat)
    requires q <= |t|
    ensures q <= e <= |t|
    ensures forall i | q <= i < e :: InClass(t[i], tail)
    ensures e < |t| ==> !InClass(t[e], tail)
    decreases |t| - q
  {
    if q < |t| && InClass(t[q], tail) then RunEnd(t, q + 1, tail) else q
  }

  /** At `k` the literal `\.` can match with a tail character after it. */
  predicate DotBeforeTail(t: string, k: int)
  {
    0 <= k && k + 1 < |t| && t[k] == '.' && IsTailChar(t[k + 1])
  }

  /** Backtracking out of the greedy path run: the largest `k` in `(lo, hi]`
      at which the dot and the tail can match. */
  function LastDot(t: string, lo: nat, hi: nat): (r: Option<nat>)
    requires hi < |t|
    ensures r.Some? ==> lo < r.value <= hi && DotBeforeTail(t, r.value)
    ensures r.Some? ==> forall j | r.value < j <= hi :: !DotBeforeTail(t, j)
    ensures r.None? ==> forall j | lo < j <= hi :: !DotBeforeTail(t, j)
    decreases hi
  {
    if hi <= lo then None
    else if DotBeforeTail(t, hi) then Some(hi)
    else LastDot(t, lo, hi - 1)
  }

  /** The end of the match that starts at `p`, if the pattern matches there. */
  function MatchAt(t: string, p: nat): (r: Option<nat>)
    requires p <= |t|
    ensures r.Some? ==> p < r.value <= |t|
  {
    var n := SchemeLength(t, p);
    if n == 0 then None
    else
      var q := p + n;
      var e := RunEnd(t, q, false);
      if e < q + 2 then None
      else
        match LastDot(t, q, e - 1)
        case None => None
        case Some(k) => Some(RunEnd(t, k + 1, true))
  }

  /** `re.search` from position `p` on: the leftmost start at which the
      pattern matches, with the end of that match. */
  function SearchFrom(t: string, p: nat): (r: Option<(nat, nat)>)
    requires p <= |t|
    ensures r.Some? ==> p <= r.value.0 < r.value.1 <= |t| && MatchAt(t, r.value.0) == Some(r.value.1)
    decreases |t| - p
  {
    match MatchAt(t, p)
    case Some(e) => Some((p, e))
    case None => if p == |t| then None else SearchFrom(t, p + 1)
  }

  /** The pattern matches at none of the positions `a` to `b - 1`. */
  ghost predicate NoMatchBetween(t: string, a: nat, b: nat)
    decreases b - a
  {
    a >= b || (a <= |t| && MatchAt(t, a).None? && NoMatchBetween(t, a + 1, b))
  }

  lemma {:induction false} NoMatchBetweenAt(t: string, a: nat, b: nat, q: nat)
    requires NoMatchBetween(t, a, b) && a <= q < b
    ensures q <= |t| && MatchAt(t, q).None?
    decreases b - a
  {
    if a < q {
      NoMatchBetweenAt(t, a + 1, b, q);
    }
  }

  /** The search skips only positions where the pattern does not match, and
      gives up only when it matches nowhere. */
  lemma {:induction false} SearchFromSkips(t: string, p: nat)
    requires p <= |t|
    ensures var r := SearchFrom(t, p);
      && (r.Some? ==> NoMatchBetween(t, p, r.value.0))
      && (r.None? ==> NoMatchBetween(t, p, |t| + 1))
    decreases |t| - p
  {
    if MatchAt(t, p).None? && p < |t| {
      SearchFromSkips(t, p + 1);
    }
  }

  /** `re.search(pattern, t)`: the span of the first match, if any. */
  function Search(t: string): Option<(nat, nat)>
  {
    SearchFrom(t, 0)
  }

  /** The pattern, stated on a candidate string: a scheme, a non-empty run of
      path characters, a dot, and a non-empty run of tail characters. */
  predicate ShapeAround(u: string, n: int, k: int)
  {
    && 0 < n < k < |u| - 1
    && u[k] == '.'
    && (forall i | n <= i < k :: IsPathChar(u[i]))
    && (forall i | k < i < |u| :: IsTailChar(u[i]))
  }

  ghost predicate UrlShape(u: string)
  {
    exists n, k | ShapeAround(u, n, k) ::
      (n == 7 && OccursAt(u, "http://", 0)) || (n == 8 && OccursAt(u, "https://", 0))
  }

  /** What every URL-shaped string looks like. */
  lemma UrlShapeFacts(u: string)
    requires UrlShape(u)
    ensures OccursAt(u, "http://", 0) || OccursAt(u, "https://", 0)
    ensures forall i | 0 <= i < |u| :: !IsLineBreak(u[i])
    ensures '.' in u
  {
    var n, k :| ShapeAround(u, n, k) &&
      ((n == 7 && OccursAt(u, "http://", 0)) || (n == 8 && OccursAt(u, "https://", 0)));
    forall i | 0 <= i < |u| ensures !IsLineBreak(u[i]) {
      if i < n {
        if n == 7 { assert u[i] == "http://"[i]; } else { assert u[i] == "https://"[i]; }
      }
    }
  }

  /** A scheme, a path run up to a dot, and a tail run after it make a
      URL-shaped string. */
  lemma SpanShape(t: string, p: nat, n: nat, k: nat, e: nat)
    requires p + n < k && k + 2 <= e <= |t| && t[k] == '.'
    requires forall i | p + n <= i < k :: IsPathChar(t[i])
    requires forall i | k < i < e :: IsTailChar(t[i])
    requires (n == 7 && OccursAt(t, "http://", p)) || (n == 8 && OccursAt(t, "https://", p))
    ensures UrlShape(t[p..e])
  {
    var u := t[p..e];
    assert u[k - p] == t[k];
    forall i | n <= i < k - p ensures IsPathChar(u[i]) {
      assert u[i] == t[p + i];
    }
    forall i | k - p < i < |u| ensures IsTailChar(u[i]) {
      assert u[i] == t[p + i];
    }
    assert ShapeAround(u, n, k - p);
    if n == 8 {
      assert u[..8] == t[p..p + 8];
      assert OccursAt(u, "https://", 0);
    } else {
      assert u[..7] == t[p..p + 7];
      assert OccursAt(u, "http://", 0);
    }
  }

  /** A match found at `p` is URL-shaped, and its tail is as long as it can be. */
  lemma MatchIsUrl(t: string, p: nat)
    requires p <= |t| && MatchAt(t, p).Some?
    ensures var e := MatchAt(t, p).value;
      p < e <= |t| && UrlShape(t[p..e]) && (e == |t| || !IsTailChar(t[e]))
  {
    var n := SchemeLength(t, p);
    var q := p + n;
    var eA := RunEnd(t, q, false);
    var k := LastDot(t, q, eA - 1).value;
    var e := RunEnd(t, k + 1, true);
    assert MatchAt(t, p) == Some(e);
    assert e >= k + 2;
    assert forall i | q <= i < k :: InClass(t[i], false);
    assert forall i | k < i < e :: InClass(t[i], true);
    SpanShape(t, p, n, k, e);
  }

  /** The scheme a URL-shaped string at `p` starts with is the one the
      greedy `https?` takes. */
  lemma SchemeOfShape(t: string, p: nat, e: nat, n: int)
    requires p <= e <= |t| && n < e - p
    requires (n == 7 && OccursAt(t[p..e], "http://", 0)) || (n == 8 && OccursAt(t[p..e], "https://", 0))
    ensures SchemeLength(t, p) == n
  {
    var u := t[p..e];
    if n == 8 {
      assert t[p..p + 8] == u[..8];
    } else {
      assert t[p..p + 7] == u[..7];
      assert t[p + 4] == u[4] == ':';
      assert !OccursAt(t, "https://", p);
    }
  }

  /** Conversely, if a URL-shaped string starts at `p`, the pattern matches at `p`. */
  lemma UrlIsMatched(t: string, p: nat, e: nat)
    requires p <= e <= |t| && UrlShape(t[p..e])
    ensures MatchAt(t, p).Some?
  {
    var u := t[p..e];
    var n, k :| ShapeAround(u, n, k) &&
      ((n == 7 && OccursAt(u, "http://", 0)) || (n == 8 && OccursAt(u, "https://", 0)));
    SchemeOfShape(t, p, e, n);
    ShapeInText(t, p, e, n, k);
    var q := p + n;
    var eA := RunEnd(t, q, false);
    var dot := p + k;
    assert dot < eA;
    assert LastDot(t, q, eA - 1).Some?;
  }

  /** No URL-shaped span starting at `p` ends after the match found there:
      backtracking gives up the path run only down to its last usable dot,
      and the tail run it then takes is as long as it can be. */
  lemma ShapeEndsWithinMatch(t: string, p: nat, e': nat)
    requires p <= e' <= |t| && UrlShape(t[p..e'])
    ensures MatchAt(t, p).Some? && e' <= MatchAt(t, p).value
  {
    var u := t[p..e'];
    var n, d :| ShapeAround(u, n, d) &&
      ((n == 7 && OccursAt(u, "http://", 0)) || (n == 8 && OccursAt(u, "https://", 0)));
    SchemeOfShape(t, p, e', n);
    ShapeInText(t, p, e', n, d);
    ShapeTailInText(t, p, e', n, d);
    MatchEndBound(t, p, n, p + d, e');
  }

  /** The matcher's end, from the pieces of a URL-shaped span read on `t`: a
      scheme of length `n`, path characters up to the dot at `dot`, and tail
      characters after it up to `m`. */
  lemma MatchEndBound(t: string, p: nat, n: nat, dot: nat, m: nat)
    requires 0 < n && SchemeLength(t, p) == n && p + n < dot && m <= |t|
    requires DotBeforeTail(t, dot)
    requires forall i | p + n <= i <= dot :: InClass(t[i], false)
    requires forall i | dot < i < m :: IsTailChar(t[i])
    ensures MatchAt(t, p).Some? && m <= MatchAt(t, p).value
  {
    var q := p + n;
    var eA := RunEnd(t, q, false);
    assert dot < eA;
    var k := LastDot(t, q, eA - 1).value;
    assert dot <= k;
    var e := RunEnd(t, k + 1, true);
    assert MatchAt(t, p) == Some(e);
    TailReachesEnd(t, dot, k, m);
  }

  /** The tail of `t[p..e]` read on `t` itself. */
  lemma ShapeTailInText(t: string, p: nat, e: nat, n: int, k: int)
    requires p <= e <= |t| && ShapeAround(t[p..e], n, k)
    ensures forall i | p + k < i < e :: IsTailChar(t[i])
  {
    var u := t[p..e];
    forall i | p + k < i < e ensures IsTailChar(t[i]) {
      assert t[i] == u[i - p];
    }
  }

  /** With tail characters from after `dot` up to `m`, the tail run the
      matcher takes after the dot `k` it chose, `k` at or after `dot`,
      reaches `m`. */
  lemma TailReachesEnd(t: string, dot: nat, k: nat, m: nat)
    requires dot <= k && k + 1 < |t| && t[k] == '.' && m <= |t|
    requires forall i | dot < i < m :: IsTailChar(t[i])
    ensures m <= RunEnd(t, k + 1, true)
  {
    if k == dot {
      if k + 1 <= m {
        RunEndCovers(t, k + 1, true, m);
      }
    } else {
      assert !IsTailChar(t[k]);
      assert m <= k;
    }
  }

  /** A run of class characters from `q` to `m` is no longer than the run
      `RunEnd` takes. */
  lemma {:induction false} RunEndCovers(t: string, q: nat, tail: bool, m: nat)
    requires q <= m <= |t|
    requires forall i | q <= i < m :: InClass(t[i], tail)
    ensures m <= RunEnd(t, q, tail)
    decreases m - q
  {
    if q < m {
      RunEndCovers(t, q + 1, tail, m);
    }
  }

  /** The match found at `p` is the longest URL-shaped span starting there. */
  lemma MatchIsLongest(t: string, p: nat)
    requires p <= |t| && MatchAt(t, p).Some?
    ensures var e := MatchAt(t, p).value;
      UrlShape(t[p..e]) && forall e' | e < e' <= |t| :: !UrlShape(t[p..e'])
  {
    var e := MatchAt(t, p).value;
    MatchIsUrl(t, p);
    forall e' | e < e' <= |t| ensures !UrlShape(t[p..e']) {
      if UrlShape(t[p..e']) {
        ShapeEndsWithinMatch(t, p, e');
        assert false;
      }
    }
  }

  /** The shape of `t[p..e]` read on `t` itself. */
  lemma ShapeInText(t: string, p: nat, e: nat, n: int, k: int)
    requires p <= e <= |t| && ShapeAround(t[p..e], n, k)
    ensures forall i | p + n <= i <= p + k :: InClass(t[i], false)
    ensures DotBeforeTail(t, p + k)
  {
    var u := t[p..e];
    forall i | p + n <= i <= p + k ensures InClass(t[i], false) {
      assert t[i] == u[i - p];
    }
    assert t[p + k] == u[k];
    assert t[p + k + 1] == u[k + 1];
  }

  /** `t[s..e]` is the leftmost-longest URL-shaped span of `t`: no
      URL-shaped span starts before `s`, and none starting at `s` ends
      after `e`. */
  ghost predicate LeftmostLongest(t: string, s: nat, e: nat)
  {
    && s <= e <= |t| && UrlShape(t[s..e])
    && (forall p, e' | 0 <= p < s && p <= e' <= |t| :: !UrlShape(t[p..e']))
    && (forall e' | e < e' <= |t| :: !UrlShape(t[s..e']))
  }

  /** `u` is the text of the leftmost-longest URL-shaped span of `t`. */
  ghost predicate IsFirstUrl(t: string, u: string)
  {
    exists s: nat, e: nat | LeftmostLongest(t, s, e) :: u == t[s..e]
  }

  /** There is at most one leftmost-longest span. */
  lemma LeftmostLongestUnique(t: string, s1: nat, e1: nat, s2: nat, e2: nat)
    requires LeftmostLongest(t, s1, e1) && LeftmostLongest(t, s2, e2)
    ensures s1 == s2 && e1 == e2
  {
    assert !(s1 < s2) by {
      assert UrlShape(t[s1..e1]);
    }
    assert !(s2 < s1) by {
      assert UrlShape(t[s2..e2]);
    }
    assert !(e1 < e2) by {
      assert UrlShape(t[s1..e2]);
    }
    assert !(e2 < e1) by {
      assert UrlShape(t[s2..e1]);
    }
  }

  /** `re.search` finds the leftmost-longest URL-shaped span, and finds one
      whenever there is one. */
  lemma SearchFindsLeftmostUrl(t: string)
    ensures Search(t).Some? ==> LeftmostLongest(t, Search(t).value.0, Search(t).value.1)
    ensures Search(t).None? <==> forall p, e' | 0 <= p <= e' <= |t| :: !UrlShape(t[p..e'])
  {
    SearchFromSkips(t, 0);
    if Search(t).Some? {
      var (s, e) := Search(t).value;
      MatchIsLongest(t, s);
      forall p, e' | 0 <= p < s && p <= e' <= |t| ensures !UrlShape(t[p..e']) {
        NoMatchBetweenAt(t, 0, s, p);
        if UrlShape(t[p..e']) {
          UrlIsMatched(t, p, e');
          assert false;
        }
      }
    } else {
      forall p, e' | 0 <= p <= e' <= |t| ensures !UrlShape(t[p..e']) {
        NoMatchBetweenAt(t, 0, |t| + 1, p);
        if UrlShape(t[p..e']) {
          UrlIsMatched(t, p, e');
          assert false;
        }
      }
    }
  }

  /** No substring of `t` is URL-shaped. */
  ghost predicate NoUrlIn(t: string)
  {
    forall p, e | 0 <= p <= e <= |t| :: !UrlShape(t[p..e])
  }

  /** The text of the first match of `re.search`, if there is one: the
      leftmost-longest URL-shaped span, and there is none only when no
      substring is URL-shaped. */
  function FirstUrl(t: string): (r: Option<string>)
    ensures r.Some? ==> IsSubstring(r.value, t) && UrlShape(r.value)
    ensures r.Some? ==> IsFirstUrl(t, r.value)
    ensures r.None? <==> NoUrlIn(t)
  {
    SearchFindsLeftmostUrl(t);
    match Search(t)
    case None => None
    case Some((s, e)) =>
      assert OccursAt(t, t[s..e], s);
      assert LeftmostLongest(t, s, e);
      Some(t[s..e])
  }
}
