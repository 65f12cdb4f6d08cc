/** The three unsubscribe-link extractors of `EmailUnsubscriber`: the
    plain-text one, the HTML one (over the anchors of the parsed document) and
    the one that walks the parts of a message and merges their links. */
module Extractors {
  import opened Results
  import opened TextOps
  import opened LinkLists
  import opened UrlPattern

  /** `UNSUBSCRIBE_KEYWORDS`, in their scan order. */
  const UnsubscribeKeywords: seq<string> := [
    "unsubscribe",
    "[unsubscribe]",
    "exclude",
    "opt-out",
    "opt out",
    "if you no longer wish to receive this email",
    "subscription"
  ]

  // ---------------------------------------------------------------------------
  // Plain text

  /** What one keyword contributes to a plain-text body: the first URL after
      the keyword's first case-insensitive occurrence, once line breaks are
      removed from that point on. It is the leftmost-longest URL-shaped span
      of that text. */
  function KeywordLink(body: string, keyword: string): (r: Option<string>)
    ensures var idx := Find(Lower(body), keyword);
      r.Some? ==>
        && OccursAt(Lower(body), keyword, idx)
        && IsSubstring(r.value, StripLineBreaks(body[idx..]))
        && UrlShape(r.value)
        && IsFirstUrl(StripLineBreaks(body[idx..]), r.value)
  {
    var idx := Find(Lower(body), keyword);
    if idx == -1 then None else FirstUrl(StripLineBreaks(body[idx..]))
  }

  /** A keyword contributes nothing exactly when it is absent from the
      lower-cased body or no URL-shaped text follows its first occurrence. */
  lemma KeywordLinkAbsent(body: string, keyword: string)
    ensures var idx := Find(Lower(body), keyword);
      KeywordLink(body, keyword).None? <==> (idx == -1 || NoUrlIn(StripLineBreaks(body[idx..])))
  {
  }

  /** The contribution of each keyword, in keyword order. */
  function KeywordCandidates(body: string, keywords: seq<string>): seq<Option<string>>
  {
    MapBack(KeywordLinkIn(body), keywords)
  }

  function KeywordLinkIn(body: string): string -> Option<string>
  {
    keyword => KeywordLink(body, keyword)
  }

  lemma KeywordCandidatesAt(body: string, keywords: seq<string>)
    ensures |KeywordCandidates(body, keywords)| == |keywords|
    ensures forall k | 0 <= k < |keywords| :: KeywordCandidates(body, keywords)[k] == KeywordLink(body, keywords[k])
  {
    MapBackAt(KeywordLinkIn(body), keywords);
  }

  /** The links the plain-text extractor returns for `body`. */
  function TextPlainLinks(body: string): seq<string>
  {
    AppendAllNew([], Somes(KeywordCandidates(body, UnsubscribeKeywords)))
  }

  lemma CandidatesSnoc(body: string, keywords: seq<string>, k: nat)
    requires k < |keywords|
    ensures Somes(KeywordCandidates(body, keywords[..k + 1]))
         == Somes(KeywordCandidates(body, keywords[..k]))
            + (if KeywordLink(body, keywords[k]).Some? then [KeywordLink(body, keywords[k]).value] else [])
  {
    assert keywords[..k + 1][..k] == keywords[..k];
  }

  /** `_get_unsubscribe_links_from_text_plain`. */
  method GetUnsubscribeLinksFromTextPlain(body: string) returns (links: seq<string>)
    ensures links == TextPlainLinks(body)
    ensures NoDuplicates(links) && |links| <= |UnsubscribeKeywords|
    ensures forall l | l in links :: exists k | 0 <= k < |UnsubscribeKeywords| ::
              KeywordLink(body, UnsubscribeKeywords[k]) == Some(l)
  {
    links := [];
    for k := 0 to |UnsubscribeKeywords|
      invariant links == AppendAllNew([], Somes(KeywordCandidates(body, UnsubscribeKeywords[..k])))
    {
      var keyword := UnsubscribeKeywords[k];
      var found: Option<string> := None;
      var unsubIdx := Find(Lower(body), keyword);
      if unsubIdx != -1 {
        var trimmedBody := StripLineBreaks(body[unsubIdx..]);
        var span := Search(trimmedBody);
        if span.Some? {
          found := Some(trimmedBody[span.value.0..span.value.1]);
        }
      }
      assert found == KeywordLink(body, keyword);
      if found.Some? && found.value !in links {
        links := links + [found.value];
      }
      StepPlain(body, k);
    }
    assert UnsubscribeKeywords[..|UnsubscribeKeywords|] == UnsubscribeKeywords;
    TextPlainLinksFacts(body);
  }

  lemma StepPlain(body: string, k: nat)
    requires k < |UnsubscribeKeywords|
    ensures var found := KeywordLink(body, UnsubscribeKeywords[k]);
      var before := AppendAllNew([], Somes(KeywordCandidates(body, UnsubscribeKeywords[..k])));
      AppendAllNew([], Somes(KeywordCandidates(body, UnsubscribeKeywords[..k + 1])))
        == if found.Some? then AppendNew(before, found.value) else before
  {
    CandidatesSnoc(body, UnsubscribeKeywords, k);
    var found := KeywordLink(body, UnsubscribeKeywords[k]);
    if found.Some? {
      AppendAllNewSnoc([], Somes(KeywordCandidates(body, UnsubscribeKeywords[..k])), found.value);
    } else {
      assert Somes(KeywordCandidates(body, UnsubscribeKeywords[..k + 1]))
          == Somes(KeywordCandidates(body, UnsubscribeKeywords[..k]));
    }
  }

  /** The plain-text links hold no duplicates and at most one link per keyword;
      each is the link some keyword found, a URL with no line break in it. */
  lemma TextPlainLinksFacts(body: string)
    ensures var r := TextPlainLinks(body);
      && NoDuplicates(r)
      && |r| <= |UnsubscribeKeywords|
      && (forall l | l in r :: exists k | 0 <= k < |UnsubscribeKeywords| ::
            KeywordLink(body, UnsubscribeKeywords[k]) == Some(l))
      && (forall l | l in r :: UrlShape(l) && (OccursAt(l, "http://", 0) || OccursAt(l, "https://", 0)))
      && (forall l | l in r :: forall i | 0 <= i < |l| :: !IsLineBreak(l[i]))
  {
    var c := KeywordCandidates(body, UnsubscribeKeywords);
    var r := TextPlainLinks(body);
    KeywordCandidatesAt(body, UnsubscribeKeywords);
    forall l | l in r
      ensures exists k | 0 <= k < |UnsubscribeKeywords| :: KeywordLink(body, UnsubscribeKeywords[k]) == Some(l)
    {
      assert Some(l) in c;
      var k :| 0 <= k < |c| && c[k] == Some(l);
      assert KeywordLink(body, UnsubscribeKeywords[k]) == Some(l);
    }
    forall l | l in r
      ensures UrlShape(l) && (OccursAt(l, "http://", 0) || OccursAt(l, "https://", 0))
      ensures forall i | 0 <= i < |l| :: !IsLineBreak(l[i])
    {
      var k :| 0 <= k < |UnsubscribeKeywords| && KeywordLink(body, UnsubscribeKeywords[k]) == Some(l);
      UrlShapeFacts(l);
    }
  }

  /** Conversely, the link every keyword finds is among the plain-text
      links. */
  lemma TextPlainLinksComplete(body: string, k: nat)
    requires k < |UnsubscribeKeywords| && KeywordLink(body, UnsubscribeKeywords[k]).Some?
    ensures KeywordLink(body, UnsubscribeKeywords[k]).value in TextPlainLinks(body)
  {
    KeywordCandidatesAt(body, UnsubscribeKeywords);
  }

  /** Plain-text links come out in keyword order: the keyword that first
      produced an earlier link comes earlier in the keyword list. */
  lemma TextPlainKeywordOrder(body: string)
    ensures var r := TextPlainLinks(body);
      var c := KeywordCandidates(body, UnsubscribeKeywords);
      forall i, j | 0 <= i < j < |r| ::
        Some(r[i]) in c && Some(r[j]) in c && FirstIndex(c, Some(r[i])) < FirstIndex(c, Some(r[j]))
  {
    var c := KeywordCandidates(body, UnsubscribeKeywords);
    var r := TextPlainLinks(body);
    FirstSeenOrder(Somes(c));
    forall i, j | 0 <= i < j < |r|
      ensures Some(r[i]) in c && Some(r[j]) in c && FirstIndex(c, Some(r[i])) < FirstIndex(c, Some(r[j]))
    {
      SomesOrder(c, r[i], r[j]);
    }
  }

  // ---------------------------------------------------------------------------
  // HTML

  /** An `<a>` element of the parsed document: the text its XPath `text()`
      yields and its `href` attribute, if it has one. */
  datatype Anchor = Anchor(text: string, href: Option<string>)

  /** `.//a[contains(text(), needle)]`: the anchors, in document order, whose
      text contains `needle`. */
  function Matching(anchors: seq<Anchor>, needle: string): (r: seq<Anchor>)
    ensures |r| <= |anchors|
    decreases |anchors|
  {
    if anchors == [] then []
    else
      var last := anchors[|anchors| - 1];
      Matching(anchors[..|anchors| - 1], needle) + (if Contains(last.text, needle) then [last] else [])
  }

  /** The query keeps exactly the anchors whose text contains the needle. */
  lemma {:induction false} MatchingMembers(anchors: seq<Anchor>, needle: string)
    ensures forall a | a in Matching(anchors, needle) :: a in anchors && Contains(a.text, needle)
    ensures forall a | a in anchors && Contains(a.text, needle) :: a in Matching(anchors, needle)
    decreases |anchors|
  {
    if anchors != [] {
      var init := anchors[..|anchors| - 1];
      MatchingMembers(init, needle);
      assert anchors == init + [anchors[|anchors| - 1]];
    }
  }

  /** The query keeps document order: the matches in the first part of a
      document come before those in the rest. */
  lemma {:induction false} MatchingAppend(front: seq<Anchor>, back: seq<Anchor>, needle: string)
    ensures Matching(front + back, needle) == Matching(front, needle) + Matching(back, needle)
    decreases |back|
  {
    if back == [] {
      assert front + back == front;
    } else {
      var init := back[..|back| - 1];
      MatchingAppend(front, init, needle);
      MatchingAppendStep(front, init, back[|back| - 1], needle);
      assert init + [back[|back| - 1]] == back;
    }
  }

  /** One step of the induction: appending an anchor to the back part. */
  lemma MatchingAppendStep(front: seq<Anchor>, init: seq<Anchor>, last: Anchor, needle: string)
    requires Matching(front + init, needle) == Matching(front, needle) + Matching(init, needle)
    ensures Matching(front + (init + [last]), needle) == Matching(front, needle) + Matching(init + [last], needle)
  {
    var kept := if Contains(last.text, needle) then [last] else [];
    var m1, m2 := Matching(front, needle), Matching(init, needle);
    assert front + (init + [last]) == (front + init) + [last];
    MatchingSnoc(front + init, last, needle);
    MatchingSnoc(init, last, needle);
    assert (m1 + m2) + kept == m1 + (m2 + kept);
  }

  lemma MatchingSnoc(anchors: seq<Anchor>, a: Anchor, needle: string)
    ensures Matching(anchors + [a], needle)
         == Matching(anchors, needle) + (if Contains(a.text, needle) then [a] else [])
  {
    assert (anchors + [a])[..|anchors|] == anchors;
  }

  /** One anchor is kept exactly when its text contains the needle. */
  lemma MatchingSingle(a: Anchor, needle: string)
    ensures Matching([a], needle) == if Contains(a.text, needle) then [a] else []
  {
    assert [a][..0] == [];
  }

  /** `a` is picked for `keyword`: its text contains the keyword, or it
      contains the title-cased keyword while no anchor contains the keyword. */
  predicate PickedFor(anchors: seq<Anchor>, a: Anchor, keyword: string)
  {
    && a in anchors
    && (|| Contains(a.text, keyword)
        || (Contains(a.text, Title(keyword)) && forall b | b in anchors :: !Contains(b.text, keyword)))
  }

  /** The anchors selected for one keyword, `xpath(lower-case query) or
      xpath(title-cased query)`: the title-cased query is asked only when the
      lower-case one finds nothing. */
  function Selected(anchors: seq<Anchor>, keyword: string): (r: seq<Anchor>)
    ensures Matching(anchors, keyword) != [] ==> r == Matching(anchors, keyword)
    ensures forall a | a in r :: PickedFor(anchors, a, keyword)
    ensures forall a | a in anchors && PickedFor(anchors, a, keyword) :: a in r
  {
    MatchingMembers(anchors, keyword);
    MatchingMembers(anchors, Title(keyword));
    var lower := Matching(anchors, keyword);
    if lower != [] then
      assert lower[0] in lower;
      lower
    else Matching(anchors, Title(keyword))
  }

  /** The non-empty `href`s of `elements`, in order. */
  function Hrefs(elements: seq<Anchor>): (r: seq<string>)
    ensures forall h | h in r :: h != "" && exists a | a in elements :: a.href == Some(h)
    decreases |elements|
  {
    if elements == [] then []
    else
      var last := elements[|elements| - 1];
      Hrefs(elements[..|elements| - 1])
        + (if last.href.Some? && last.href.value != "" then [last.href.value] else [])
  }

  lemma {:induction false} HrefsComplete(elements: seq<Anchor>, a: Anchor)
    requires a in elements && a.href.Some? && a.href.value != ""
    ensures a.href.value in Hrefs(elements)
    decreases |elements|
  {
    if a != elements[|elements| - 1] {
      HrefsComplete(elements[..|elements| - 1], a);
    }
  }

  /** All candidate hrefs: for each keyword in order, the hrefs of its selected
      anchors in document order. */
  function HtmlCandidates(anchors: seq<Anchor>, keywords: seq<string>): seq<string>
    decreases |keywords|
  {
    if keywords == [] then []
    else
      HtmlCandidates(anchors, keywords[..|keywords| - 1])
        + Hrefs(Selected(anchors, keywords[|keywords| - 1]))
  }

  /** The links the HTML extractor returns for a document with these anchors. */
  function HtmlLinks(anchors: seq<Anchor>): seq<string>
  {
    AppendAllNew([], HtmlCandidates(anchors, UnsubscribeKeywords))
  }

  lemma HrefsSnoc(elements: seq<Anchor>, m: nat)
    requires m < |elements|
    ensures var h := elements[m].href;
      Hrefs(elements[..m + 1])
        == Hrefs(elements[..m]) + (if h.Some? && h.value != "" then [h.value] else [])
  {
    assert elements[..m + 1][..m] == elements[..m];
  }

  lemma HtmlCandidatesSnoc(anchors: seq<Anchor>, keywords: seq<string>, k: nat)
    requires k < |keywords|
    ensures HtmlCandidates(anchors, keywords[..k + 1])
         == HtmlCandidates(anchors, keywords[..k]) + Hrefs(Selected(anchors, keywords[k]))
  {
    assert keywords[..k + 1][..k] == keywords[..k];
  }

  lemma AppendHrefsStep(links: seq<string>, elements: seq<Anchor>, m: nat)
    requires m < |elements|
    ensures var h := elements[m].href;
      var r := AppendAllNew(links, Hrefs(elements[..m]));
      AppendAllNew(links, Hrefs(elements[..m + 1]))
        == if h.Some? && h.value != "" && h.value !in r then r + [h.value] else r
  {
    var h := elements[m].href;
    var seen := Hrefs(elements[..m]);
    HrefsSnoc(elements, m);
    if h.Some? && h.value != "" {
      assert Hrefs(elements[..m + 1]) == seen + [h.value];
      AppendAllNewSnoc(links, seen, h.value);
    } else {
      assert Hrefs(elements[..m + 1]) == seen;
    }
  }

  /** The inner loop of `_get_unsubscribe_links_from_html`: every non-empty
      `href` of the selected elements not collected yet is appended. */
  method AppendHrefs(links: seq<string>, elements: seq<Anchor>) returns (r: seq<string>)
    ensures r == AppendAllNew(links, Hrefs(elements))
  {
    r := links;
    for m := 0 to |elements|
      invariant r == AppendAllNew(links, Hrefs(elements[..m]))
    {
      var foundLink := elements[m].href;
      AppendHrefsStep(links, elements, m);
      if foundLink.Some? && foundLink.value != "" && foundLink.value !in r {
        r := r + [foundLink.value];
      }
    }
    assert elements[..|elements|] == elements;
  }

  /** `_get_unsubscribe_links_from_html`, over the anchors of the parsed body. */
  method GetUnsubscribeLinksFromHtml(anchors: seq<Anchor>) returns (links: seq<string>)
    ensures links == HtmlLinks(anchors)
    ensures NoDuplicates(links)
  {
    links := [];
    for k := 0 to |UnsubscribeKeywords|
      invariant links == AppendAllNew([], HtmlCandidates(anchors, UnsubscribeKeywords[..k]))
    {
      var linkElements := Selected(anchors, UnsubscribeKeywords[k]);
      ghost var before := HtmlCandidates(anchors, UnsubscribeKeywords[..k]);
      AppendAllNewConcat([], before, Hrefs(linkElements));
      links := AppendHrefs(links, linkElements);
      HtmlCandidatesSnoc(anchors, UnsubscribeKeywords, k);
    }
    assert UnsubscribeKeywords[..|UnsubscribeKeywords|] == UnsubscribeKeywords;
  }

  lemma {:induction false} HtmlCandidatesSources(anchors: seq<Anchor>, keywords: seq<string>)
    ensures forall h | h in HtmlCandidates(anchors, keywords) ::
      h != "" && exists a, k | a in anchors && 0 <= k < |keywords| ::
        a.href == Some(h) && PickedFor(anchors, a, keywords[k])
    decreases |keywords|
  {
    if keywords != [] {
      var init, kw := keywords[..|keywords| - 1], keywords[|keywords| - 1];
      HtmlCandidatesSources(anchors, init);
      forall h | h in HtmlCandidates(anchors, keywords)
        ensures h != "" && exists a, k | a in anchors && 0 <= k < |keywords| ::
          a.href == Some(h) && PickedFor(anchors, a, keywords[k])
      {
        if h in HtmlCandidates(anchors, init) {
          var a, k :| a in anchors && 0 <= k < |init| && a.href == Some(h) && PickedFor(anchors, a, init[k]);
          assert keywords[k] == init[k];
        } else {
          assert h in Hrefs(Selected(anchors, kw));
          var a :| a in Selected(anchors, kw) && a.href == Some(h);
          assert PickedFor(anchors, a, keywords[|keywords| - 1]);
        }
      }
    }
  }

  lemma {:induction false} HtmlCandidatesComplete(anchors: seq<Anchor>, keywords: seq<string>, k: nat)
    requires k < |keywords|
    ensures forall h | h in Hrefs(Selected(anchors, keywords[k])) :: h in HtmlCandidates(anchors, keywords)
    decreases |keywords|
  {
    var init := keywords[..|keywords| - 1];
    if k < |keywords| - 1 {
      HtmlCandidatesComplete(anchors, init, k);
      assert init[k] == keywords[k];
    }
  }

  /** Every HTML link is the non-empty href of an anchor picked for some
      keyword; the links hold no duplicates and come in keyword order, then
      document order, each where it was first seen. */
  lemma HtmlLinksFacts(anchors: seq<Anchor>)
    ensures var r := HtmlLinks(anchors);
      && NoDuplicates(r)
      && InFirstSeenOrder(r, HtmlCandidates(anchors, UnsubscribeKeywords))
      && forall l | l in r ::
           l != "" && exists a, k | a in anchors && 0 <= k < |UnsubscribeKeywords| ::
             a.href == Some(l) && PickedFor(anchors, a, UnsubscribeKeywords[k])
  {
    FirstSeenOrder(HtmlCandidates(anchors, UnsubscribeKeywords));
    HtmlCandidatesSources(anchors, UnsubscribeKeywords);
  }

  /** Conversely, the non-empty href of every anchor picked for some keyword
      is among the HTML links. */
  lemma HtmlLinksComplete(anchors: seq<Anchor>, a: Anchor, k: nat)
    requires k < |UnsubscribeKeywords| && PickedFor(anchors, a, UnsubscribeKeywords[k])
    requires a.href.Some? && a.href.value != ""
    ensures a.href.value in HtmlLinks(anchors)
  {
    HrefsComplete(Selected(anchors, UnsubscribeKeywords[k]), a);
    HtmlCandidatesComplete(anchors, UnsubscribeKeywords, k);
  }

  /** A lower-case word is title-cased by capitalising its first letter. */
  lemma TitleOfLowerWord(w: string)
    requires |w| > 0 && forall i | 0 <= i < |w| :: IsAsciiLower(w[i])
    ensures Title(w) == [UpperChar(w[0])] + w[1..]
  {
    var t := Title(w);
    forall i | 0 <= i < |w| ensures t[i] == ([UpperChar(w[0])] + w[1..])[i] {
      if i > 0 {
        assert IsAsciiLetter(w[i - 1]);
      }
    }
  }

  /** Title-casing works word by word across a non-letter. */
  lemma TitleAcrossSeparator(a: string, c: char, b: string)
    requires !IsAsciiLetter(c)
    ensures Title(a + [c] + b) == Title(a) + [c] + Title(b)
  {
    var s := a + [c] + b;
    var t := Title(a) + [c] + Title(b);
    forall i | 0 <= i < |s| ensures Title(s)[i] == t[i] {
      if i < |a| {
        assert s[i] == a[i];
        if i > 0 {
          assert s[i - 1] == a[i - 1];
        }
      } else if i > |a| + 1 {
        assert s[i] == b[i - |a| - 1] && s[i - 1] == b[i - |a| - 2];
      } else if i == |a| + 1 {
        assert s[i] == b[0] && s[i - 1] == c;
      }
    }
  }

  /** The title-cased forms of the one-word keywords. */
  lemma TitledWords()
    ensures Title("unsubscribe") == "Unsubscribe"
    ensures Title("exclude") == "Exclude"
    ensures Title("subscription") == "Subscription"
  {
    TitleOfLowerWord("unsubscribe");
    TitleOfLowerWord("exclude");
    TitleOfLowerWord("subscription");
  }

  /** The title-cased forms of the keywords with a non-letter in them. */
  lemma TitledBracketed()
    ensures Title("[unsubscribe]") == "[Unsubscribe]"
  {
    TitleOfLowerWord("unsubscribe");
    assert "[unsubscribe]" == "" + ['['] + "unsubscribe]";
    assert "unsubscribe]" == "unsubscribe" + [']'] + "";
    TitleAcrossSeparator("", '[', "unsubscribe]");
    TitleAcrossSeparator("unsubscribe", ']', "");
  }

  lemma TitledOptOut()
    ensures Title("opt-out") == "Opt-Out"
    ensures Title("opt out") == "Opt Out"
  {
    TitleOfLowerWord("opt");
    TitleOfLowerWord("out");
    assert "opt-out" == "opt" + ['-'] + "out";
    TitleAcrossSeparator("opt", '-', "out");
    assert "opt out" == "opt" + [' '] + "out";
    TitleAcrossSeparator("opt", ' ', "out");
  }

  /** Two strings of the same length contain one another only when equal. */
  lemma SameLengthContains(s: string, sub: string)
    requires |s| == |sub|
    ensures Contains(s, sub) <==> s == sub
  {
    if s == sub {
      assert OccursAt(s, sub, 0);
    }
  }

  /** A capitalised "Unsubscribe" anchor is missed by the lower-case query
      and found by the title-cased one, so its href is an HTML link. */
  lemma HtmlCapitalisedAnchor(h: string)
    requires h != ""
    ensures var a := Anchor("Unsubscribe", Some(h));
      && Matching([a], "unsubscribe") == []
      && h in HtmlLinks([a])
  {
    var a := Anchor("Unsubscribe", Some(h));
    MatchingSingle(a, "unsubscribe");
    TitledWords();
    SameLengthContains(a.text, "unsubscribe");
    SameLengthContains(a.text, Title("unsubscribe"));
    assert PickedFor([a], a, UnsubscribeKeywords[0]);
    HtmlLinksComplete([a], a, 0);
  }
}
