/** `_get_unsubscribe_links_from_email`: the links of a whole message, from
    its text/plain and text/html parts, merged without duplicates. */
module MessageLinks {
  import opened Results
  import opened LinkLists
  import opened Extractors

  /** A decoded body: its text (what the plain-text extractor reads) and the
      anchors of the document the text parses to (what the HTML extractor
      reads). */
  datatype Payload = Payload(text: string, anchors: seq<Anchor>)

  /** One part of `walk()`: its content type and its quoted-printable decoded
      payload, `None` when decoding raised. */
  datatype Part = Part(contentType: string, decoded: Option<Payload>)

  /** A message is either multipart, walked part by part, or a single part
      whose payload `get_payload(decode=True)` always decodes. */
  datatype Message =
    | Multipart(parts: seq<Part>)
    | SinglePart(contentType: string, payload: Payload)

  const TextPlain: string := "text/plain"
  const TextHtml: string := "text/html"

  /** The links one extractor finds in a payload of the given content type;
      any other type has none. */
  function ExtractorLinks(contentType: string, p: Payload): seq<string>
  {
    if contentType == TextPlain then TextPlainLinks(p.text)
    else if contentType == TextHtml then HtmlLinks(p.anchors)
    else []
  }

  /** What a walked part contributes: nothing when decoding raised. */
  function PartLinks(part: Part): seq<string>
  {
    if part.decoded.None? then [] else ExtractorLinks(part.contentType, part.decoded.value)
  }

  /** What each part contributes, part by part. */
  function PartGroups(parts: seq<Part>): (r: seq<seq<string>>)
    ensures |r| == |parts|
  {
    MapBack(PartLinks, parts)
  }

  /** The links of a message. */
  function EmailLinks(msg: Message): seq<string>
  {
    match msg
    case Multipart(parts) => MergeGroups(PartGroups(parts))
    case SinglePart(contentType, payload) => ExtractorLinks(contentType, payload)
  }

  lemma PartGroupsSnoc(parts: seq<Part>, i: nat)
    requires i < |parts|
    ensures Concat(PartGroups(parts[..i + 1])) == Concat(PartGroups(parts[..i])) + PartLinks(parts[i])
  {
    assert parts[..i + 1][..i] == parts[..i];
    var gs := PartGroups(parts[..i + 1]);
    assert gs == PartGroups(parts[..i]) + [PartLinks(parts[i])];
    assert gs[..|gs| - 1] == PartGroups(parts[..i]);
  }

  /** `for link in found_links: if link not in unsubscribe_links: append(link)`. */
  method AppendMissing(links: seq<string>, found: seq<string>) returns (r: seq<string>)
    ensures r == AppendAllNew(links, found)
  {
    r := links;
    for m := 0 to |found|
      invariant r == AppendAllNew(links, found[..m])
    {
      assert found[..m + 1] == found[..m] + [found[m]];
      AppendAllNewSnoc(links, found[..m], found[m]);
      if found[m] !in r {
        r := r + [found[m]];
      }
    }
    assert found[..|found|] == found;
  }

  /** The links a single extractor returns, computed by the extractor
      methods. */
  method ExtractFrom(contentType: string, p: Payload) returns (found: seq<string>)
    ensures found == ExtractorLinks(contentType, p)
    ensures NoDuplicates(found)
  {
    found := [];
    if contentType == TextPlain {
      found := GetUnsubscribeLinksFromTextPlain(p.text);
    } else if contentType == TextHtml {
      found := GetUnsubscribeLinksFromHtml(p.anchors);
    }
  }

  /** `_get_unsubscribe_links_from_email`. */
  method GetUnsubscribeLinksFromEmail(msg: Message) returns (links: seq<string>)
    ensures links == EmailLinks(msg)
    ensures NoDuplicates(links)
    ensures msg.SinglePart? && msg.contentType != TextPlain && msg.contentType != TextHtml ==> links == []
  {
    links := [];
    match msg {
      case Multipart(parts) =>
        for i := 0 to |parts|
          invariant links == MergeGroups(PartGroups(parts[..i]))
        {
          var part := parts[i];
          PartGroupsSnoc(parts, i);
          if part.decoded.None? {
            // the decoding raised: `continue`
            assert Concat(PartGroups(parts[..i + 1])) == Concat(PartGroups(parts[..i])) + [];
            assert Concat(PartGroups(parts[..i + 1])) == Concat(PartGroups(parts[..i]));
            continue;
          }
          var found := ExtractFrom(part.contentType, part.decoded.value);
          assert PartLinks(part) == found;
          ghost var before := Concat(PartGroups(parts[..i]));
          AppendAllNewConcat([], before, found);
          links := AppendMissing(links, found);
          assert Concat(PartGroups(parts[..i + 1])) == before + found;
        }
        assert parts[..|parts|] == parts;
      case SinglePart(contentType, payload) =>
        links := ExtractFrom(contentType, payload);
    }
  }

  lemma PartGroupsAt(parts: seq<Part>)
    ensures forall i | 0 <= i < |parts| :: PartGroups(parts)[i] == PartLinks(parts[i])
  {
    MapBackAt(PartLinks, parts);
  }

  lemma {:induction false} PartGroupsAppend(xs: seq<Part>, ys: seq<Part>)
    ensures PartGroups(xs + ys) == PartGroups(xs) + PartGroups(ys)
    decreases |ys|
  {
    if ys == [] {
      assert xs + ys == xs;
    } else {
      var init := ys[..|ys| - 1];
      assert (xs + ys)[..|xs + ys| - 1] == xs + init;
      assert (xs + ys)[|xs + ys| - 1] == ys[|ys| - 1];
      PartGroupsAppend(xs, init);
    }
  }

  /** The merged links of a multipart message are duplicate-free, each is
      found in some part, every link of every part is among them, and they
      keep the order in which the walk first met them. */
  lemma MultipartLinksFacts(parts: seq<Part>)
    ensures var r := EmailLinks(Multipart(parts));
      && NoDuplicates(r)
      && InFirstSeenOrder(r, Concat(PartGroups(parts)))
      && (forall l | l in r :: exists i | 0 <= i < |parts| :: l in PartLinks(parts[i]))
      && (forall i, l | 0 <= i < |parts| && l in PartLinks(parts[i]) :: l in r)
  {
    MergeGroupsFacts(PartGroups(parts));
    PartGroupsAt(parts);
  }

  /** A part of another content type, or one whose decoding raised, can be
      removed from a multipart message without changing its links. */
  lemma SilentPartContributesNothing(before: seq<Part>, p: Part, after: seq<Part>)
    requires p.decoded.None? || (p.contentType != TextPlain && p.contentType != TextHtml)
    ensures EmailLinks(Multipart(before + [p] + after)) == EmailLinks(Multipart(before + after))
  {
    PartGroupsAppend(before + [p], after);
    PartGroupsAppend(before, [p]);
    PartGroupsAppend(before, after);
    assert [p][..0] == [];
    assert PartGroups([p]) == [[]];
    MergeDropsEmpty(PartGroups(before), PartGroups(after));
  }

  /** The links of the first part come first, in that part's own order. */
  lemma FirstPartFirst(p: Part, rest: seq<Part>)
    ensures PartLinks(p) <= EmailLinks(Multipart([p] + rest))
  {
    PartGroupsAppend([p], rest);
    assert [p][..0] == [];
    assert PartGroups([p]) == [PartLinks(p)];
    MergeFirstGroup(PartLinks(p), PartGroups(rest));
  }

  /** The links of any message are duplicate-free. */
  lemma EmailLinksDistinct(msg: Message)
    ensures NoDuplicates(EmailLinks(msg))
  {
    assert NoDuplicates<string>([]);
    match msg
    case Multipart(parts) =>
      assert EmailLinks(msg) == AppendAllNew([], Concat(PartGroups(parts)));
    case SinglePart(contentType, payload) =>
      if contentType == TextPlain {
        assert EmailLinks(msg) == AppendAllNew([], Somes(KeywordCandidates(payload.text, UnsubscribeKeywords)));
      } else if contentType == TextHtml {
        assert EmailLinks(msg) == AppendAllNew([], HtmlCandidates(payload.anchors, UnsubscribeKeywords));
      }
  }
}
