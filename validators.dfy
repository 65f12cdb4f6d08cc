/** The input checks of `EmailUnsubscriber`: the address format `login`
    insists on, the domain `get_domain_from_email` extracts, and the provider
    lookup of the constructor. */
module Validators {
  import opened Results
  import opened TextOps

  // ---------------------------------------------------------------------------
  // The address check of `login`:
  //   ^[a-zA-Z0-9_.+-]+@[a-zA-Z0-9-]+\.[a-zA-Z0-9-.]+$

  /** `[a-zA-Z0-9_.+-]` */
  predicate IsLocalChar(c: char) { IsAsciiAlnum(c) || c == '_' || c == '.' || c == '+' || c == '-' }
  /** `[a-zA-Z0-9-]` */
  predicate IsLabelChar(c: char) { IsAsciiAlnum(c) || c == '-' }
  /** `[a-zA-Z0-9-.]` */
  predicate IsSuffixChar(c: char) { IsAsciiAlnum(c) || c == '-' || c == '.' }

  predicate AllChars(s: string, p: char -> bool)
  {
    forall i | 0 <= i < |s| :: p(s[i])
  }

  /** The pattern matched against the whole of `s`, read left to right: the
      local part runs to the first `@` (the local class has no `@`), the
      label to the first `.` after it (the label class has no `.`), and the
      suffix to the end. */
  function MatchesWhole(s: string): bool
  {
    var at := IndexOf(s, '@');
    if at == |s| then false
    else
      var domain := s[at + 1..];
      var dot := IndexOf(domain, '.');
      && dot < |domain|
      && 0 < at && AllChars(s[..at], IsLocalChar)
      && 0 < dot && AllChars(domain[..dot], IsLabelChar)
      && dot + 1 < |domain| && AllChars(domain[dot + 1..], IsSuffixChar)
  }

  /** `re.match` of the pattern: the whole string, or the whole string but a
      final newline, which `$` also accepts. */
  function AddressAccepted(s: string): bool
  {
    MatchesWhole(s) || (|s| > 0 && s[|s| - 1] == '\n' && MatchesWhole(s[..|s| - 1]))
  }

  /** The shape the pattern describes: a non-empty local part, `@`, a
      non-empty label, `.`, a non-empty suffix, each over its own class. */
  predicate AddressShape(s: string)
  {
    exists a, d | 0 < a && a + 1 < d && d + 1 < |s| ::
      && s[a] == '@' && s[d] == '.'
      && AllChars(s[..a], IsLocalChar)
      && AllChars(s[a + 1..d], IsLabelChar)
      && AllChars(s[d + 1..], IsSuffixChar)
  }

  /** What the left-to-right reading accepts has that shape. */
  lemma MatchesWholeHasShape(s: string)
    requires MatchesWhole(s)
    ensures AddressShape(s)
  {
    var at := IndexOf(s, '@');
    var domain := s[at + 1..];
    var dot := IndexOf(domain, '.');
    var d := at + 1 + dot;
    assert s[d] == domain[dot];
    assert s[at + 1..d] == domain[..dot];
    assert s[d + 1..] == domain[dot + 1..];
  }

  /** Every string of that shape is accepted by the left-to-right reading:
      the classes leave no other place for the `@` and the `.`. */
  lemma ShapeIsMatched(s: string, a: nat, d: nat)
    requires 0 < a && a + 1 < d && d + 1 < |s|
    requires s[a] == '@' && s[d] == '.'
    requires AllChars(s[..a], IsLocalChar)
    requires AllChars(s[a + 1..d], IsLabelChar)
    requires AllChars(s[d + 1..], IsSuffixChar)
    ensures MatchesWhole(s)
  {
    assert forall j | 0 <= j < a :: s[j] == s[..a][j];
    FirstIndexAt(s, '@', a);
    var domain := s[a + 1..];
    var k := d - a - 1;
    assert forall j | 0 <= j < k :: domain[j] == s[a + 1..d][j];
    FirstIndexAt(domain, '.', k);
    assert domain[..k] == s[a + 1..d];
    assert domain[k + 1..] == s[d + 1..];
  }

  /** The left-to-right reading accepts exactly the strings of that shape. */
  lemma MatchesWholeIsShape(s: string)
    ensures MatchesWhole(s) <==> AddressShape(s)
  {
    if MatchesWhole(s) {
      MatchesWholeHasShape(s);
    }
    if AddressShape(s) {
      var a, d :| 0 < a && a + 1 < d && d + 1 < |s|
        && s[a] == '@' && s[d] == '.'
        && AllChars(s[..a], IsLocalChar)
        && AllChars(s[a + 1..d], IsLabelChar)
        && AllChars(s[d + 1..], IsSuffixChar);
      ShapeIsMatched(s, a, d);
    }
  }

  /** `IndexOf` finds `c` at `k` when `k` holds `c` and nothing before it
      does. */
  lemma FirstIndexAt(s: string, c: char, k: nat)
    requires k < |s| && s[k] == c
    requires forall j | 0 <= j < k :: s[j] != c
    ensures IndexOf(s, c) == k
  {
  }

  /** Every accepted whole string ends in a suffix character. */
  lemma MatchesWholeEnd(s: string)
    requires MatchesWhole(s)
    ensures |s| > 0 && IsSuffixChar(s[|s| - 1])
  {
    var at := IndexOf(s, '@');
    var domain := s[at + 1..];
    var dot := IndexOf(domain, '.');
    assert domain[dot + 1..][|domain| - dot - 2] == s[|s| - 1];
  }

  /** `$` lets one final newline through, but no more than one. */
  lemma TrailingNewline(s: string)
    ensures MatchesWhole(s) ==> AddressAccepted(s + "\n")
    ensures !AddressAccepted(s + "\n\n")
  {
    assert (s + "\n")[..|s|] == s;
    var t := s + "\n\n";
    assert t[..|t| - 1] == s + "\n";
    if MatchesWhole(t) {
      MatchesWholeEnd(t);
    }
    if MatchesWhole(s + "\n") {
      MatchesWholeEnd(s + "\n");
    }
  }

  // ---------------------------------------------------------------------------
  // `get_domain_from_email`: re.search(r"@[\w\-]+", address), `@` removed.

  /** `[\w\-]` */
  predicate IsDomainChar(c: char) { IsWordChar(c) || c == '-' }

  /** A match of `@[\w\-]+` can start at `p`. */
  predicate DomainStartsAt(s: string, p: int)
  {
    0 <= p && p + 1 < |s| && s[p] == '@' && IsDomainChar(s[p + 1])
  }

  /** The greedy end of a run of domain characters starting at `k`. */
  function DomainRunEnd(s: string, k: nat): (e: nat)
    requires k <= |s|
    ensures k <= e <= |s|
    ensures forall i | k <= i < e :: IsDomainChar(s[i])
    ensures e == |s| || !IsDomainChar(s[e])
    decreases |s| - k
  {
    if k == |s| || !IsDomainChar(s[k]) then k else DomainRunEnd(s, k + 1)
  }

  /** The leftmost start of a match at or after `p`. */
  function DomainStartFrom(s: string, p: nat): (r: Option<nat>)
    requires p <= |s|
    ensures r.Some? ==> p <= r.value && DomainStartsAt(s, r.value)
    ensures forall q | p <= q && (r.None? || q < r.value) :: !DomainStartsAt(s, q)
    decreases |s| - p
  {
    if p == |s| then None
    else if DomainStartsAt(s, p) then Some(p)
    else DomainStartFrom(s, p + 1)
  }

  /** `get_domain_from_email`. */
  function DomainFromEmail(address: string): (r: Result<string, HttpError>)
    ensures r.Failure? <==> forall p | 0 <= p < |address| :: !DomainStartsAt(address, p)
    ensures r.Failure? ==> r.error == HttpError(400, "Could not find email domain for email: " + address)
    ensures r.Success? ==> exists p | 0 <= p < |address| ::
      && DomainStartsAt(address, p)
      && (forall q | 0 <= q < p :: !DomainStartsAt(address, q))
      && r.value == address[p + 1..DomainRunEnd(address, p + 1)]
  {
    match DomainStartFrom(address, 0)
    case None => Failure(HttpError(400, "Could not find email domain for email: " + address))
    case Some(p) => Success(address[p + 1..DomainRunEnd(address, p + 1)])
  }

  /** The domain is a non-empty run of word and hyphen characters that follows
      an `@` of the address and that no further such character extends. */
  lemma DomainFacts(address: string)
    requires DomainFromEmail(address).Success?
    ensures var d := DomainFromEmail(address).value;
      && |d| > 0
      && AllChars(d, IsDomainChar)
      && exists p | 0 <= p < |address| ::
           && OccursAt(address, "@" + d, p)
           && (p + 1 + |d| == |address| || !IsDomainChar(address[p + 1 + |d|]))
  {
    var p := DomainStartFrom(address, 0).value;
    var e := DomainRunEnd(address, p + 1);
    var d := address[p + 1..e];
    assert DomainFromEmail(address).value == d;
    assert |d| == e - p - 1;
    assert forall i | 0 <= i < |d| :: d[i] == address[p + 1 + i];
    assert address[p..e] == "@" + d;
    assert OccursAt(address, "@" + d, p);
  }

  /** A Yahoo address gives `yahoo`, which is a key of the provider lookup. */
  lemma YahooDomain()
    ensures DomainFromEmail("email@yahoo.com") == Success("yahoo")
    ensures CheckEmailType("yahoo") == Success("imap.mail.yahoo.com")
  {
    var s := "email@yahoo.com";
    assert !DomainStartsAt(s, 0) && !DomainStartsAt(s, 1) && !DomainStartsAt(s, 2)
        && !DomainStartsAt(s, 3) && !DomainStartsAt(s, 4);
    assert DomainStartsAt(s, 5);
    assert DomainStartFrom(s, 5) == Some(5);
    assert DomainStartFrom(s, 0) == Some(5);
    assert DomainRunEnd(s, 11) == 11;
    assert DomainRunEnd(s, 6) == 11;
    assert s[6..11] == "yahoo";
  }

  // ---------------------------------------------------------------------------
  // The provider lookup of `__init__`.

  /** `SUPPORTED_IMAP_SERVERS[email_type]`, when the key is there. */
  function ImapServerFor(emailType: string): (r: Option<string>)
    ensures r.Some? <==> emailType == "yahoo" || emailType == "google"
  {
    if emailType == "yahoo" then Some("imap.mail.yahoo.com")
    else if emailType == "google" then Some("imap.gmail.com")
    else None
  }

  /** The constructor accepts a provider name only when it is one of the two
      keys, and names the rejected type in its 400 error. */
  function CheckEmailType(emailType: string): (r: Result<string, HttpError>)
    ensures r.Success? <==> emailType == "yahoo" || emailType == "google"
    ensures r.Success? ==> r.value == ImapServerFor(emailType).value
    ensures r.Failure? ==> r.error == HttpError(400, emailType + " is not a supported email yet.")
  {
    match ImapServerFor(emailType)
    case Some(server) => Success(server)
    case None => Failure(HttpError(400, emailType + " is not a supported email yet."))
  }

  /** The domain of a Gmail address is `gmail`, which is not a key of the
      lookup: a caller that feeds the domain to the constructor is refused. */
  lemma GmailDomainRefused()
    ensures DomainFromEmail("me@gmail.com") == Success("gmail")
    ensures CheckEmailType("gmail").Failure?
  {
    var s := "me@gmail.com";
    assert !DomainStartsAt(s, 0) && !DomainStartsAt(s, 1);
    assert DomainStartFrom(s, 2) == Some(2);
    assert DomainStartFrom(s, 0) == Some(2);
    assert DomainRunEnd(s, 8) == 8;
    assert DomainRunEnd(s, 3) == 8;
    assert s[3..8] == "gmail";
  }
}
