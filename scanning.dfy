/** What a scan of the inbox does, as functions of its inputs: the
    dedupe-then-persist step for one message, the window of message numbers
    the scan visits, the INTERNALDATE split, and the whole scan with the IMAP
    replies given as inputs. `EmailUnsubscriber`'s methods are proved equal to
    these. */
module Scanning {
  import opened Results
  import opened LinkLists
  import opened TextOps
  import opened Store
  import opened MessageLinks

  /** A fetched message: its decoded `From` and `Subject` headers and its
      body. */
  datatype Email = Email(emailFrom: string, subject: string, body: Message)

  /** The dict `_scan_email_message_obj` returns for a message it stored. */
  datatype ScanSummary = ScanSummary(
    id: nat,
    emailFrom: string,
    subject: string,
    linkCount: nat,
    unsubscribeStatus: string)

  // ---------------------------------------------------------------------------
  // `_scan_email_message_obj`

  /** One `pending` link row per link, in order, for the account and the
      scanned email. */
  function PendingRows(links: seq<string>, linked: Option<string>, id: nat): (r: seq<UnsubscribeLink>)
    ensures |r| == |links|
    ensures forall k | 0 <= k < |r| :: r[k] == UnsubscribeLink(links[k], pending, linked, id)
    decreases |links|
  {
    if links == [] then []
    else
      var last := UnsubscribeLink(links[|links| - 1], pending, linked, id);
      PendingRows(links[..|links| - 1], linked, id) + [last]
  }

  /** The tables after the step and the summary it returns; `None` stands for
      the empty dict returned for a message already stored. */
  datatype StepOutcome = StepOutcome(tables: Tables, summary: Option<ScanSummary>)

  /** The query finds a stored message with this sender, subject and date. */
  predicate AlreadyScanned(t: Tables, e: Email, inboxDate: int)
  {
    FirstMatch(t.scannedEmails, e.emailFrom, e.subject, inboxDate).Some?
  }

  function ScanStep(t: Tables, e: Email, linked: Option<string>, inboxDate: int): StepOutcome
  {
    if AlreadyScanned(t, e, inboxDate) then StepOutcome(t, None)
    else
      var u := AddScanned(t, e.emailFrom, e.subject, linked, inboxDate);
      var links := EmailLinks(e.body);
      StepOutcome(
        Tables(u.scannedEmails, u.unsubscribeLinks + PendingRows(links, linked, t.nextId), u.nextId),
        Some(ScanSummary(t.nextId, e.emailFrom, e.subject, |links|, StatusValue(pending))))
  }

  /** A message whose sender, subject and date are already stored gives the
      empty result and changes nothing, whatever account it was scanned
      for. */
  lemma DuplicateChangesNothing(t: Tables, e: Email, linked: Option<string>, inboxDate: int, k: nat)
    requires k < |t.scannedEmails|
    requires SameMessage(t.scannedEmails[k], e.emailFrom, e.subject, inboxDate)
    ensures ScanStep(t, e, linked, inboxDate) == StepOutcome(t, None)
  {
  }

  /** Otherwise one scanned-email row with the next id is added, and one
      `pending` link row per link of the message pointing at it; the summary
      carries that id, the headers, the number of link rows and `pending`. */
  lemma NewMessageStored(t: Tables, e: Email, linked: Option<string>, inboxDate: int)
    requires forall i | 0 <= i < |t.scannedEmails| :: !SameMessage(t.scannedEmails[i], e.emailFrom, e.subject, inboxDate)
    ensures var o := ScanStep(t, e, linked, inboxDate);
      var added := o.tables.unsubscribeLinks[|t.unsubscribeLinks|..];
      && o.tables.scannedEmails == t.scannedEmails + [ScannedEmail(t.nextId, e.emailFrom, e.subject, linked, inboxDate)]
      && o.tables.nextId == t.nextId + 1
      && o.tables.unsubscribeLinks[..|t.unsubscribeLinks|] == t.unsubscribeLinks
      && |added| == |EmailLinks(e.body)|
      && (forall k | 0 <= k < |added| ::
            && added[k].link == EmailLinks(e.body)[k]
            && added[k].unsubscribeStatus == pending
            && added[k].linkedEmailAddress == linked
            && added[k].scannedEmailId == t.nextId)
      && o.summary == Some(ScanSummary(t.nextId, e.emailFrom, e.subject, |added|, "pending"))
  {
  }

  /** The step keeps the tables valid. */
  lemma ScanStepValid(t: Tables, e: Email, linked: Option<string>, inboxDate: int)
    requires TablesValid(t)
    ensures TablesValid(ScanStep(t, e, linked, inboxDate).tables)
  {
    if !AlreadyScanned(t, e, inboxDate) {
      AddScannedValid(t, e.emailFrom, e.subject, linked, inboxDate);
      var u := AddScanned(t, e.emailFrom, e.subject, linked, inboxDate);
      var rows := PendingRows(EmailLinks(e.body), linked, t.nextId);
      forall l | l in rows ensures HasRow(u.scannedEmails, l.scannedEmailId) {
      }
      AddLinksValid(u, rows);
    }
  }

  /** The link rows a step adds are distinct, because the message's links
      are. */
  lemma StepRowsDistinct(t: Tables, e: Email, linked: Option<string>, inboxDate: int)
    requires !AlreadyScanned(t, e, inboxDate)
    ensures NoDuplicates(ScanStep(t, e, linked, inboxDate).tables.unsubscribeLinks[|t.unsubscribeLinks|..])
  {
    var links := EmailLinks(e.body);
    EmailLinksDistinct(e.body);
    var added := ScanStep(t, e, linked, inboxDate).tables.unsubscribeLinks[|t.unsubscribeLinks|..];
    forall i, j | 0 <= i < j < |added| ensures added[i] != added[j] {
      assert links[i] != links[j];
    }
  }

  /** Scanning the same message a second time, for any account, finds the row
      the first scan stored and changes nothing. */
  lemma RescanChangesNothing(t: Tables, e: Email, linked: Option<string>, other: Option<string>, inboxDate: int)
    ensures var u := ScanStep(t, e, linked, inboxDate).tables;
      ScanStep(u, e, other, inboxDate) == StepOutcome(u, None)
  {
    if !AlreadyScanned(t, e, inboxDate) {
      var u := ScanStep(t, e, linked, inboxDate).tables;
      assert SameMessage(u.scannedEmails[|t.scannedEmails|], e.emailFrom, e.subject, inboxDate);
    }
  }

  // ---------------------------------------------------------------------------
  // The scan window: `range(*range_params)`

  /** Python's `range(start, stop, step)` for a step of 1 or -1. */
  function PyRange(start: int, stop: int, step: int): (r: seq<int>)
    requires step == 1 || step == -1
    ensures step == 1 ==> |r| == (if start < stop then stop - start else 0)
    ensures step == -1 ==> |r| == (if start > stop then start - stop else 0)
    ensures forall k | 0 <= k < |r| :: r[k] == start + k * step
    decreases if step == 1 then stop - start else start - stop
  {
    if (step == 1 && start >= stop) || (step == -1 && start <= stop) then []
    else [start] + PyRange(start + step, stop, step)
  }

  /** The `how_many` the scan ends up with and the message numbers it
      visits. */
  datatype Window = Window(howMany: int, indices: seq<int>)

  /** `range_params`: `desc` counts down from the last message
      (`how_many or 0`); `asc` counts up from 0 and any other order counts
      down to 1, both taking the whole inbox for a `how_many` of 0. */
  function ScanWindow(orderBy: string, howMany: int, n: nat): (w: Window)
    ensures orderBy == "desc" ==> w.howMany == howMany
    ensures orderBy != "desc" ==> w.howMany == (if howMany == 0 then n else howMany)
    ensures 0 <= howMany ==> |w.indices| == w.howMany
  {
    if orderBy == "desc" then Window(howMany, PyRange(n, n - howMany, -1))
    else
      var h := if howMany == 0 then n else howMany;
      if orderBy == "asc" then Window(h, PyRange(0, h, 1))
      else Window(h, PyRange(h, 0, -1))
  }

  /** Newest first: exactly `how_many` messages, strictly descending from the
      last one, all of them in the inbox. */
  lemma DescWindow(howMany: int, n: nat)
    requires 0 <= howMany <= n
    ensures var ix := ScanWindow("desc", howMany, n).indices;
      && |ix| == howMany
      && (forall k | 0 <= k < |ix| :: ix[k] == n - k && 1 <= ix[k] <= n)
      && (forall j, k | 0 <= j < k < |ix| :: ix[j] > ix[k])
  {
  }

  /** `desc` with a `how_many` of 0 visits nothing: unlike the other orders,
      it does not fall back to the whole inbox. */
  lemma DescZeroEmpty(n: nat)
    ensures ScanWindow("desc", 0, n) == Window(0, [])
  {
  }

  /** Oldest first starts at message number 0, which IMAP does not have, and
      stops one short of `how_many`; a `how_many` of 0 takes the whole inbox,
      so message `N` itself is never visited. */
  lemma AscWindow(howMany: int, n: nat)
    requires 0 <= howMany <= n
    ensures var w := ScanWindow("asc", howMany, n);
      && (howMany == 0 ==> w.howMany == n)
      && 0 <= w.howMany <= n
      && |w.indices| == w.howMany
      && (w.howMany > 0 ==> w.indices[0] == 0)
      && (forall k | 0 <= k < |w.indices| :: w.indices[k] == k)
      && w.howMany !in w.indices
  {
  }

  /** Any other order counts down from `how_many` (by default the whole
      inbox) to 1. */
  lemma OtherWindow(orderBy: string, howMany: int, n: nat)
    requires orderBy != "desc" && orderBy != "asc"
    requires 0 <= howMany <= n
    ensures var w := ScanWindow(orderBy, howMany, n);
      && 0 <= w.howMany <= n
      && |w.indices| == w.howMany
      && forall k | 0 <= k < |w.indices| :: w.indices[k] == w.howMany - k && 1 <= w.indices[k]
  {
  }

  // ---------------------------------------------------------------------------
  // INTERNALDATE: `data[0].decode().split('"')[1]`

  /** The text between the first and the second `"`; `None` where `[1]` raises
      because there is no `"`. */
  function InternalDate(data: string): (r: Option<string>)
    ensures r.None? <==> '"' !in data
    ensures r.Some? ==> '"' !in r.value
  {
    var pieces := SplitOn(data, '"');
    if |pieces| < 2 then None else Some(pieces[1])
  }

  /** A reply of the form `a"b"c` with no quote in `a` or `b` gives `b`. */
  lemma InternalDateBetweenQuotes(a: string, b: string, c: string)
    requires '"' !in a && '"' !in b
    ensures InternalDate(a + "\"" + b + "\"" + c) == Some(b)
  {
    var s := a + "\"" + b + "\"" + c;
    assert forall j | 0 <= j < |a| :: s[j] == a[j];
    var i := IndexOf(s, '"');
    assert s[|a|] == '"';
    assert i == |a|;
    var rest := s[i + 1..];
    assert rest == b + "\"" + c;
    assert forall j | 0 <= j < |b| :: rest[j] == b[j];
    assert rest[|b|] == '"';
    assert IndexOf(rest, '"') == |b|;
    assert rest[..|b|] == b;
    assert SplitOn(s, '"') == [s[..i]] + SplitOn(rest, '"');
    assert SplitOn(rest, '"') == [b] + SplitOn(rest[|b| + 1..], '"');
  }

  // ---------------------------------------------------------------------------
  // The IMAP session as inputs

  /** The commands the scanner sends, in order. */
  datatype ImapCommand =
    | Connect(server: string)
    | LoginCommand(user: string, password: string)
    | Select(mailbox: string, readonly: bool)
    | Fetch(index: int, spec: string)
    | Close

  /** The reply to `select("INBOX", readonly=True)`: its status and the
      message count it carries, `None` when the count is missing or empty. */
  datatype SelectReply = SelectReply(status: string, count: Option<nat>)

  /** The reply to `fetch(i, "(RFC822)")`: its status and the parsed
      message. */
  datatype MessageReply = MessageReply(status: string, email: Email)

  /** The reply to `fetch(i, "(INTERNALDATE)")`: its status and its decoded
      first line. */
  datatype DateReply = DateReply(status: string, data: string)

  /** The errors the scan raises: the HTTP 400s, the fetch that did not
      return `OK` (index and status of the message), the date reply without
      quotes (`IndexError`), and a date `parsedate_to_datetime` rejects. */
  datatype InboxError =
    | Refused(error: HttpError)
    | FetchFailed(index: int, response: string)
    | MissingDate(index: int)
    | UnparsableDate(index: int)

  /** What the mailbox answers and how dates parse. */
  datatype Mailbox = Mailbox(
    message: int -> MessageReply,
    date: int -> DateReply,
    parseDate: string -> Option<int>)

  /** The state of the loop: the tables, the non-empty results so far, the
      commands sent and the error that ended it, if any. */
  datatype LoopState = LoopState(
    tables: Tables,
    scanned: seq<ScanSummary>,
    log: seq<ImapCommand>,
    error: Option<InboxError>)

  /** One turn of the loop for message number `i`. The INTERNALDATE reply's
      own status is never looked at: the code tests the first reply's status
      again. */
  function LoopTurn(s: LoopState, i: int, linked: Option<string>, mb: Mailbox): LoopState
  {
    var logMsg := s.log + [Fetch(i, "(RFC822)")];
    var reply := mb.message(i);
    if reply.status != "OK" then LoopState(s.tables, s.scanned, logMsg, Some(FetchFailed(i, reply.status)))
    else
      var logDate := logMsg + [Fetch(i, "(INTERNALDATE)")];
      match InternalDate(mb.date(i).data)
      case None => LoopState(s.tables, s.scanned, logDate, Some(MissingDate(i)))
      case Some(text) =>
        match mb.parseDate(text)
        case None => LoopState(s.tables, s.scanned, logDate, Some(UnparsableDate(i)))
        case Some(date) =>
          var o := ScanStep(s.tables, reply.email, linked, date);
          LoopState(o.tables, s.scanned + (if o.summary.Some? then [o.summary.value] else []), logDate, None)
  }

  /** The loop over `indices`, stopping at the first error. */
  function RunLoop(s: LoopState, indices: seq<int>, linked: Option<string>, mb: Mailbox): LoopState
    decreases |indices|
  {
    if indices == [] then s
    else
      var before := RunLoop(s, indices[..|indices| - 1], linked, mb);
      if before.error.Some? then before else LoopTurn(before, indices[|indices| - 1], linked, mb)
  }

  /** How a scan ends: the tables, the commands sent, and the result
      (`Success(None)` for the early return on an empty inbox). */
  datatype InboxOutcome = InboxOutcome(
    tables: Tables,
    log: seq<ImapCommand>,
    result: Result<Option<seq<ScanSummary>>, InboxError>)

  /** The number a string of decimal digits denotes. */
  function DigitsValue(s: string): nat
    requires forall i | 0 <= i < |s| :: IsAsciiDigit(s[i])
    decreases |s|
  {
    if s == [] then 0
    else
      assert IsAsciiDigit(s[|s| - 1]);
      DigitsValue(s[..|s| - 1]) * 10 + (s[|s| - 1] as int - '0' as int)
  }

  /** `str(n)`: decimal digits denoting `n`, with no leading zero. */
  function DecimalString(n: nat): (r: string)
    ensures |r| > 0 && forall i | 0 <= i < |r| :: IsAsciiDigit(r[i])
    ensures DigitsValue(r) == n
    ensures r[0] == '0' ==> r == "0"
    decreases n
  {
    if n < 10 then [('0' as int + n) as char]
    else
      var r := DecimalString(n / 10) + [('0' as int + n % 10) as char];
      assert r[..|r| - 1] == DecimalString(n / 10);
      r
  }

  const TooManyDetail: string := "Error you can not scan more than 30 emails at a time"

  /** `get_unsubscribe_links_from_inbox`. */
  function InboxScan(
    t: Tables, log: seq<ImapCommand>, linked: Option<string>,
    howMany: int, orderBy: string, sel: SelectReply, mb: Mailbox): InboxOutcome
  {
    if howMany > 30 then InboxOutcome(t, log, Failure(Refused(HttpError(400, TooManyDetail))))
    else
      var logSel := log + [Select("INBOX", true)];
      if sel.status != "OK" then
        InboxOutcome(t, logSel, Failure(Refused(HttpError(400, "Could not select Inbox...\tGot status: " + sel.status))))
      else if sel.count.None? || sel.count.value == 0 then InboxOutcome(t, logSel, Success(None))
      else
        var n := sel.count.value;
        var w := ScanWindow(orderBy, howMany, n);
        if w.howMany > n then
          InboxOutcome(t, logSel, Failure(Refused(HttpError(400,
            "how_many can't be greater than total number of emails in Inbox: " + DecimalString(n)))))
        else
          var s := RunLoop(LoopState(t, [], logSel, None), w.indices, linked, mb);
          if s.error.Some? then InboxOutcome(s.tables, s.log, Failure(s.error.value))
          else InboxOutcome(s.tables, s.log + [Close], Success(Some(s.scanned)))
  }

  // ---------------------------------------------------------------------------
  // Properties of the scan

  /** The two fetches a visited message costs. */
  function FetchesFor(indices: seq<int>): (r: seq<ImapCommand>)
    ensures |r| == 2 * |indices|
    ensures forall k | 0 <= k < |indices| ::
      r[2 * k] == Fetch(indices[k], "(RFC822)") && r[2 * k + 1] == Fetch(indices[k], "(INTERNALDATE)")
    decreases |indices|
  {
    if indices == [] then []
    else
      var i := indices[|indices| - 1];
      FetchesFor(indices[..|indices| - 1]) + [Fetch(i, "(RFC822)"), Fetch(i, "(INTERNALDATE)")]
  }

  /** One turn adds at most one result and, with it, one scanned-email row
      and one id; it keeps the tables valid; and a turn without an error has
      sent the two fetches for its message. */
  lemma TurnFacts(s: LoopState, i: int, linked: Option<string>, mb: Mailbox)
    ensures var r := LoopTurn(s, i, linked, mb);
      && s.scanned <= r.scanned && |r.scanned| <= |s.scanned| + 1
      && |r.tables.scannedEmails| - |s.tables.scannedEmails| == |r.scanned| - |s.scanned|
      && r.tables.nextId - s.tables.nextId == |r.scanned| - |s.scanned|
      && (TablesValid(s.tables) ==> TablesValid(r.tables))
      && (r.error.None? ==> r.log == s.log + [Fetch(i, "(RFC822)"), Fetch(i, "(INTERNALDATE)")])
  {
    var reply := mb.message(i);
    if reply.status == "OK" {
      var text := InternalDate(mb.date(i).data);
      if text.Some? && mb.parseDate(text.value).Some? {
        var date := mb.parseDate(text.value).value;
        if TablesValid(s.tables) {
          ScanStepValid(s.tables, reply.email, linked, date);
        }
      }
    }
  }

  /** Every turn of the loop added at most one result and exactly as many
      scanned-email rows and ids as results, and the tables stayed valid. */
  lemma {:induction false} LoopCounts(s: LoopState, indices: seq<int>, linked: Option<string>, mb: Mailbox)
    requires s.error.None?
    ensures var r := RunLoop(s, indices, linked, mb);
      && s.scanned <= r.scanned && |r.scanned| <= |s.scanned| + |indices|
      && |r.tables.scannedEmails| - |s.tables.scannedEmails| == |r.scanned| - |s.scanned|
      && r.tables.nextId - s.tables.nextId == |r.scanned| - |s.scanned|
      && (TablesValid(s.tables) ==> TablesValid(r.tables))
    decreases |indices|
  {
    if indices != [] {
      var init := indices[..|indices| - 1];
      LoopCounts(s, init, linked, mb);
      var before := RunLoop(s, init, linked, mb);
      if before.error.None? {
        TurnFacts(before, indices[|indices| - 1], linked, mb);
      }
    }
  }

  /** A loop that ends without an error has fetched every message of the
      window, in order, twice each. */
  lemma {:induction false} LoopFetches(s: LoopState, indices: seq<int>, linked: Option<string>, mb: Mailbox)
    requires s.error.None?
    ensures var r := RunLoop(s, indices, linked, mb);
      r.error.None? ==> r.log == s.log + FetchesFor(indices)
    decreases |indices|
  {
    if indices != [] {
      var init := indices[..|indices| - 1];
      var i := indices[|indices| - 1];
      var before := RunLoop(s, init, linked, mb);
      var r := RunLoop(s, indices, linked, mb);
      if r.error.None? {
        assert before.error.None?;
        LoopFetches(s, init, linked, mb);
        assert r == LoopTurn(before, i, linked, mb);
        var pair := [Fetch(i, "(RFC822)"), Fetch(i, "(INTERNALDATE)")];
        assert FetchesFor(indices) == FetchesFor(init) + pair;
        assert r.log == (s.log + FetchesFor(init)) + pair;
        assert (s.log + FetchesFor(init)) + pair == s.log + (FetchesFor(init) + pair);
      }
    }
  }

  /** Once a turn fails the loop stops: the later messages are not
      fetched. */
  lemma {:induction false} LoopStopsAtError(s: LoopState, xs: seq<int>, ys: seq<int>, linked: Option<string>, mb: Mailbox)
    requires RunLoop(s, xs, linked, mb).error.Some?
    ensures RunLoop(s, xs + ys, linked, mb) == RunLoop(s, xs, linked, mb)
    decreases |ys|
  {
    if ys == [] {
      assert xs + ys == xs;
    } else {
      var init := ys[..|ys| - 1];
      assert (xs + ys)[..|xs + ys| - 1] == xs + init;
      LoopStopsAtError(s, xs, init, linked, mb);
    }
  }

  /** More than 30 is refused before the inbox is selected: no command is
      sent and the tables are untouched. */
  lemma TooManyRefused(t: Tables, log: seq<ImapCommand>, linked: Option<string>,
                       howMany: int, orderBy: string, sel: SelectReply, mb: Mailbox)
    requires howMany > 30
    ensures InboxScan(t, log, linked, howMany, orderBy, sel, mb)
      == InboxOutcome(t, log, Failure(Refused(HttpError(400, TooManyDetail))))
  {
  }

  /** A window larger than the inbox is refused after the select and before
      any fetch. */
  lemma LargerThanInboxRefused(t: Tables, log: seq<ImapCommand>, linked: Option<string>,
                               howMany: int, orderBy: string, sel: SelectReply, mb: Mailbox)
    requires howMany <= 30 && sel.status == "OK" && sel.count.Some? && sel.count.value > 0
    requires ScanWindow(orderBy, howMany, sel.count.value).howMany > sel.count.value
    ensures var o := InboxScan(t, log, linked, howMany, orderBy, sel, mb);
      && o.tables == t
      && o.log == log + [Select("INBOX", true)]
      && o.result.Failure? && o.result.error.Refused?
      && o.result.error.error.statusCode == 400
  {
    var n := sel.count.value;
    var detail := "how_many can't be greater than total number of emails in Inbox: " + DecimalString(n);
    assert InboxScan(t, log, linked, howMany, orderBy, sel, mb)
      == InboxOutcome(t, log + [Select("INBOX", true)], Failure(Refused(HttpError(400, detail))));
  }

  /** An empty inbox returns early with no result, without closing the
      mailbox. */
  lemma EmptyInboxReturnsEarly(t: Tables, log: seq<ImapCommand>, linked: Option<string>,
                               howMany: int, orderBy: string, sel: SelectReply, mb: Mailbox)
    requires howMany <= 30 && sel.status == "OK"
    requires sel.count.None? || sel.count.value == 0
    ensures InboxScan(t, log, linked, howMany, orderBy, sel, mb)
      == InboxOutcome(t, log + [Select("INBOX", true)], Success(None))
  {
  }

  /** A successful newest-first scan selects the inbox, fetches exactly the
      `how_many` newest messages from the last one down, closes the mailbox,
      and returns at most `how_many` results, one per scanned-email row it
      added. */
  lemma DescScanFetches(t: Tables, log: seq<ImapCommand>, linked: Option<string>,
                        howMany: int, sel: SelectReply, mb: Mailbox)
    requires 0 <= howMany <= 30
    requires TablesValid(t)
    requires InboxScan(t, log, linked, howMany, "desc", sel, mb).result.Success?
    ensures var o := InboxScan(t, log, linked, howMany, "desc", sel, mb);
      o.result.value.Some? ==>
        var n := sel.count.value;
        var ix := ScanWindow("desc", howMany, n).indices;
        && howMany <= n
        && o.log == log + [Select("INBOX", true)] + FetchesFor(ix) + [Close]
        && |ix| == howMany
        && (forall k | 0 <= k < howMany :: ix[k] == n - k)
        && |o.result.value.value| <= howMany
        && |o.tables.scannedEmails| - |t.scannedEmails| == |o.result.value.value|
        && TablesValid(o.tables)
  {
    var o := InboxScan(t, log, linked, howMany, "desc", sel, mb);
    if o.result.value.Some? {
      var n := sel.count.value;
      var w := ScanWindow("desc", howMany, n);
      DescWindow(howMany, n);
      LoopCounts(LoopState(t, [], log + [Select("INBOX", true)], None), w.indices, linked, mb);
      LoopFetches(LoopState(t, [], log + [Select("INBOX", true)], None), w.indices, linked, mb);
    }
  }

  /** The status of the INTERNALDATE reply makes no difference: two mailboxes
      that differ only there give the same scan. */
  lemma {:induction false} DateStatusIgnored(s: LoopState, indices: seq<int>, linked: Option<string>, mb: Mailbox, mb': Mailbox)
    requires mb'.message == mb.message && mb'.parseDate == mb.parseDate
    requires forall i :: mb'.date(i).data == mb.date(i).data
    ensures RunLoop(s, indices, linked, mb') == RunLoop(s, indices, linked, mb)
    decreases |indices|
  {
    if indices != [] {
      DateStatusIgnored(s, indices[..|indices| - 1], linked, mb, mb');
    }
  }

  // ---------------------------------------------------------------------------
  // Scanning the same window again

  /** No two stored rows are the same message under the duplicate test. The
      test ignores the account, so neither does this. */
  ghost predicate KeysDistinct(rows: seq<ScannedEmail>)
  {
    forall i, j | 0 <= i < j < |rows| ::
      !SameMessage(rows[j], rows[i].emailFrom, rows[i].subject, rows[i].inboxDate)
  }

  /** A step only appends scanned rows, and afterwards the message is
      stored. */
  lemma StepStores(t: Tables, e: Email, linked: Option<string>, inboxDate: int)
    ensures var u := ScanStep(t, e, linked, inboxDate).tables;
      t.scannedEmails <= u.scannedEmails && AlreadyScanned(u, e, inboxDate)
  {
    if !AlreadyScanned(t, e, inboxDate) {
      var u := ScanStep(t, e, linked, inboxDate).tables;
      assert SameMessage(u.scannedEmails[|t.scannedEmails|], e.emailFrom, e.subject, inboxDate);
    }
  }

  /** A step keeps the keys distinct: it adds a row only for a message the
      query does not find. */
  lemma StepKeysDistinct(t: Tables, e: Email, linked: Option<string>, inboxDate: int)
    requires KeysDistinct(t.scannedEmails)
    ensures KeysDistinct(ScanStep(t, e, linked, inboxDate).tables.scannedEmails)
  {
    if !AlreadyScanned(t, e, inboxDate) {
      var rows := ScanStep(t, e, linked, inboxDate).tables.scannedEmails;
      var n := |t.scannedEmails|;
      forall i, j | 0 <= i < j < |rows|
        ensures !SameMessage(rows[j], rows[i].emailFrom, rows[i].subject, rows[i].inboxDate)
      {
        if j == n {
          assert rows[i] == t.scannedEmails[i];
          assert !SameMessage(t.scannedEmails[i], e.emailFrom, e.subject, inboxDate);
        } else {
          assert rows[i] == t.scannedEmails[i] && rows[j] == t.scannedEmails[j];
        }
      }
    }
  }

  /** One turn only appends scanned rows and keeps the keys distinct. */
  lemma TurnKeepsKeys(s: LoopState, i: int, linked: Option<string>, mb: Mailbox)
    ensures var r := LoopTurn(s, i, linked, mb);
      && s.tables.scannedEmails <= r.tables.scannedEmails
      && (KeysDistinct(s.tables.scannedEmails) ==> KeysDistinct(r.tables.scannedEmails))
  {
    var reply := mb.message(i);
    if reply.status == "OK" {
      var text := InternalDate(mb.date(i).data);
      if text.Some? && mb.parseDate(text.value).Some? {
        var date := mb.parseDate(text.value).value;
        StepStores(s.tables, reply.email, linked, date);
        if KeysDistinct(s.tables.scannedEmails) {
          StepKeysDistinct(s.tables, reply.email, linked, date);
        }
      }
    }
  }

  /** The loop only appends scanned rows and keeps the keys distinct. */
  lemma {:induction false} LoopKeepsKeys(s: LoopState, indices: seq<int>, linked: Option<string>, mb: Mailbox)
    ensures var r := RunLoop(s, indices, linked, mb);
      && s.tables.scannedEmails <= r.tables.scannedEmails
      && (KeysDistinct(s.tables.scannedEmails) ==> KeysDistinct(r.tables.scannedEmails))
    decreases |indices|
  {
    if indices != [] {
      var init := indices[..|indices| - 1];
      LoopKeepsKeys(s, init, linked, mb);
      var before := RunLoop(s, init, linked, mb);
      if before.error.None? {
        TurnKeepsKeys(before, indices[|indices| - 1], linked, mb);
      }
    }
  }

  /** The turn of a second scan over tables that hold everything the first
      scan's turn stored: it stores nothing and fails as the first did. */
  lemma RescanTurn(r1: LoopState, i: int, linked: Option<string>, mb: Mailbox,
                   big: Tables, log2: seq<ImapCommand>, other: Option<string>)
    requires LoopTurn(r1, i, linked, mb).tables.scannedEmails <= big.scannedEmails
    ensures var r2 := LoopTurn(LoopState(big, [], log2, None), i, other, mb);
      r2.tables == big && r2.scanned == [] && r2.error == LoopTurn(r1, i, linked, mb).error
  {
    var reply := mb.message(i);
    if reply.status == "OK" {
      var text := InternalDate(mb.date(i).data);
      if text.Some? && mb.parseDate(text.value).Some? {
        var date := mb.parseDate(text.value).value;
        var u := ScanStep(r1.tables, reply.email, linked, date).tables;
        StepStores(r1.tables, reply.email, linked, date);
        assert u.scannedEmails + big.scannedEmails[|u.scannedEmails|..] == big.scannedEmails;
        FirstMatchExtends(u.scannedEmails, big.scannedEmails[|u.scannedEmails|..],
                          reply.email.emailFrom, reply.email.subject, date);
      }
    }
  }

  /** A second loop over the same window and replies, from tables that hold
      everything the first loop stored, stores nothing, returns no result and
      ends with the first loop's error. */
  lemma {:induction false} RescanLoopFrom(s: LoopState, indices: seq<int>, linked: Option<string>, mb: Mailbox,
                                          big: Tables, log2: seq<ImapCommand>, other: Option<string>)
    requires s.error.None?
    requires RunLoop(s, indices, linked, mb).tables.scannedEmails <= big.scannedEmails
    ensures var r2 := RunLoop(LoopState(big, [], log2, None), indices, other, mb);
      r2.tables == big && r2.scanned == [] && r2.error == RunLoop(s, indices, linked, mb).error
    decreases |indices|
  {
    if indices != [] {
      var init := indices[..|indices| - 1];
      var i := indices[|indices| - 1];
      var r1 := RunLoop(s, init, linked, mb);
      if r1.error.None? {
        TurnKeepsKeys(r1, i, linked, mb);
      }
      RescanLoopFrom(s, init, linked, mb, big, log2, other);
      var r2 := RunLoop(LoopState(big, [], log2, None), init, other, mb);
      if r1.error.None? {
        RescanTurn(r1, i, linked, mb, big, r2.log, other);
        assert r2 == LoopState(big, [], r2.log, None);
      }
    }
  }

  /** Running the loop over the same window and the same replies a second
      time, from the tables the first run left, changes no table and reports
      no message, whatever account the second run links. */
  lemma RescanLoopChangesNothing(t: Tables, log: seq<ImapCommand>, log2: seq<ImapCommand>,
                                 indices: seq<int>, linked: Option<string>, other: Option<string>, mb: Mailbox)
    ensures var s1 := RunLoop(LoopState(t, [], log, None), indices, linked, mb);
      var s2 := RunLoop(LoopState(s1.tables, [], log2, None), indices, other, mb);
      s2.tables == s1.tables && s2.scanned == [] && s2.error == s1.error
  {
    var s1 := RunLoop(LoopState(t, [], log, None), indices, linked, mb);
    RescanLoopFrom(LoopState(t, [], log, None), indices, linked, mb, s1.tables, log2, other);
  }

  /** The scan reaches the loop exactly when it is not refused, the inbox
      is not empty and the window fits. */
  predicate ReachesLoop(howMany: int, orderBy: string, sel: SelectReply)
  {
    && howMany <= 30 && sel.status == "OK" && sel.count.Some? && sel.count.value != 0
    && ScanWindow(orderBy, howMany, sel.count.value).howMany <= sel.count.value
  }

  /** A scan that does not reach the loop leaves the tables alone, and its
      outcome does not depend on them. */
  lemma BeforeLoopIgnoresTables(t: Tables, log: seq<ImapCommand>, linked: Option<string>,
                                t2: Tables, log2: seq<ImapCommand>, other: Option<string>,
                                howMany: int, orderBy: string, sel: SelectReply, mb: Mailbox)
    requires !ReachesLoop(howMany, orderBy, sel)
    ensures var o1 := InboxScan(t, log, linked, howMany, orderBy, sel, mb);
      o1.tables == t && o1.result == InboxScan(t2, log2, other, howMany, orderBy, sel, mb).result
  {
  }

  /** A scan that reaches the loop ends as the loop over its window does. */
  lemma LoopDecidesScan(t: Tables, log: seq<ImapCommand>, linked: Option<string>,
                        howMany: int, orderBy: string, sel: SelectReply, mb: Mailbox)
    requires ReachesLoop(howMany, orderBy, sel)
    ensures var o := InboxScan(t, log, linked, howMany, orderBy, sel, mb);
      var s := RunLoop(LoopState(t, [], log + [Select("INBOX", true)], None),
                       ScanWindow(orderBy, howMany, sel.count.value).indices, linked, mb);
      && o.tables == s.tables
      && o.result == if s.error.Some? then Failure(s.error.value) else Success(Some(s.scanned))
  {
  }

  /** A whole scan repeated with the same arguments and replies on the
      tables the first left: the tables stay as they are, an error comes back
      as before, and a successful scan reports no message. */
  lemma RescanInboxChangesNothing(t: Tables, log: seq<ImapCommand>, log2: seq<ImapCommand>,
                                  linked: Option<string>, other: Option<string>,
                                  howMany: int, orderBy: string, sel: SelectReply, mb: Mailbox)
    ensures var o1 := InboxScan(t, log, linked, howMany, orderBy, sel, mb);
      var o2 := InboxScan(o1.tables, log2, other, howMany, orderBy, sel, mb);
      && o2.tables == o1.tables
      && o2.result == (if o1.result.Success? && o1.result.value.Some? then Success(Some([])) else o1.result)
  {
    var o1 := InboxScan(t, log, linked, howMany, orderBy, sel, mb);
    if ReachesLoop(howMany, orderBy, sel) {
      var ix := ScanWindow(orderBy, howMany, sel.count.value).indices;
      LoopDecidesScan(t, log, linked, howMany, orderBy, sel, mb);
      LoopDecidesScan(o1.tables, log2, other, howMany, orderBy, sel, mb);
      RescanLoopChangesNothing(t, log + [Select("INBOX", true)], log2 + [Select("INBOX", true)],
                               ix, linked, other, mb);
    } else {
      BeforeLoopIgnoresTables(t, log, linked, o1.tables, log2, other, howMany, orderBy, sel, mb);
      BeforeLoopIgnoresTables(o1.tables, log2, other, t, log, linked, howMany, orderBy, sel, mb);
    }
  }

  /** A scan keeps the stored messages distinct. */
  lemma ScanKeysDistinct(t: Tables, log: seq<ImapCommand>, linked: Option<string>,
                         howMany: int, orderBy: string, sel: SelectReply, mb: Mailbox)
    requires KeysDistinct(t.scannedEmails)
    ensures KeysDistinct(InboxScan(t, log, linked, howMany, orderBy, sel, mb).tables.scannedEmails)
  {
    if howMany <= 30 && sel.status == "OK" && sel.count.Some? && sel.count.value != 0 {
      var n := sel.count.value;
      var w := ScanWindow(orderBy, howMany, n);
      if w.howMany <= n {
        LoopKeepsKeys(LoopState(t, [], log + [Select("INBOX", true)], None), w.indices, linked, mb);
      }
    }
  }
}
