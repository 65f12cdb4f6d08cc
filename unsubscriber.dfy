/** `EmailUnsubscriber`: a connection to one provider's IMAP server, the
    account logged in on it, and the scan of its inbox into the two tables.
    The connection is the list of commands sent on it; the server's replies
    are inputs of the methods that read them. */
module Unsubscriber {
  import opened Results
  import opened Store
  import opened MessageLinks
  import opened Validators
  import opened Scanning

  class EmailUnsubscriber {
    var emailType: string
    /** `self.email`: the account logged in, `None` before any login. */
    var email: Option<string>
    /** The commands sent to the IMAP server so far. */
    var imapLog: seq<ImapCommand>

    /** `__init__` for a supported provider: connect to its server. */
    constructor (emailType: string)
      requires ImapServerFor(emailType).Some?
      ensures this.emailType == emailType && email == None
      ensures imapLog == [Connect(ImapServerFor(emailType).value)]
    {
      this.emailType := emailType;
      email := None;
      imapLog := [Connect(ImapServerFor(emailType).value)];
    }

    /** `EmailUnsubscriber(email_type)`, with the 400 error of an unsupported
        provider as a `Failure`. */
    static method Open(emailType: string) returns (r: Result<EmailUnsubscriber, HttpError>)
      ensures r.Failure? <==> CheckEmailType(emailType).Failure?
      ensures r.Failure? ==> r.error == CheckEmailType(emailType).error
      ensures r.Success? ==> && fresh(r.value)
                             && r.value.emailType == emailType && r.value.email == None
                             && r.value.imapLog == [Connect(CheckEmailType(emailType).value)]
    {
      match CheckEmailType(emailType) {
        case Failure(e) =>
          r := Failure(e);
        case Success(server) =>
          var u := new EmailUnsubscriber(emailType);
          r := Success(u);
      }
    }

    /** `login`: a malformed address is refused before anything is sent;
        otherwise the server is asked, and `serverAccepts` is its answer. The
        account is recorded only when the server accepts. */
    method Login(user: string, password: string, serverAccepts: bool) returns (r: Result<bool, HttpError>)
      modifies this
      ensures emailType == old(emailType)
      ensures !AddressAccepted(user) ==>
        && r == Failure(HttpError(400, "Email: '" + user + "' not in correct format"))
        && imapLog == old(imapLog) && email == old(email)
      ensures AddressAccepted(user) ==>
        && r == Success(serverAccepts)
        && imapLog == old(imapLog) + [LoginCommand(user, password)]
        && email == (if serverAccepts then Some(user) else old(email))
    {
      if !AddressAccepted(user) {
        r := Failure(HttpError(400, "Email: '" + user + "' not in correct format"));
        return;
      }
      imapLog := imapLog + [LoginCommand(user, password)];
      if serverAccepts {
        email := Some(user);
        r := Success(true);
      } else {
        r := Success(false);
      }
    }

    /** `_scan_email_message_obj`: skip a message already stored; otherwise
        store it, then one `pending` row per link found in it. */
    static method ScanEmailMessageObj(db: Database, e: Email, linked: Option<string>, inboxDate: int)
      returns (summary: Option<ScanSummary>)
      modifies db
      ensures StepOutcome(db.State(), summary) == ScanStep(old(db.State()), e, linked, inboxDate)
      ensures old(db.Valid()) ==> db.Valid()
    {
      ghost var t := db.State();
      if old(db.Valid()) {
        ScanStepValid(t, e, linked, inboxDate);
      }
      var existing := FirstMatch(db.scannedEmails, e.emailFrom, e.subject, inboxDate);
      if existing.Some? {
        return None;
      }
      var row := db.AddScannedEmail(e.emailFrom, e.subject, linked, inboxDate);
      var links := GetUnsubscribeLinksFromEmail(e.body);
      var objs := LinkRows(links, linked, row.id);
      db.AddAll(objs);
      summary := Some(ScanSummary(row.id, e.emailFrom, e.subject, |objs|, StatusValue(pending)));
    }

    /** The loop of `_scan_email_message_obj` that builds the link rows. */
    static method LinkRows(links: seq<string>, linked: Option<string>, id: nat)
      returns (objs: seq<UnsubscribeLink>)
      ensures objs == PendingRows(links, linked, id)
    {
      objs := [];
      for k := 0 to |links|
        invariant objs == PendingRows(links[..k], linked, id)
      {
        assert links[..k + 1][..k] == links[..k];
        objs := objs + [UnsubscribeLink(links[k], pending, linked, id)];
      }
      assert links[..|links|] == links;
    }

    /** One turn of the inbox loop: fetch message number `i` and its date,
        and scan it. */
    method ScanTurn(db: Database, i: int, scanned: seq<ScanSummary>, mb: Mailbox)
      returns (scannedOut: seq<ScanSummary>, error: Option<InboxError>)
      modifies this, db
      ensures LoopTurn(LoopState(old(db.State()), scanned, old(imapLog), None), i, email, mb)
        == LoopState(db.State(), scannedOut, imapLog, error)
      ensures email == old(email) && emailType == old(emailType)
      ensures old(db.Valid()) ==> db.Valid()
    {
      scannedOut := scanned;
      imapLog := imapLog + [Fetch(i, "(RFC822)")];
      var reply := mb.message(i);
      if reply.status != "OK" {
        return scanned, Some(FetchFailed(i, reply.status));
      }
      imapLog := imapLog + [Fetch(i, "(INTERNALDATE)")];
      // the status of this reply goes unchecked: the code tests `response` again
      var dateReply := mb.date(i);
      var text := InternalDate(dateReply.data);
      if text.None? {
        return scanned, Some(MissingDate(i));
      }
      var date := mb.parseDate(text.value);
      if date.None? {
        return scanned, Some(UnparsableDate(i));
      }
      var summary := ScanEmailMessageObj(db, reply.email, email, date.value);
      if summary.Some? {
        scannedOut := scanned + [summary.value];
      }
      error := None;
    }

    /** `for i in range(*range_params)`: the turns in order, stopping at the
        first that raises. */
    method ScanWindowMessages(db: Database, indices: seq<int>, mb: Mailbox)
      returns (scanned: seq<ScanSummary>, error: Option<InboxError>)
      modifies this, db
      ensures RunLoop(LoopState(old(db.State()), [], old(imapLog), None), indices, email, mb)
        == LoopState(db.State(), scanned, imapLog, error)
      ensures email == old(email) && emailType == old(emailType)
      ensures old(db.Valid()) ==> db.Valid()
    {
      ghost var s0 := LoopState(db.State(), [], imapLog, None);
      scanned := [];
      for k := 0 to |indices|
        invariant RunLoop(s0, indices[..k], email, mb) == LoopState(db.State(), scanned, imapLog, None)
        invariant email == old(email) && emailType == old(emailType)
        invariant old(db.Valid()) ==> db.Valid()
      {
        assert indices[..k + 1][..k] == indices[..k];
        scanned, error := ScanTurn(db, indices[k], scanned, mb);
        if error.Some? {
          assert indices[..k + 1] + indices[k + 1..] == indices;
          LoopStopsAtError(s0, indices[..k + 1], indices[k + 1..], email, mb);
          return;
        }
      }
      assert indices[..|indices|] == indices;
      error := None;
    }

    /** `get_unsubscribe_links_from_inbox`, with the replies of the `select`
        and of the fetches as inputs. */
    method GetUnsubscribeLinksFromInbox(
      db: Database, howMany: int, orderBy: string, sel: SelectReply, mb: Mailbox)
      returns (r: Result<Option<seq<ScanSummary>>, InboxError>)
      modifies this, db
      ensures var o := InboxScan(old(db.State()), old(imapLog), old(email), howMany, orderBy, sel, mb);
        db.State() == o.tables && imapLog == o.log && r == o.result
      ensures email == old(email) && emailType == old(emailType)
      ensures old(db.Valid()) ==> db.Valid()
    {
      if howMany > 30 {
        return Failure(Refused(HttpError(400, TooManyDetail)));
      }
      imapLog := imapLog + [Select("INBOX", true)];
      if sel.status != "OK" {
        return Failure(Refused(HttpError(400, "Could not select Inbox...\tGot status: " + sel.status)));
      }
      if sel.count.None? || sel.count.value == 0 {
        return Success(None);
      }
      var n := sel.count.value;
      var h := howMany;
      var indices: seq<int>;
      if orderBy == "desc" {
        indices := PyRange(n, n - h, -1);
      } else if orderBy == "asc" {
        h := if howMany == 0 then n else howMany;
        indices := PyRange(0, h, 1);
      } else {
        h := if howMany == 0 then n else howMany;
        indices := PyRange(h, 0, -1);
      }
      assert Window(h, indices) == ScanWindow(orderBy, howMany, n);
      if h > n {
        return Failure(Refused(HttpError(400,
          "how_many can't be greater than total number of emails in Inbox: " + DecimalString(n))));
      }
      var scanned, error := ScanWindowMessages(db, indices, mb);
      if error.Some? {
        return Failure(error.value);
      }
      imapLog := imapLog + [Close];
      r := Success(Some(scanned));
    }
  }
}
