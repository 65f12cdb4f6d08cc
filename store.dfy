/** The two tables the scanner writes, `scanned_emails` and
    `unsubscribe_links`, held in memory by a session object that adds rows and
    hands out fresh ids the way an autoincrement key does on flush. */
module Store {
  import opened Results

  /** `UnsubscribeStatus`. */
  datatype UnsubscribeStatus = success | pending | failure | unsure

  /** The enum member's value. */
  function StatusValue(s: UnsubscribeStatus): string
  {
    match s
    case success => "success"
    case pending => "pending"
    case failure => "failure"
    case unsure => "unsure"
  }

  /** A `scanned_emails` row; `inboxDate` is the instant the message reached
      the inbox, as whole seconds. */
  datatype ScannedEmail = ScannedEmail(
    id: nat,
    emailFrom: string,
    subject: string,
    linkedEmailAddress: Option<string>,
    inboxDate: int)

  /** An `unsubscribe_links` row. */
  datatype UnsubscribeLink = UnsubscribeLink(
    link: string,
    unsubscribeStatus: UnsubscribeStatus,
    linkedEmailAddress: Option<string>,
    scannedEmailId: nat)

  /** The contents of both tables and the next id the key will hand out. */
  datatype Tables = Tables(
    scannedEmails: seq<ScannedEmail>,
    unsubscribeLinks: seq<UnsubscribeLink>,
    nextId: nat)

  predicate HasRow(rows: seq<ScannedEmail>, id: nat)
  {
    exists i | 0 <= i < |rows| :: rows[i].id == id
  }

  /** Ids are handed out in increasing order and are all below the next one,
      and every link row points at an existing scanned email. */
  predicate TablesValid(t: Tables)
  {
    && (forall i | 0 <= i < |t.scannedEmails| :: t.scannedEmails[i].id < t.nextId)
    && (forall i, j | 0 <= i < j < |t.scannedEmails| :: t.scannedEmails[i].id < t.scannedEmails[j].id)
    && (forall l | l in t.unsubscribeLinks :: HasRow(t.scannedEmails, l.scannedEmailId))
  }

  /** The duplicate test the scanner's query applies: sender, subject and
      inbox date, and nothing else. */
  predicate SameMessage(e: ScannedEmail, emailFrom: string, subject: string, inboxDate: int)
  {
    e.emailFrom == emailFrom && e.subject == subject && e.inboxDate == inboxDate
  }

  /** `query(ScannedEmails).filter(...).first()`: the first row, in insertion
      order, with this sender, subject and inbox date. */
  function FirstMatch(rows: seq<ScannedEmail>, emailFrom: string, subject: string, inboxDate: int)
    : (r: Option<ScannedEmail>)
    ensures r.Some? ==> exists k | 0 <= k < |rows| ::
      && rows[k] == r.value
      && SameMessage(rows[k], emailFrom, subject, inboxDate)
      && forall j | 0 <= j < k :: !SameMessage(rows[j], emailFrom, subject, inboxDate)
    ensures r.None? <==> forall i | 0 <= i < |rows| :: !SameMessage(rows[i], emailFrom, subject, inboxDate)
    decreases |rows|
  {
    if rows == [] then None
    else if SameMessage(rows[0], emailFrom, subject, inboxDate) then Some(rows[0])
    else
      var r := FirstMatch(rows[1..], emailFrom, subject, inboxDate);
      assert forall i | 1 <= i < |rows| :: rows[i] == rows[1..][i - 1];
      r
  }

  /** A stored message stays found when rows are appended. */
  lemma FirstMatchExtends(rows: seq<ScannedEmail>, more: seq<ScannedEmail>,
                          emailFrom: string, subject: string, inboxDate: int)
    requires FirstMatch(rows, emailFrom, subject, inboxDate).Some?
    ensures FirstMatch(rows + more, emailFrom, subject, inboxDate).Some?
  {
    var k :| 0 <= k < |rows| && SameMessage(rows[k], emailFrom, subject, inboxDate);
    assert (rows + more)[k] == rows[k];
  }

  /** The state after `db.add(row); db.flush()` of a new scanned email. */
  function AddScanned(t: Tables, emailFrom: string, subject: string, linked: Option<string>, inboxDate: int)
    : Tables
  {
    Tables(t.scannedEmails + [ScannedEmail(t.nextId, emailFrom, subject, linked, inboxDate)],
           t.unsubscribeLinks, t.nextId + 1)
  }

  /** Adding a scanned email keeps the tables valid and gives the new row the
      largest id so far. */
  lemma AddScannedValid(t: Tables, emailFrom: string, subject: string, linked: Option<string>, inboxDate: int)
    requires TablesValid(t)
    ensures var u := AddScanned(t, emailFrom, subject, linked, inboxDate);
      && TablesValid(u)
      && HasRow(u.scannedEmails, t.nextId)
      && forall i | 0 <= i < |t.scannedEmails| :: u.scannedEmails[i].id < t.nextId
  {
    var u := AddScanned(t, emailFrom, subject, linked, inboxDate);
    assert u.scannedEmails[|t.scannedEmails|].id == t.nextId;
    forall l | l in u.unsubscribeLinks ensures HasRow(u.scannedEmails, l.scannedEmailId) {
      var i :| 0 <= i < |t.scannedEmails| && t.scannedEmails[i].id == l.scannedEmailId;
      assert u.scannedEmails[i] == t.scannedEmails[i];
    }
  }

  /** Adding link rows that all point at existing scanned emails keeps the
      tables valid. */
  lemma AddLinksValid(t: Tables, rows: seq<UnsubscribeLink>)
    requires TablesValid(t)
    requires forall l | l in rows :: HasRow(t.scannedEmails, l.scannedEmailId)
    ensures TablesValid(Tables(t.scannedEmails, t.unsubscribeLinks + rows, t.nextId))
  {
  }

  /** A database session over the two tables. */
  class Database {
    var scannedEmails: seq<ScannedEmail>
    var unsubscribeLinks: seq<UnsubscribeLink>
    var nextId: nat

    function State(): Tables
      reads this
    {
      Tables(scannedEmails, unsubscribeLinks, nextId)
    }

    ghost predicate Valid()
      reads this
    {
      TablesValid(State())
    }

    /** Empty tables; the autoincrement key starts at 1. */
    constructor ()
      ensures State() == Tables([], [], 1)
      ensures Valid()
    {
      scannedEmails := [];
      unsubscribeLinks := [];
      nextId := 1;
    }

    /** `db.add(scanned_email); db.flush()`: the row gets the next id. */
    method AddScannedEmail(emailFrom: string, subject: string, linked: Option<string>, inboxDate: int)
      returns (row: ScannedEmail)
      modifies this
      ensures row == ScannedEmail(old(nextId), emailFrom, subject, linked, inboxDate)
      ensures State() == AddScanned(old(State()), emailFrom, subject, linked, inboxDate)
      ensures old(Valid()) ==> Valid()
    {
      if Valid() {
        AddScannedValid(State(), emailFrom, subject, linked, inboxDate);
      }
      row := ScannedEmail(nextId, emailFrom, subject, linked, inboxDate);
      scannedEmails := scannedEmails + [row];
      nextId := nextId + 1;
    }

    /** `db.add_all(rows); db.flush()`. */
    method AddAll(rows: seq<UnsubscribeLink>)
      modifies this
      ensures State() == Tables(old(scannedEmails), old(unsubscribeLinks) + rows, old(nextId))
      ensures old(Valid()) && (forall l | l in rows :: HasRow(old(scannedEmails), l.scannedEmailId)) ==> Valid()
    {
      unsubscribeLinks := unsubscribeLinks + rows;
    }
  }
}
