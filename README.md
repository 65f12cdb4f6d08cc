# Email-Tidy inbox scanner, modelled in Dafny

Email-Tidy scans a user's mailbox for unsubscribe links. It connects to the
provider's IMAP server and logs in. It reads a window of messages from the
inbox. For each message it never stored before, it writes a row to
`scanned_emails` and one `pending` row per unsubscribe link to
`unsubscribe_links`. This project models the heart of that scanner, the
`EmailUnsubscriber` class, together with the rule that names the database
tables after their model classes (`Base.__tablename__`).

The modules follow the program's structure:

- `Results` (results.dfy): `Option`, `Result`, and the HTTP 400 errors the
  class raises (`HttpError`).
- `TextOps` (text_ops.dfy): the string operations the code uses. These are
  `lower()`, `title()`, `find`, `in`, `split('"')`, `join`, and removing
  `\n`/`\r`.
- `LinkLists` (link_lists.dfy): "append the link if it is not already in the
  list" (`AppendNew`, `AppendAllNew`). It also holds the facts about that
  append: no duplicates, membership, and first-seen order. `MergeGroups`
  merges the lists of several parts.
- `UrlPattern` (url_pattern.dfy): `re.search` with the URL pattern of the
  plain-text extractor. The pattern is written out as the backtracking
  matcher runs it. The pattern is proved to match at a position exactly
  when a URL-shaped span (`UrlShape`) starts there, and the match is proved
  to be the longest such span. `re.search` is proved to return the
  leftmost-longest URL-shaped span.
- `Extractors` (extractors.dfy): the keyword list, plus
  `_get_unsubscribe_links_from_text_plain` and
  `_get_unsubscribe_links_from_html`. Each is a loop-and-append method
  proved equal to a specification function, which has its own lemmas.
- `MessageLinks` (message_links.dfy): `_get_unsubscribe_links_from_email`,
  which walks the parts of a message and merges their links.
- `Store` (store.dfy): the two tables as a `Database` class. It has methods
  for `add`/`flush` (the fresh autoincrement id) and for `add_all`. It also
  holds the first-match query and the referential invariant `TablesValid`.
- `Scanning` (scanning.dfy): the parts of `get_unsubscribe_links_from_inbox`
  and `_scan_email_message_obj` that compute, written as functions of their
  inputs:
  - one dedupe-then-persist step;
  - the `range_params` window;
  - the INTERNALDATE split;
  - one loop turn;
  - the whole scan.

  The IMAP replies are inputs. The module also proves what these functions
  promise. This includes two facts about repeated scans:
  - a scan keeps the stored messages distinct by sender, subject and inbox
    date (`KeysDistinct`);
  - a scan repeated with the same replies, on the tables it left, changes
    nothing and reports no message.
- `Unsubscriber` (unsubscriber.dfy): the `EmailUnsubscriber` class, with the
  fields `email_type` and `email` and the log of IMAP commands sent. It has
  the constructor, `login`, `_scan_email_message_obj` and
  `get_unsubscribe_links_from_inbox` as methods. The constructor, `Open`
  and `Login` are stated against `Validators.ImapServerFor`,
  `CheckEmailType` and `AddressAccepted`. The scanning methods are proved
  to produce exactly the state and result of their `Scanning` function.
- `Validators` (validators.dfy): the address pattern of `login`,
  `get_domain_from_email`, and the provider lookup of the constructor.
- `TableNames` (table_names.dfy): `__tablename__`. It is proved against
  reference definitions: the characters `findall` keeps, and the counts of
  upper-case letters and underscores.

IMAP is not modelled as I/O:

- the server's answers are parameters (`SelectReply`, `Mailbox`, and the
  `serverAccepts` flag of `login`);
- the commands sent are recorded in the `imapLog` field;
- `parsedate_to_datetime` is the `parseDate` function of `Mailbox`, and an
  inbox date is a whole number of seconds;
- `how_many` is an `int`. Its `None` default would fail at the first
  comparison (`how_many > 30`).

The model follows the code in these points:

- The duplicate query filters by sender, subject and inbox date only, not
  by linked account. A message stored for one account is skipped for every
  other account.
- The inbox date comes from the INTERNALDATE fetch. The full message
  (`RFC822`) is fetched.
- Every link of a new message gets a row, including links already stored
  for the account.
- An `(RFC822)` fetch whose status is not `OK` raises and ends the scan.
- `scanned_emails.py` declares no `inbox_date` column.
  `_scan_email_message_obj` stores and queries one, so the model's
  `ScannedEmail` row carries it.
- `asc` starts at message number 0.
- `desc` with `how_many` 0 scans nothing.
- The status of the INTERNALDATE reply is never checked.
- `$` in the address pattern lets one final newline through.
- The lookup keys are `yahoo` and `google`, but callers pass the domain of
  the address. For a Gmail address that domain is `gmail`
  (`Validators.GmailDomainRefused`).

## Model

| member | source | states |
|---|---|---|
| Extractors.KeywordLink | backend/py/app/objects/email_unsubscriber.py:483-497 | a keyword's link is the leftmost-longest URL-shaped text after the keyword's first case-insensitive occurrence, once `\n`/`\r` are removed from there on |
| Extractors.KeywordLinkAbsent | backend/py/app/objects/email_unsubscriber.py:483-496 | a keyword contributes nothing exactly when it is absent from the lower-cased body or no URL follows its first occurrence |
| Extractors.KeywordCandidatesAt | backend/py/app/objects/email_unsubscriber.py:482-497 | candidate k is the link of keyword k |
| Extractors.GetUnsubscribeLinksFromTextPlain | backend/py/app/objects/email_unsubscriber.py:469-499 | the loop returns the specified plain-text links: no duplicates, at most one per keyword, each the link some keyword found |
| Extractors.TextPlainLinksFacts | backend/py/app/objects/email_unsubscriber.py:482-497 | plain-text links are duplicate-free and at most 7; each starts with `http://` or `https://`, has the URL shape and holds no `\n` or `\r` |
| Extractors.TextPlainLinksComplete | backend/py/app/objects/email_unsubscriber.py:482-497 | the link every keyword finds is in the result |
| Extractors.TextPlainKeywordOrder | backend/py/app/objects/email_unsubscriber.py:482-497 | plain-text links come in the order of the keywords that first found them |
| UrlPattern.SearchFindsLeftmostUrl | backend/py/app/objects/email_unsubscriber.py:490-493 | `re.search` returns the leftmost-longest URL-shaped span: no URL-shaped span starts earlier, and none starting at the same place ends later; it finds nothing exactly when no substring is URL-shaped |
| UrlPattern.LeftmostLongestUnique | backend/py/app/objects/email_unsubscriber.py:490-493 | there is only one leftmost-longest URL-shaped span, so that property fixes the match |
| UrlPattern.SearchFromSkips | backend/py/app/objects/email_unsubscriber.py:490-493 | the search passes over only positions where the pattern does not match |
| UrlPattern.MatchIsUrl | backend/py/app/objects/email_unsubscriber.py:491 | a match of the pattern is URL-shaped and its tail cannot be extended |
| UrlPattern.ShapeEndsWithinMatch | backend/py/app/objects/email_unsubscriber.py:491 | every URL-shaped span starting at a position ends no later than the match there: backtracking stops at the last usable dot |
| UrlPattern.MatchIsLongest | backend/py/app/objects/email_unsubscriber.py:491 | the match at a position is the longest URL-shaped span starting there |
| UrlPattern.UrlIsMatched | backend/py/app/objects/email_unsubscriber.py:491 | the pattern matches wherever a URL-shaped string starts |
| UrlPattern.UrlShapeFacts | backend/py/app/objects/email_unsubscriber.py:491 | a URL-shaped string starts with `http://` or `https://`, holds a dot and has no line break |
| UrlPattern.FirstUrl | backend/py/app/objects/email_unsubscriber.py:490-497 | the text of the first match is the text of the leftmost-longest URL-shaped span; there is none exactly when no substring is URL-shaped |
| Extractors.MatchingMembers | backend/py/app/objects/email_unsubscriber.py:452-453 | the XPath query returns exactly the anchors whose text contains the needle |
| Extractors.MatchingAppend | backend/py/app/objects/email_unsubscriber.py:452-453 | the query keeps document order: on a document split in two, the matches of the first part come first |
| Extractors.MatchingSingle | backend/py/app/objects/email_unsubscriber.py:452-453 | a single anchor is kept exactly when its text contains the needle |
| Extractors.MatchingSnoc | backend/py/app/objects/email_unsubscriber.py:452-453 | one more anchor at the end of the document adds itself to the matches exactly when its text contains the needle |
| Extractors.Selected | backend/py/app/objects/email_unsubscriber.py:452-456 | the title-cased query is used only when the lower-case one finds nothing; the anchors selected are exactly those picked for the keyword |
| Extractors.Hrefs | backend/py/app/objects/email_unsubscriber.py:460-463 | only non-empty hrefs of the elements are kept |
| Extractors.HrefsComplete | backend/py/app/objects/email_unsubscriber.py:460-463 | every non-empty href of the elements is kept |
| Extractors.AppendHrefs | backend/py/app/objects/email_unsubscriber.py:460-464 | the inner loop appends each new non-empty href, in element order |
| Extractors.GetUnsubscribeLinksFromHtml | backend/py/app/objects/email_unsubscriber.py:430-466 | the loop returns the specified HTML links, without duplicates |
| Extractors.HtmlLinksFacts | backend/py/app/objects/email_unsubscriber.py:450-464 | each HTML link is a non-empty href of an anchor picked for some keyword; the links are duplicate-free and in keyword order, then anchor order |
| Extractors.HtmlLinksComplete | backend/py/app/objects/email_unsubscriber.py:450-464 | the non-empty href of every anchor picked for a keyword is among the HTML links |
| Extractors.TitledWords | backend/py/app/objects/email_unsubscriber.py:455 | `title()` of the one-word keywords capitalises them |
| Extractors.TitledBracketed | backend/py/app/objects/email_unsubscriber.py:455 | `title()` of `[unsubscribe]` is `[Unsubscribe]` |
| Extractors.TitledOptOut | backend/py/app/objects/email_unsubscriber.py:455 | `title()` capitalises both words of `opt-out` and `opt out` |
| Extractors.HtmlCapitalisedAnchor | backend/py/app/objects/email_unsubscriber.py:451-456 | an anchor reading `Unsubscribe` is missed by the lower-case query and found by the title-cased one |
| LinkLists.AppendAllNew | backend/py/app/objects/email_unsubscriber.py:392-394 | appending only links not yet present keeps the old list as a prefix, loses and invents nothing, and keeps the list duplicate-free |
| LinkLists.FirstSeenOrder | backend/py/app/objects/email_unsubscriber.py:392-394 | the merged links keep the order in which they were first seen |
| LinkLists.MergeGroupsFacts | backend/py/app/objects/email_unsubscriber.py:370-413 | merging the parts' links gives a duplicate-free list holding exactly the links of the parts |
| MessageLinks.AppendMissing | backend/py/app/objects/email_unsubscriber.py:392-394 | the dedupe loop computes the append of the links not yet present |
| MessageLinks.ExtractFrom | backend/py/app/objects/email_unsubscriber.py:378-425 | `text/plain` goes to the plain-text extractor, `text/html` to the HTML one, and any other type finds nothing |
| MessageLinks.GetUnsubscribeLinksFromEmail | backend/py/app/objects/email_unsubscriber.py:354-427 | the walk returns the specified links of the message without duplicates; a single part of another type gives `[]` |
| MessageLinks.PartGroupsAt | backend/py/app/objects/email_unsubscriber.py:372-413 | part i contributes what its own extractor finds |
| MessageLinks.MultipartLinksFacts | backend/py/app/objects/email_unsubscriber.py:371-413 | multipart links are duplicate-free and in first-seen order; each comes from some part, and every link of every part is there |
| MessageLinks.SilentPartContributesNothing | backend/py/app/objects/email_unsubscriber.py:372-407 | a part of another type, or one whose decoding raised, can be removed without changing the links |
| MessageLinks.FirstPartFirst | backend/py/app/objects/email_unsubscriber.py:372-413 | the first part's links come first, in that part's order |
| MessageLinks.EmailLinksDistinct | backend/py/app/objects/email_unsubscriber.py:368-427 | the links of any message are duplicate-free |
| Store.FirstMatch | backend/py/app/objects/email_unsubscriber.py:267-275 | the query gives the first stored row with the same sender, subject and inbox date, and none exactly when there is no such row |
| Store.AddScannedValid | backend/py/app/objects/email_unsubscriber.py:281-288 | adding a scanned email keeps ids increasing and links pointing at stored rows; the new row has the next id |
| Store.AddLinksValid | backend/py/app/models/unsubscribe_links.py:28-30 | link rows that point at stored scanned emails keep the foreign key satisfied |
| Store.Database.AddScannedEmail | backend/py/app/objects/email_unsubscriber.py:281-288 | `add` plus `flush` appends the row with the next id and advances the id |
| Store.Database.AddAll | backend/py/app/objects/email_unsubscriber.py:306-307 | `add_all` appends the link rows and changes nothing else |
| Scanning.PendingRows | backend/py/app/objects/email_unsubscriber.py:296-305 | one row per link, in order, each `pending`, for the account and the new scanned email |
| Scanning.DuplicateChangesNothing | backend/py/app/objects/email_unsubscriber.py:266-278 | a message with a stored sender, subject and date returns `{}` and changes no table, whatever the account |
| Scanning.NewMessageStored | backend/py/app/objects/email_unsubscriber.py:280-315 | otherwise exactly one scanned row is added, plus one `pending` row per link tied to its id; `link_count` is the number of rows and the status is `pending` |
| Scanning.ScanStepValid | backend/py/app/objects/email_unsubscriber.py:280-307 | a step keeps the tables valid |
| Scanning.StepRowsDistinct | backend/py/app/objects/email_unsubscriber.py:290-305 | the link rows of one step are distinct |
| Scanning.RescanChangesNothing | backend/py/app/objects/email_unsubscriber.py:266-278 | scanning the same message again, for any account, changes nothing |
| Unsubscriber.EmailUnsubscriber.LinkRows | backend/py/app/objects/email_unsubscriber.py:296-305 | the loop builds the pending rows |
| Unsubscriber.EmailUnsubscriber.ScanEmailMessageObj | backend/py/app/objects/email_unsubscriber.py:237-315 | the method leaves the database and returns the result of the specified step, and keeps the database valid |
| Scanning.PyRange | backend/py/app/objects/email_unsubscriber.py:200 | `range(start, stop, ±1)`: its length, and element k is `start + k*step` |
| Scanning.ScanWindow | backend/py/app/objects/email_unsubscriber.py:171-180 | `desc` keeps `how_many`; the other orders replace 0 by the inbox size; a non-negative window has as many numbers as its `how_many` |
| Scanning.DescWindow | backend/py/app/objects/email_unsubscriber.py:172-174 | `desc` visits exactly `how_many` numbers, from N down, strictly descending, all in 1..N |
| Scanning.DescZeroEmpty | backend/py/app/objects/email_unsubscriber.py:173-174 | `desc` with `how_many` 0 visits nothing |
| Scanning.AscWindow | backend/py/app/objects/email_unsubscriber.py:175-177 | `asc` visits 0 to `how_many`-1, starting at 0 and never reaching `how_many`; with `how_many` 0 that is 0 to N-1 |
| Scanning.OtherWindow | backend/py/app/objects/email_unsubscriber.py:178-180 | any other order counts down from `how_many` to 1 |
| Scanning.InternalDate | backend/py/app/objects/email_unsubscriber.py:215 | `split('"')[1]` raises exactly when there is no `"`, and gives text without `"` |
| Scanning.InternalDateBetweenQuotes | backend/py/app/objects/email_unsubscriber.py:215 | the date is the text between the first two quotes |
| TextOps.SplitJoinRoundTrip | backend/py/app/objects/email_unsubscriber.py:215 | joining the pieces of `split` with the separator gives the string back |
| Scanning.DecimalString | backend/py/app/objects/email_unsubscriber.py:186-187 | `str(n)` is a non-empty string of decimal digits that denotes `n`, with no leading zero unless it is `0` |
| Scanning.FetchesFor | backend/py/app/objects/email_unsubscriber.py:201-210 | each visited message costs an `(RFC822)` fetch and then an `(INTERNALDATE)` fetch |
| Scanning.TurnFacts | backend/py/app/objects/email_unsubscriber.py:200-222 | a turn adds at most one result, with one row and one id, keeps the tables valid, and without an error has sent its two fetches |
| Scanning.LoopCounts | backend/py/app/objects/email_unsubscriber.py:199-231 | results only grow, by at most one per message, in step with the scanned rows and ids; the tables stay valid |
| Scanning.LoopFetches | backend/py/app/objects/email_unsubscriber.py:199-216 | a loop without error fetches every number of the window in order, two fetches each |
| Scanning.LoopStopsAtError | backend/py/app/objects/email_unsubscriber.py:203-216 | after a failing turn no later message is fetched |
| Scanning.DateStatusIgnored | backend/py/app/objects/email_unsubscriber.py:210-213 | the status of the INTERNALDATE reply changes nothing |
| Scanning.TooManyRefused | backend/py/app/objects/email_unsubscriber.py:149-153 | `how_many > 30` is refused with its 400 before any command is sent or any table touched |
| Scanning.EmptyInboxReturnsEarly | backend/py/app/objects/email_unsubscriber.py:163-166 | an empty inbox returns nothing right after the select, without closing |
| Scanning.LargerThanInboxRefused | backend/py/app/objects/email_unsubscriber.py:182-188 | a window larger than the inbox is refused with a 400 after the select, before any fetch |
| Scanning.DescScanFetches | backend/py/app/objects/email_unsubscriber.py:172-234 | a successful `desc` scan selects, fetches the `how_many` newest messages from N down, closes, and returns at most `how_many` results, one per new row |
| Store.FirstMatchExtends | backend/py/app/objects/email_unsubscriber.py:267-275 | a message the query finds is still found after more rows are stored |
| Scanning.StepStores | backend/py/app/objects/email_unsubscriber.py:266-288 | a step only appends scanned rows, and afterwards its message is stored |
| Scanning.StepKeysDistinct | backend/py/app/objects/email_unsubscriber.py:266-288 | a step keeps the stored messages distinct by sender, subject and inbox date |
| Scanning.TurnKeepsKeys | backend/py/app/objects/email_unsubscriber.py:200-222 | a turn only appends scanned rows and keeps them distinct |
| Scanning.LoopKeepsKeys | backend/py/app/objects/email_unsubscriber.py:199-231 | the loop only appends scanned rows and keeps them distinct |
| Scanning.ScanKeysDistinct | backend/py/app/objects/email_unsubscriber.py:145-234 | a scan keeps the stored messages distinct |
| Scanning.RescanTurn | backend/py/app/objects/email_unsubscriber.py:200-222 | a turn over tables holding what an earlier turn stored stores nothing and fails as the earlier one did |
| Scanning.RescanLoopFrom | backend/py/app/objects/email_unsubscriber.py:199-231 | a second loop over tables holding what the first stored changes no table, returns no result and ends with the first loop's error |
| Scanning.RescanLoopChangesNothing | backend/py/app/objects/email_unsubscriber.py:199-231 | running the loop again over the same window from the tables it left changes nothing and reports no message, for any account |
| Scanning.BeforeLoopIgnoresTables | backend/py/app/objects/email_unsubscriber.py:145-188 | a scan refused or returning before the loop leaves the tables alone, whatever they hold |
| Scanning.LoopDecidesScan | backend/py/app/objects/email_unsubscriber.py:189-234 | a scan that reaches the loop ends with the loop's tables, its error or its results |
| Scanning.RescanInboxChangesNothing | backend/py/app/objects/email_unsubscriber.py:145-234 | repeating a scan on the tables it left changes no table, gives the same error, and a successful repeat reports no message |
| Unsubscriber.EmailUnsubscriber.ScanTurn | backend/py/app/objects/email_unsubscriber.py:200-222 | one turn of the loop does what the specified turn does |
| Unsubscriber.EmailUnsubscriber.ScanWindowMessages | backend/py/app/objects/email_unsubscriber.py:199-231 | the loop does what the specified loop does, stopping at the first error |
| Unsubscriber.EmailUnsubscriber.GetUnsubscribeLinksFromInbox | backend/py/app/objects/email_unsubscriber.py:147-234 | the method leaves the tables, the command log and the result of the specified scan, and keeps the tables valid |
| Validators.MatchesWholeIsShape | backend/py/app/objects/email_unsubscriber.py:81-83 | the left-to-right reading of the pattern accepts exactly local part, `@`, label, `.`, suffix, each non-empty over its class |
| Validators.MatchesWholeHasShape | backend/py/app/objects/email_unsubscriber.py:81-83 | what the pattern accepts has that shape |
| Validators.ShapeIsMatched | backend/py/app/objects/email_unsubscriber.py:81-83 | every string of that shape is accepted |
| Validators.MatchesWholeEnd | backend/py/app/objects/email_unsubscriber.py:81-83 | an accepted address ends in a suffix character |
| Validators.TrailingNewline | backend/py/app/objects/email_unsubscriber.py:81-83 | `$` accepts one final newline, never two |
| Unsubscriber.EmailUnsubscriber.Login | backend/py/app/objects/email_unsubscriber.py:81-96 | a malformed address gets the 400 and nothing is sent; otherwise login is attempted, and the result and `self.email` follow the server's answer |
| Validators.DomainFromEmail | backend/py/app/objects/email_unsubscriber.py:108-117 | the 400 exactly when no `@` is followed by a word or hyphen character; otherwise the run after the leftmost such `@` |
| Validators.DomainFacts | backend/py/app/objects/email_unsubscriber.py:108-117 | the domain is a non-empty run of word and hyphen characters that follows an `@` of the address and cannot be extended |
| Validators.YahooDomain | backend/py/app/objects/email_unsubscriber.py:108-117 | `email@yahoo.com` gives `yahoo`, which the lookup accepts |
| Validators.ImapServerFor | backend/py/app/objects/email_unsubscriber.py:33-36 | only `yahoo` and `google` have a server |
| Validators.CheckEmailType | backend/py/app/objects/email_unsubscriber.py:47-56 | the constructor accepts only `yahoo` and `google`, with their servers, and otherwise raises a 400 naming the type |
| Validators.GmailDomainRefused | backend/py/app/objects/email_unsubscriber.py:33-36 | the domain of a Gmail address is `gmail`, which the lookup refuses |
| Unsubscriber.EmailUnsubscriber.constructor | backend/py/app/objects/email_unsubscriber.py:52-57 | a new scanner has no account and has connected to its provider's server |
| Unsubscriber.EmailUnsubscriber.Open | backend/py/app/objects/email_unsubscriber.py:38-59 | construction fails with the 400 exactly when the type is unsupported |
| TableNames.Tokens | backend/py/app/database/base_class.py:22 | every match of `findall` is an upper-case letter followed by lower-case letters |
| TableNames.TokensCount | backend/py/app/database/base_class.py:22 | there is one match per upper-case letter |
| TableNames.TokensKeep | backend/py/app/database/base_class.py:22 | the matches hold exactly the characters of the upper-case-led runs, in order |
| TableNames.TokensOfToken | backend/py/app/database/base_class.py:22 | a match followed by anything but a lower-case letter is the first match |
| TableNames.TableNameShape | backend/py/app/database/base_class.py:22-23 | a table name holds only lower-case letters and `_`, is empty exactly when there is no upper-case letter, has no leading, trailing or doubled `_`, and one `_` fewer than the upper-case letters |
| TableNames.TableNameLetters | backend/py/app/database/base_class.py:22-23 | without its underscores, a table name is the lower-cased characters `findall` keeps; everything else is dropped |
| TableNames.TwoWordName | backend/py/app/database/base_class.py:22-23 | two capitalised words become both words lower-cased and joined by `_` |
| TableNames.LinkedEmailsName | backend/py/app/database/base_class.py:15-17 | `LinkedEmails` becomes `linked_emails` |
| TableNames.ScannedEmailsName | backend/py/app/models/unsubscribe_links.py:29 | `ScannedEmails` becomes `scanned_emails`, the table the foreign key names |
| TableNames.UnsubscribeLinksName | backend/py/app/database/base_class.py:22-23 | `UnsubscribeLinks` becomes `unsubscribe_links` |
| TableNames.InviteCodesName | backend/py/app/database/base_class.py:22-23 | `InviteCodes` becomes `invite_codes` |
| TableNames.UserName | backend/py/app/models/users.py:14 | `User` would become `user`, which that model overrides with `users` |

## Left out

- The IMAP session is not modelled as network I/O. This covers `IMAP4_SSL`, the server login, `select`, `fetch`, `close`, `logout` and `__del__`. Their answers are inputs, and the commands sent are a log.
- Parsing with lxml and XPath are foreign calls. The HTML extractor works on the HTML document's anchors, each with its XPath `text()` and its `href`. Removing `\n`/`\r` before parsing is left out, and so is the parse error lxml raises for an empty document. The anchors given to the extractor are those the query `.//a` reaches from the element `lxml.html.fromstring` returns. That element is left with the parser: for a body that is a single `<a>` element, `fromstring` returns that element itself, `.//a` does not reach it, and the source finds no HTML link.
- `quopri` decoding and `get_payload` are foreign calls. Their results are the parts' payloads, with `None` for a decoding that raised.
- `decode_from_and_subject` and `decode_header` are charset codecs. A fetched message carries its decoded sender and subject.
- `email.message_from_bytes` parses the fetched bytes. The fetch reply carries the parsed message.
- `parsedate_to_datetime` and datetime values are library code. The date parser is an input, and a date is an integer.
- Some exceptions Python raises are not modelled, because the inputs that cause them are already parsed or decoded:
  - `int(messages[0])` raising `ValueError` on a non-numeric count: the select reply carries the count as a number;
  - `decode_header` raising `TypeError` for a message without a `From` or `Subject` header, and `bytes.decode` raising `LookupError` or `UnicodeDecodeError` for an unknown charset or bad bytes (email_unsubscriber.py:330-347): a fetched message carries its sender and subject as text;
  - lxml's parse error for an empty document (listed with the HTML parsing above);
  - `data[0].decode()` of the INTERNALDATE reply raising `AttributeError` when the fetch returns no data, or `UnicodeDecodeError` on a bad byte (email_unsubscriber.py:215): the date reply carries its data as decoded text.
- Python's `lower()`, `title()` and the `\w` class are modelled on ASCII. On other text Python can change the length of a string or accept more characters.
- The link rows' own ids, the `insert_ts` columns, and the meaning of `commit` are persistence details that nothing in the scan reads. Transactions and rollback are also left out.
- `print("Fetching emails...")` and the unused `current_iteration` counter have no effect on the result.
- The `unsubscriber_info` field is never read.
- The text of the exceptions raised in the fetch loop is kept as structured errors rather than formatted messages.
- The callers in `crud/`, the Celery worker, the API endpoints and the frontend are outside this model.
