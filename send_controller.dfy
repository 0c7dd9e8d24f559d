/** The backend action behind the compose and reply form: it checks the
    request, collects the uploaded files, sends either a reply to a stored
    message or a new mail, leaves a success or error message for the next
    page, and asks for a synchronisation once a mail went out. Every request
    ends in a redirect to the message list. The account the configuration
    yields, the formatted date of the original and the sender's clock, token
    and failures are parameters. */
module SendController {
  import opened Common
  import MR = MessageRepository
  import opened MailSender

  // ---------------------------------------------------------------------
  // Uploads

  /** One uploaded file: its client-side name, its MIME type, the bytes of
      its temporary file, PHP's upload error code and its size. */
  datatype Upload = Upload(name: string, mime: string, content: string, error: int, size: int)

  /** The reply_attachment field: absent, the array form a multiple file
      input produces (one entry per file), or a single file. */
  datatype Files = NoFiles | Multiple(uploads: seq<Upload>) | Single(upload: Upload)

  /** A file is taken when it arrived without error and is not empty. */
  predicate Accepted(u: Upload)
  {
    u.error == 0 && u.size > 0
  }

  function AttachmentOf(u: Upload): OutgoingAttachment
  {
    OutgoingAttachment(u.content, u.name, u.mime)
  }

  /** The attachments the array form yields, in upload order. */
  function Kept(us: seq<Upload>): seq<OutgoingAttachment>
  {
    if us == [] then []
    else Kept(us[..|us| - 1]) + (if Accepted(us[|us| - 1]) then [AttachmentOf(us[|us| - 1])] else [])
  }

  /** The attachments a request carries. */
  function Attachments(files: Files): seq<OutgoingAttachment>
  {
    match files
    case NoFiles => []
    case Multiple(us) => Kept(us)
    case Single(u) => if Accepted(u) then [AttachmentOf(u)] else []
  }

  /** The collection of the uploads: a counted loop over the array form. */
  method CollectAttachments(files: Files) returns (attachments: seq<OutgoingAttachment>)
    ensures attachments == Attachments(files)
  {
    attachments := [];
    match files
    case NoFiles =>
    case Single(u) =>
      if u.error == 0 && u.size > 0 {
        attachments := [AttachmentOf(u)];
      }
    case Multiple(us) =>
      for i := 0 to |us|
        invariant attachments == Kept(us[..i])
      {
        assert us[..i + 1][..i] == us[..i];
        if us[i].error == 0 && us[i].size > 0 {
          attachments := attachments + [AttachmentOf(us[i])];
        }
      }
      assert us[..|us|] == us;
  }

  // ---------------------------------------------------------------------
  // Request checks

  /** The request parameters: the id of the message replied to, the body,
      the recipient and the subject, each absent or a string, and the files. */
  datatype Request = Request(
    id: Option<int>,
    body: Option<string>,
    to: Option<string>,
    subject: Option<string>,
    files: Files)

  /** A parameter PHP takes as true: present and neither "" nor "0". */
  predicate Given(p: Option<string>)
  {
    p.Some? && Truthy(p.value)
  }

  /** An id PHP takes as true. */
  predicate IdGiven(id: Option<int>)
  {
    id.Some? && id.value != 0
  }

  const BodyRequired := "Message body is required."
  const OriginalNotFound := "Original message not found."
  const RecipientRequired := "Recipient and Subject are required for new messages."
  const ReplySent := "Reply sent successfully."
  const MessageSent := "Message sent successfully."

  /** The message left for a failure the action catches. */
  function ErrorSending(m: string): (r: string)
    ensures IsPrefix("Error sending message: ", r) && r[|"Error sending message: "|..] == m
  {
    "Error sending message: " + m
  }

  /** The record of the original message the reply is built from. `minute`
      is its stored date formatted to the minute. A status value the status
      type does not know counts as read, and a null Message-ID becomes the
      empty string. */
  function OriginalOf(row: MR.Row, minute: string): (m: MessageDto)
    ensures m.uid == row.uid && m.folderId == row.folderId
    ensures m.subject == row.subject && m.sender == row.sender && m.content == row.content
    ensures m.date == DateTime(row.date, minute)
    ensures StatusFrom(row.status).Some? ==> m.status == StatusFrom(row.status).value
    ensures StatusFrom(row.status).None? ==> m.status == Read
    ensures m.messageId.Some?
    ensures row.messageId.Some? ==> m.messageId.value == row.messageId.value
    ensures row.messageId.None? ==> m.messageId.value == ""
  {
    var status := match StatusFrom(row.status) case Some(s) => s case None => Read;
    var messageId := match row.messageId case Some(v) => v case None => "";
    MessageDto(row.uid, row.subject, row.sender, DateTime(row.date, minute), row.content,
               status, row.folderId, Some(messageId))
  }

  /** What a request leads to: a message shown without sending, a reply to a
      stored message, or a new mail. */
  datatype Plan = Rejected(notice: string) | ReplyTo(original: MessageDto) | NewMail(to: string, subject: string)

  /** The checks of the action and the mode they select, against the rows of
      the message table. The two errors inside the try block are caught and
      shown with the "Error sending message: " prefix. */
  function Decide(req: Request, rows: seq<MR.Row>, minute: string): (p: Plan)
    ensures !Given(req.body) ==> p == Rejected(BodyRequired)
    ensures Given(req.body) && IdGiven(req.id) ==>
              (p.ReplyTo? <==> MR.RowWithId(rows, req.id.value).Some?)
    ensures p.ReplyTo? ==>
              && IdGiven(req.id) && MR.RowWithId(rows, req.id.value).Some?
              && p.original == OriginalOf(MR.RowWithId(rows, req.id.value).value, minute)
    ensures Given(req.body) && IdGiven(req.id) && MR.RowWithId(rows, req.id.value).None? ==>
              p == Rejected(ErrorSending(OriginalNotFound))
    ensures Given(req.body) && !IdGiven(req.id) ==>
              (p.NewMail? <==> Given(req.to) && Given(req.subject))
    ensures p.NewMail? ==> !IdGiven(req.id) && p.to == req.to.value && p.subject == req.subject.value
    ensures Given(req.body) && !IdGiven(req.id) && !(Given(req.to) && Given(req.subject)) ==>
              p == Rejected(ErrorSending(RecipientRequired))
  {
    if !Given(req.body) then Rejected(BodyRequired)
    else if IdGiven(req.id) then
      match MR.RowWithId(rows, req.id.value)
      case None => Rejected(ErrorSending(OriginalNotFound))
      case Some(row) => ReplyTo(OriginalOf(row, minute))
    else if !Given(req.to) || !Given(req.subject) then Rejected(ErrorSending(RecipientRequired))
    else NewMail(req.to.value, req.subject.value)
  }

  // ---------------------------------------------------------------------
  // How a request ends

  /** The message a sending failure surfaces with. */
  function FailureText(f: SendFailure): string
  {
    match f
    case TransportFailure(m) => m
    case StorageFailure(e) => e.message
  }

  /** How the try block ends: normally, or with the text of the exception
      caught. `smtpError` says whether the transport throws and `dbFailure`
      whether the status update of a reply fails. */
  function Ending(p: Plan, smtpError: Option<string>, dbFailure: Option<string>): (r: Outcome<string>)
    ensures r.Pass? <==> (p.ReplyTo? && smtpError.None? && dbFailure.None?) || (p.NewMail? && smtpError.None?)
    ensures p.Rejected? ==> r == Fail(p.notice)
  {
    match p
    case Rejected(m) => Fail(m)
    case ReplyTo(_) =>
      if smtpError.Some? then Fail(ErrorSending(smtpError.value))
      else if dbFailure.Some? then
        Fail(ErrorSending(FailureText(StorageFailure(MR.CouldNotSaveException(
          "Could not update the message status: " + dbFailure.value)))))
      else Pass
    case NewMail(_, _) =>
      if smtpError.Some? then Fail(ErrorSending(smtpError.value)) else Pass
  }

  /** A message left for the next page. */
  datatype Notice = SuccessMessage(text: string) | ErrorMessage(text: string)

  function NoticeFor(p: Plan, e: Outcome<string>): Notice
  {
    match e
    case Pass => SuccessMessage(if p.ReplyTo? then ReplySent else MessageSent)
    case Fail(m) => ErrorMessage(m)
  }

  /** The message manager: the messages queued for the next page. */
  class MessageManager {
    var notices: seq<Notice>

    constructor ()
      ensures notices == []
    {
      notices := [];
    }

    method Add(n: Notice)
      modifies this
      ensures notices == old(notices) + [n]
    {
      notices := notices + [n];
    }
  }

  /** The publisher of synchronisation requests: how many it published. */
  class SyncPublisher {
    var published: nat

    constructor ()
      ensures published == 0
    {
      published := 0;
    }

    method Publish()
      modifies this
      ensures published == old(published) + 1
    {
      published := published + 1;
    }
  }

  /** The submission and the archive copy a plan that goes out produces. */
  function Submitted(p: Plan, account: Account, body: string, attachments: seq<OutgoingAttachment>,
                     token: string, sentAt: string): Submission
    requires !p.Rejected?
  {
    match p
    case ReplyTo(o) =>
      Submission(SmtpOptionsFor(account),
                 OutgoingMessage(account, o.sender, PrepareSubject(o.subject),
                                 MimeParts(PrepareBody(o, body), attachments), Some(o), token, sentAt))
    case NewMail(to, subject) =>
      Submission(SmtpOptionsFor(account),
                 OutgoingMessage(account, to, subject, MimeParts(body, attachments), None, token, sentAt))
  }

  function Archived(p: Plan, account: Account, body: string, attachments: seq<OutgoingAttachment>,
                    archivedAt: string): MailMessage
    requires !p.Rejected?
  {
    match p
    case ReplyTo(o) =>
      ArchiveCopy(account, o.sender, PrepareSubject(o.subject), MimeParts(PrepareBody(o, body), attachments), archivedAt)
    case NewMail(to, subject) =>
      ArchiveCopy(account, to, subject, MimeParts(body, attachments), archivedAt)
  }

  /** The rows after the request: a reply that went out marks the original
      answered unless the update fails. */
  function RowsAfter(p: Plan, rows: seq<MR.Row>, smtpError: Option<string>, dbFailure: Option<string>): seq<MR.Row>
  {
    if p.ReplyTo? && smtpError.None? && dbFailure.None? then
      MR.WithStatus(rows, p.original.uid, p.original.folderId, "answered")
    else rows
  }

  /** execute(). The action always redirects to the list, so only its
      effects are returned. */
  method Execute(req: Request, account: Account, minute: string, token: string, sentAt: string, archivedAt: string,
                 smtpError: Option<string>, dbFailure: Option<string>,
                 repo: MR.MessageTable, sender: Sender, manager: MessageManager, publisher: SyncPublisher)
    requires MR.Consistent(repo.Value())
    modifies repo, sender, manager, publisher
    ensures MR.Consistent(repo.Value())
    ensures var p := Decide(req, old(repo.rows), minute);
            var e := Ending(p, smtpError, dbFailure);
            && manager.notices == old(manager.notices) + [NoticeFor(p, e)]
            && publisher.published == old(publisher.published) + (if e.Pass? then 1 else 0)
            && repo.nextId == old(repo.nextId)
            && repo.rows == RowsAfter(p, old(repo.rows), smtpError, dbFailure)
            && (p.Rejected? || smtpError.Some? ==>
                  sender.outbox == old(sender.outbox) && sender.archive == old(sender.archive))
            && (!p.Rejected? && smtpError.None? ==>
                  && sender.outbox == old(sender.outbox) + [Submitted(p, account, req.body.value, Attachments(req.files), token, sentAt)]
                  && sender.archive == old(sender.archive) + [Archived(p, account, req.body.value, Attachments(req.files), archivedAt)])
  {
    var p := Decide(req, repo.rows, minute);
    if p.Rejected? {
      manager.Add(ErrorMessage(p.notice));
      return;
    }
    var attachments := CollectAttachments(req.files);
    var r := Deliver(p, account, req.body.value, attachments, token, sentAt, archivedAt, smtpError, dbFailure, repo, sender);
    if r.Pass? {
      manager.Add(SuccessMessage(if p.ReplyTo? then ReplySent else MessageSent));
      publisher.Publish();
    } else {
      manager.Add(ErrorMessage(ErrorSending(FailureText(r.error))));
    }
  }

  /** The call into the sender the mode selects. */
  method Deliver(p: Plan, account: Account, body: string, attachments: seq<OutgoingAttachment>,
                 token: string, sentAt: string, archivedAt: string, smtpError: Option<string>, dbFailure: Option<string>,
                 repo: MR.MessageTable, sender: Sender)
    returns (r: Outcome<SendFailure>)
    requires !p.Rejected? && MR.Consistent(repo.Value())
    modifies repo, sender
    ensures MR.Consistent(repo.Value())
    ensures var e := Ending(p, smtpError, dbFailure);
            && (r.Pass? <==> e.Pass?)
            && (r.Fail? ==> e == Fail(ErrorSending(FailureText(r.error))))
    ensures repo.nextId == old(repo.nextId)
    ensures repo.rows == RowsAfter(p, old(repo.rows), smtpError, dbFailure)
    ensures smtpError.Some? ==> sender.outbox == old(sender.outbox) && sender.archive == old(sender.archive)
    ensures smtpError.None? ==>
              && sender.outbox == old(sender.outbox) + [Submitted(p, account, body, attachments, token, sentAt)]
              && sender.archive == old(sender.archive) + [Archived(p, account, body, attachments, archivedAt)]
  {
    if p.ReplyTo? {
      r := sender.Reply(account, p.original, body, attachments, token, sentAt, archivedAt, smtpError, dbFailure, repo);
    } else {
      r := sender.Send(account, p.to, p.subject, body, attachments, token, sentAt, archivedAt, smtpError);
    }
  }

  // ---------------------------------------------------------------------
  // Properties

  /** A file is attached exactly when one accepted upload carries it. */
  lemma {:induction false} KeptExactlyAccepted(us: seq<Upload>, a: OutgoingAttachment)
    ensures a in Kept(us) <==> exists i :: 0 <= i < |us| && Accepted(us[i]) && AttachmentOf(us[i]) == a
  {
    if us != [] {
      var init := us[..|us| - 1];
      KeptExactlyAccepted(init, a);
      if a in Kept(us) && a !in Kept(init) {
        assert Accepted(us[|us| - 1]) && AttachmentOf(us[|us| - 1]) == a;
      }
      if a in Kept(init) {
        var i :| 0 <= i < |init| && Accepted(init[i]) && AttachmentOf(init[i]) == a;
        assert us[i] == init[i];
      }
      if i :| 0 <= i < |us| && Accepted(us[i]) && AttachmentOf(us[i]) == a {
        if i < |init| {
          assert init[i] == us[i];
        }
      }
    }
  }

  /** The filter keeps order: the uploads of a split list are filtered part
      by part and the results joined in the same order. */
  lemma {:induction false} KeptKeepsOrder(us: seq<Upload>, vs: seq<Upload>)
    ensures Kept(us + vs) == Kept(us) + Kept(vs)
  {
    if vs == [] {
      assert us + vs == us;
    } else {
      var init := vs[..|vs| - 1];
      assert (us + vs)[..|us + vs| - 1] == us + init;
      KeptKeepsOrder(us, init);
    }
  }

  /** With every upload accepted, each becomes an attachment, one for one. */
  lemma {:induction false} AllAcceptedAllKept(us: seq<Upload>)
    requires forall i :: 0 <= i < |us| ==> Accepted(us[i])
    ensures |Kept(us)| == |us|
    ensures forall i :: 0 <= i < |us| ==> Kept(us)[i] == AttachmentOf(us[i])
  {
    if us != [] {
      var init := us[..|us| - 1];
      AllAcceptedAllKept(init);
      assert forall i :: 0 <= i < |init| ==> init[i] == us[i];
    }
  }

  /** The single form applies the same rule as an array of one upload. */
  lemma SingleLikeMultiple(u: Upload)
    ensures Attachments(Single(u)) == Attachments(Multiple([u]))
  {
    assert [u][..0] == [];
    assert Kept([u]) == Kept([]) + (if Accepted(u) then [AttachmentOf(u)] else []);
  }

  /** Nothing is sent and no synchronisation is asked for when a check
      fails; the error is the only message left. */
  lemma RejectedSendsNothing(p: Plan, smtpError: Option<string>, dbFailure: Option<string>)
    requires p.Rejected?
    ensures Ending(p, smtpError, dbFailure).Fail?
    ensures NoticeFor(p, Ending(p, smtpError, dbFailure)) == ErrorMessage(p.notice)
  {
  }

  /** A synchronisation is asked for exactly when the success message is
      left; every failure a sending step raises is shown with the prefix. */
  lemma PublishedOnlyAfterSuccess(p: Plan, smtpError: Option<string>, dbFailure: Option<string>)
    ensures var e := Ending(p, smtpError, dbFailure);
            && (e.Pass? <==> NoticeFor(p, e).SuccessMessage?)
            && (!p.Rejected? && e.Fail? ==> IsPrefix("Error sending message: ", NoticeFor(p, e).text))
  {
  }

  /** The body is checked before anything else: without one, neither the id
      nor the files matter. */
  lemma BodyCheckedFirst(req: Request, rows: seq<MR.Row>, minute: string, id: Option<int>, files: Files)
    requires !Given(req.body)
    ensures Decide(req.(id := id, files := files), rows, minute) == Decide(req, rows, minute)
  {
  }

  /** A reply with an unknown stored status treats the original as read. */
  lemma UnknownStatusIsRead(row: MR.Row, minute: string)
    requires StatusFrom(row.status).None?
    ensures OriginalOf(row, minute).status == Read
  {
  }

  // ---------------------------------------------------------------------
  // The action as written

  /** The error PHP raises when `new \Exception` is given the translated
      phrase object: the file declares strict types, so the object is not
      converted to the string the constructor wants. It is an Error, which
      the action's catch of exceptions does not catch. */
  const PhraseRejected := "Exception::__construct(): Argument #1 ($message) must be of type string, Magento\\Framework\\Phrase given"

  /** The error the record constructor raises for the `type` argument it
      does not have. */
  const UnknownTypeArgument := "Unknown named parameter $type"

  /** The checks and mode selection as the source has them. Both throws of
      the try block and the construction of the original's record end the
      request with an uncaught error before anything is sent. */
  function DecideAsWritten(req: Request, rows: seq<MR.Row>, minute: string): (r: Result<Plan, Abort>)
    ensures r.Success? ==> r.value == Decide(req, rows, minute)
    ensures r.Failure? ==> r.error.Fatal?
  {
    if !Given(req.body) then Success(Rejected(BodyRequired))
    else if IdGiven(req.id) then
      match MR.RowWithId(rows, req.id.value)
      case None => Failure(Fatal(PhraseRejected))
      case Some(_) => Failure(Fatal(UnknownTypeArgument))
    else if !Given(req.to) || !Given(req.subject) then Failure(Fatal(PhraseRejected))
    else Success(NewMail(req.to.value, req.subject.value))
  }

  /** As written, no reply is ever sent: every request with a body and an id
      ends in an uncaught error, whether or not the original exists. */
  lemma ReplyNeverSentAsWritten(req: Request, rows: seq<MR.Row>, minute: string)
    requires Given(req.body) && IdGiven(req.id)
    ensures DecideAsWritten(req, rows, minute).Failure?
    ensures MR.RowWithId(rows, req.id.value).Some? ==>
              DecideAsWritten(req, rows, minute) == Failure(Fatal(UnknownTypeArgument))
    ensures MR.RowWithId(rows, req.id.value).None? ==>
              && DecideAsWritten(req, rows, minute) == Failure(Fatal(PhraseRejected))
              && Decide(req, rows, minute) == Rejected(ErrorSending(OriginalNotFound))
  {
  }

  /** As written, a new mail without a subject shows no error message: the
      request ends in an uncaught error instead. */
  lemma MissingSubjectFatalAsWritten()
    ensures var req := Request(None, Some("Hello"), Some("a@example.com"), None, NoFiles);
            && DecideAsWritten(req, [], "") == Failure(Fatal(PhraseRejected))
            && Decide(req, [], "") == Rejected(ErrorSending(RecipientRequired))
  {
  }

  /** As written, a reply to a stored message fails, where the corrected
      action sends it. */
  lemma ExistingOriginalFatalAsWritten()
    ensures var row := MR.Row(1, 7, None, "Hi", "b@example.com", "2024-01-01 10:00:00", "Hello", "unread", 3, None);
            var req := Request(Some(1), Some("Thanks"), None, None, NoFiles);
            && DecideAsWritten(req, [row], "2024-01-01 10:00") == Failure(Fatal(UnknownTypeArgument))
            && Decide(req, [row], "2024-01-01 10:00").ReplyTo?
  {
    var row := MR.Row(1, 7, None, "Hi", "b@example.com", "2024-01-01 10:00:00", "Hello", "unread", 3, None);
    assert MR.RowWithId([row], 1) == Some(row) by {
      assert [row][..0] == [];
    }
  }
}
