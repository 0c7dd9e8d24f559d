/** Outgoing mail: a new message or a reply is assembled as a MIME body
    (a text part, then one part per attachment), submitted over SMTP, then a
    copy is queued for archiving in the Sent folder; a reply finally marks the
    original message as answered.

    The SMTP transport and the archive queue are the sender's two logs
    `outbox` and `archive`. The generated Message-ID token and the formatted
    current time are parameters. */
module MailSender {
  import opened Common
  import MR = MessageRepository

  // ---------------------------------------------------------------------
  // Messages as the mail library holds them

  /** One body part. Fields the code leaves unset are None. */
  datatype MimePart = MimePart(
    content: string,
    mimeType: string,
    charset: Option<string>,
    encoding: string,
    filename: Option<string>,
    disposition: Option<string>)

  datatype Header = Header(name: string, value: string)

  datatype MailMessage = MailMessage(
    fromAddress: string,
    fromName: string,
    to: string,
    subject: string,
    encoding: string,
    headers: seq<Header>,
    parts: seq<MimePart>)

  /** The SMTP connection options; `ssl` None is the null option. */
  datatype SmtpOptions = SmtpOptions(
    name: string,
    host: string,
    port: int,
    connectionClass: string,
    username: string,
    password: string,
    ssl: Option<string>)

  /** One message handed to the SMTP transport, with the options it used. */
  datatype Submission = Submission(options: SmtpOptions, message: MailMessage)

  datatype SendFailure = TransportFailure(message: string) | StorageFailure(error: MR.SaveFailure)

  // ---------------------------------------------------------------------
  // Subject and body of a reply

  const ReplyPrefix: string := "Re: "

  /** prepareSubject: a subject already starting with "Re:" in any ASCII
      case is kept, any other gets "Re: " in front. */
  function PrepareSubject(subject: string): (r: string)
    ensures StartsWithCI(subject, "Re:") ==> r == subject
    ensures !StartsWithCI(subject, "Re:") ==> r == ReplyPrefix + subject
    ensures StartsWithCI(r, "Re:")
  {
    if StartsWithCI(subject, "Re:") then subject
    else
      assert Lower("Re:") == "re:";
      assert Lower(ReplyPrefix + subject)[..3] == "re:";
      ReplyPrefix + subject
  }

  /** Adding the prefix twice is the same as adding it once. */
  lemma PrepareSubjectIdempotent(subject: string)
    ensures PrepareSubject(PrepareSubject(subject)) == PrepareSubject(subject)
  {
  }

  /** The quoted original: "> " in front, and after every line break. */
  function Quote(content: string): (q: string)
    ensures IsPrefix("> ", q)
  {
    "> " + ReplaceChar(content, '\n', "\n> ")
  }

  /** Removes the "> " that follows each line break: the inverse of the
      replacement inside Quote. */
  function Unquote(s: string): string
  {
    if s == [] then []
    else if s[0] == '\n' && |s| >= 3 && s[1..3] == "> " then "\n" + Unquote(s[3..])
    else [s[0]] + Unquote(s[1..])
  }

  /** Quoting loses nothing: the original text is recovered. */
  lemma {:induction false} QuoteRoundTrip(content: string)
    ensures Unquote(Quote(content)[2..]) == content
  {
    assert Quote(content)[2..] == ReplaceChar(content, '\n', "\n> ");
    ReplacedNewlinesRoundTrip(content);
  }

  lemma {:induction false} ReplacedNewlinesRoundTrip(s: string)
    ensures Unquote(ReplaceChar(s, '\n', "\n> ")) == s
  {
    if s != [] {
      var rest := ReplaceChar(s[1..], '\n', "\n> ");
      ReplacedNewlinesRoundTrip(s[1..]);
      if s[0] == '\n' {
        var r := "\n> " + rest;
        assert ReplaceChar(s, '\n', "\n> ") == r;
        assert r[1..3] == "> " && r[3..] == rest;
      } else {
        var r := [s[0]] + rest;
        assert ReplaceChar(s, '\n', "\n> ") == r;
        assert r[1..] == rest;
      }
    }
  }

  /** Every line break of the quote is followed by "> ". */
  lemma {:induction false} QuoteMarksEveryLine(content: string, i: nat)
    requires i < |Quote(content)| && Quote(content)[i] == '\n'
    ensures OccursAt(Quote(content), "> ", i + 1)
  {
    ReplacedNewlinesMarked(content, i - 2);
    assert Quote(content)[i + 1..i + 3] == ReplaceChar(content, '\n', "\n> ")[i - 1..i + 1];
  }

  lemma {:induction false} ReplacedNewlinesMarked(s: string, i: int)
    requires 0 <= i < |ReplaceChar(s, '\n', "\n> ")| && ReplaceChar(s, '\n', "\n> ")[i] == '\n'
    ensures OccursAt(ReplaceChar(s, '\n', "\n> "), "> ", i + 1)
    decreases |s|
  {
    var rest := ReplaceChar(s[1..], '\n', "\n> ");
    var head := if s[0] == '\n' then "\n> " else [s[0]];
    var r := head + rest;
    assert ReplaceChar(s, '\n', "\n> ") == r;
    if i < |head| {
      assert s[0] == '\n' && i == 0;
      assert r[1..3] == "> ";
    } else {
      assert r[i] == rest[i - |head|];
      ReplacedNewlinesMarked(s[1..], i - |head|);
      OccursAfter(head, rest, "> ", i - |head| + 1);
    }
  }

  /** An occurrence in the tail of a concatenation is one in the whole. */
  lemma OccursAfter(head: string, rest: string, t: string, j: int)
    requires OccursAt(rest, t, j)
    ensures OccursAt(head + rest, t, |head| + j)
  {
    var r := head + rest;
    forall k | 0 <= k < |t| ensures r[|head| + j + k] == t[k] {
      assert r[|head| + j + k] == rest[j + k] == rest[j..j + |t|][k];
    }
    assert r[|head| + j..|head| + j + |t|] == t;
  }

  /** prepareBody: the reply text, a blank line, the attribution line with
      the original's date (to the minute) and sender, then the quoted original. */
  function PrepareBody(original: MessageDto, replyBody: string): (r: string)
    ensures IsPrefix(replyBody, r)
    ensures r[|replyBody|..] == "\n\nOn " + original.date.minute + ", " + original.sender + " wrote:\n"
                                + Quote(original.content)
  {
    replyBody + ("\n\nOn " + original.date.minute + ", " + original.sender + " wrote:\n" + Quote(original.content))
  }

  // ---------------------------------------------------------------------
  // Assembling and submitting

  /** The text part of a body. */
  function TextPart(body: string): MimePart
  {
    MimePart(body, "text/plain", Some("utf-8"), "quoted-printable", None, None)
  }

  /** The part of one attachment. */
  function AttachmentPart(a: OutgoingAttachment): MimePart
  {
    MimePart(a.content, a.mime, None, "base64", Some(a.filename), Some("attachment"))
  }

  /** The parts of a message: the text part first, then one part per
      attachment in input order. */
  function MimeParts(body: string, attachments: seq<OutgoingAttachment>): (parts: seq<MimePart>)
    ensures |parts| == 1 + |attachments|
    ensures parts[0] == TextPart(body)
    ensures forall k :: 0 <= k < |attachments| ==> parts[k + 1] == AttachmentPart(attachments[k])
  {
    [TextPart(body)] + seq(|attachments|, k requires 0 <= k < |attachments| => AttachmentPart(attachments[k]))
  }

  /** The ssl option: null exactly for the encryption setting 'none'. */
  function SmtpSsl(encryption: string): (r: Option<string>)
    ensures r.None? <==> encryption == "none"
    ensures r.Some? ==> r.value == encryption
  {
    if encryption == "none" then None else Some(encryption)
  }

  function SmtpOptionsFor(account: Account): SmtpOptions
  {
    SmtpOptions("localhost", account.smtpHost, account.smtpPort, "login",
                account.username, account.password, SmtpSsl(account.smtpEncryption))
  }

  /** The Message-ID for a generated token. */
  function MessageIdFor(token: string): string
  {
    "<" + token + "@gardenlawn.local>"
  }

  /** The threading headers of a reply: In-Reply-To and References, both the
      original's Message-ID, when there is an original whose Message-ID is
      truthy; none otherwise. */
  function ThreadingHeaders(original: Option<MessageDto>): (h: seq<Header>)
    ensures h != [] <==> original.Some? && original.value.messageId.Some? && Truthy(original.value.messageId.value)
    ensures h != [] ==> h == [Header("In-Reply-To", original.value.messageId.value),
                              Header("References", original.value.messageId.value)]
  {
    if original.Some? && original.value.messageId.Some? && Truthy(original.value.messageId.value) then
      var id := original.value.messageId.value;
      [Header("In-Reply-To", id), Header("References", id)]
    else []
  }

  /** The message sendEmail submits. */
  function OutgoingMessage(account: Account, to: string, subject: string, parts: seq<MimePart>,
                           original: Option<MessageDto>, token: string, now: string): MailMessage
  {
    MailMessage(account.username, account.senderName, to, subject, "UTF-8",
                [Header("Message-ID", MessageIdFor(token)), Header("Date", now)] + ThreadingHeaders(original),
                parts)
  }

  /** The copy appendSentMessage queues: the same addresses, subject and
      body, with a Date header only. */
  function ArchiveCopy(account: Account, to: string, subject: string, parts: seq<MimePart>, now: string): MailMessage
  {
    MailMessage(account.username, account.senderName, to, subject, "UTF-8", [Header("Date", now)], parts)
  }

  /** The submitted message and its archive copy differ only in headers, and
      the archive copy never carries a Message-ID or threading header. */
  lemma ArchiveCopyMatchesSent(account: Account, to: string, subject: string, parts: seq<MimePart>,
                               original: Option<MessageDto>, token: string, sentAt: string, archivedAt: string)
    ensures var sent := OutgoingMessage(account, to, subject, parts, original, token, sentAt);
            var copy := ArchiveCopy(account, to, subject, parts, archivedAt);
            && copy == sent.(headers := [Header("Date", archivedAt)])
            && forall h :: h in copy.headers ==> h.name == "Date"
  {
  }

  /** The reply's submitted message: to the original sender, with the
      prepared subject, threaded when the original has a Message-ID. */
  lemma ReplyAddressing(account: Account, original: MessageDto, parts: seq<MimePart>, token: string, now: string)
    requires original.messageId.Some? && Truthy(original.messageId.value)
    ensures var m := OutgoingMessage(account, original.sender, PrepareSubject(original.subject), parts, Some(original), token, now);
            && m.to == original.sender
            && StartsWithCI(m.subject, "Re:")
            && Header("In-Reply-To", original.messageId.value) in m.headers
            && Header("References", original.messageId.value) in m.headers
  {
    var m := OutgoingMessage(account, original.sender, PrepareSubject(original.subject), parts, Some(original), token, now);
    assert m.headers[2] == Header("In-Reply-To", original.messageId.value);
    assert m.headers[3] == Header("References", original.messageId.value);
  }

  /** createMimeMessage: the text part first, then one part per attachment
      in input order. */
  method CreateMimeMessage(body: string, attachments: seq<OutgoingAttachment>) returns (parts: seq<MimePart>)
    ensures parts == MimeParts(body, attachments)
  {
    parts := [TextPart(body)];
    for k := 0 to |attachments|
      invariant |parts| == 1 + k && parts[0] == TextPart(body)
      invariant forall q :: 0 <= q < k ==> parts[q + 1] == AttachmentPart(attachments[q])
    {
      parts := parts + [AttachmentPart(attachments[k])];
    }
    assert |parts| == |MimeParts(body, attachments)|;
  }

  /** The sender with its two effects: what the SMTP transport was given and
      what was queued for the Sent folder. */
  class Sender {
    var outbox: seq<Submission>
    var archive: seq<MailMessage>

    constructor ()
      ensures outbox == [] && archive == []
    {
      outbox := [];
      archive := [];
    }

    /** sendEmail. `smtpError` says whether the transport throws. */
    method SendEmail(account: Account, to: string, subject: string, parts: seq<MimePart>,
                     original: Option<MessageDto>, token: string, now: string, smtpError: Option<string>)
      returns (r: Outcome<SendFailure>)
      modifies this
      ensures archive == old(archive)
      ensures smtpError.Some? ==> r == Fail(TransportFailure(smtpError.value)) && outbox == old(outbox)
      ensures smtpError.None? ==>
                && r == Pass
                && outbox == old(outbox) + [Submission(SmtpOptionsFor(account),
                                                       OutgoingMessage(account, to, subject, parts, original, token, now))]
    {
      var message := OutgoingMessage(account, to, subject, parts, original, token, now);
      var options := SmtpOptionsFor(account);
      if smtpError.Some? {
        return Fail(TransportFailure(smtpError.value));
      }
      outbox := outbox + [Submission(options, message)];
      return Pass;
    }

    /** appendSentMessage: queues the archive copy. */
    method AppendSentMessage(account: Account, to: string, subject: string, parts: seq<MimePart>, now: string)
      modifies this
      ensures outbox == old(outbox)
      ensures archive == old(archive) + [ArchiveCopy(account, to, subject, parts, now)]
    {
      archive := archive + [ArchiveCopy(account, to, subject, parts, now)];
    }

    /** send: submit, then archive. A transport failure stops before the
        archive copy. The two Date headers come from two readings of the
        clock, `sentAt` and `archivedAt`. */
    method Send(account: Account, to: string, subject: string, body: string, attachments: seq<OutgoingAttachment>,
                token: string, sentAt: string, archivedAt: string, smtpError: Option<string>)
      returns (r: Outcome<SendFailure>)
      modifies this
      ensures var parts := MimeParts(body, attachments);
              if smtpError.Some? then
                r == Fail(TransportFailure(smtpError.value)) && outbox == old(outbox) && archive == old(archive)
              else
                && r == Pass
                && outbox == old(outbox) + [Submission(SmtpOptionsFor(account),
                                                       OutgoingMessage(account, to, subject, parts, None, token, sentAt))]
                && archive == old(archive) + [ArchiveCopy(account, to, subject, parts, archivedAt)]
    {
      var parts := CreateMimeMessage(body, attachments);
      r := SendEmail(account, to, subject, parts, None, token, sentAt, smtpError);
      if r.Fail? {
        return;
      }
      AppendSentMessage(account, to, subject, parts, archivedAt);
    }

    /** reply: submit the reply to the original sender, archive it, then set
        the original's status to answered. A transport failure stops before
        the archive copy and the status update; a storage failure of the
        status update comes after the mail was sent and archived. */
    method Reply(account: Account, original: MessageDto, body: string, attachments: seq<OutgoingAttachment>,
                 token: string, sentAt: string, archivedAt: string, smtpError: Option<string>, dbFailure: Option<string>,
                 repo: MR.MessageTable)
      returns (r: Outcome<SendFailure>)
      requires MR.Consistent(repo.Value())
      modifies this, repo
      ensures MR.Consistent(repo.Value())
      ensures var subject := PrepareSubject(original.subject);
              var parts := MimeParts(PrepareBody(original, body), attachments);
              if smtpError.Some? then
                && r == Fail(TransportFailure(smtpError.value))
                && outbox == old(outbox) && archive == old(archive) && repo.Value() == old(repo.Value())
              else
                && outbox == old(outbox) + [Submission(SmtpOptionsFor(account),
                                                       OutgoingMessage(account, original.sender, subject, parts,
                                                                       Some(original), token, sentAt))]
                && archive == old(archive) + [ArchiveCopy(account, original.sender, subject, parts, archivedAt)]
                && repo.nextId == old(repo.nextId)
                && (dbFailure.None? ==>
                      r == Pass && repo.rows == MR.WithStatus(old(repo.rows), original.uid, original.folderId, "answered"))
                && (dbFailure.Some? ==>
                      && r == Fail(StorageFailure(MR.CouldNotSaveException("Could not update the message status: " + dbFailure.value)))
                      && repo.rows == old(repo.rows))
    {
      var subject := PrepareSubject(original.subject);
      var replyBody := PrepareBody(original, body);
      var parts := CreateMimeMessage(replyBody, attachments);
      r := SendEmail(account, original.sender, subject, parts, Some(original), token, sentAt, smtpError);
      if r.Fail? {
        return;
      }
      AppendSentMessage(account, original.sender, subject, parts, archivedAt);
      var updated := repo.UpdateStatus(original.uid, original.folderId, Answered, dbFailure);
      if updated.Fail? {
        return Fail(StorageFailure(updated.error));
      }
      return Pass;
    }
  }
}
