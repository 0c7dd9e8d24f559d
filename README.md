# MailSync — a verified model

GardenLawn MailSync is a Magento module that keeps a local, database-backed
mirror of an IMAP mailbox and lets an administrator act on it. This project
models its core in Dafny and proves properties of the model:

- **Synchronisation** (`ImapSynchronizer`). Each folder the server lists is
  looked up or created in the local folder catalogue by its path. Each
  message in it becomes a record. The record is inserted only if its
  reconciliation key (uid, folder id) is new. Each attachment gets a metadata
  row unless one already exists for its (message row, part number).
  - An exception while one message is processed is swallowed.
  - An exception while a folder's messages are listed ends the run.
  - The proofs give the tables a run leaves exactly, as a fold over the
    visited folders in listing order. Every message is recorded under its
    folder's id as far as processing it gets: a message whose k-th
    attachment throws keeps its row and the rows of the attachments before
    it. A run adds only records of the server's messages and attachment
    rows carrying their metadata, and each visited path takes the server's
    name.
  - They show that the tables only grow and that ids stay stable.
  - They show that a second run against the same mailbox adds no folder,
    message row or attachment row, however the first run ended.
- **Repositories** (`MessageRepository`, `FolderRepository`):
  - `saveAndReturnId` is idempotent on the key.
  - `updateStatus` overwrites the status column unconditionally.
  - `getOrCreate` looks a folder up by path alone, renames it in place when
    its name differs, and otherwise creates it.
  - The resource models' load by id and delete by id.
- **Write-back services**:
  - `MailDeleter` moves a message to the trash folder, or flags it deleted,
    and removes its local row.
  - `MailMover` moves a message on the server and removes its local row, so
    the next sync records it again under the target folder.
  - Both are modelled against the IMAP client in `ImapClient`. The server is
    a fixed value, and the client logs each request that changes state.
- **Outgoing mail** (`MailSender`): assembling the MIME body, the reply subject and the
  quoted body, the threading headers, the SMTP options, the archive copy queued for the
  Sent folder, and the status update of a replied-to message.
- **Queue consumers**:
  - `QueueConsumer` runs a sync behind a lock file. A lock older than ten
    minutes is reclaimed.
  - `SentConsumer` appends a sent mail to the server's Sent folder.
- **The send action** (`SendController`):
  - request validation; the upload filter; reply mode and new-mail mode;
  - the flash message left for the next page; the sync request after a
    mail went out.
- **The file-type badge** (`ReplyBlock`): the extension, MIME type and
  fallback rules of the reply page's attachment badge.

`Common` holds the shared records: the status enum, the message record, the
account and the logger. It also holds PHP's truthiness and ASCII case
folding.

Strings are `seq<char>` with one character per byte: non-ASCII names such as
"Wysłane" are written as their UTF-8 bytes, so byte-oriented PHP functions
(`substr`, `stripos`, `strtolower`) are modelled exactly.

Inputs from outside the program become parameters. These include:

- the server's state and replies;
- the SMTP and database failures;
- the clock: one reading per `date('r')` call, and the stored date
  formatted to the minute;
- the random Message-ID token;
- the account the configuration yields;
- PHP's `strip_tags`.

## Model

| member | source | states |
|---|---|---|
| Common.StatusFrom | Model/Message/Status.php:6-13 | `tryFrom` yields the case whose backing value is the string, and nothing exactly when no case has that value |
| Common.StatusRoundTrip | Model/Message/Status.php:6-13 | a status written as its backing value reads back as the same status |
| MessageRepository.IndexOfKey | Model/MessageRepository.php:31-37 | the position of the first row with key (uid, folder id); none exactly when no row has the key |
| MessageRepository.SaveResult | Model/MessageRepository.php:25-56 | saving keeps every earlier row and adds at most one. Afterwards the key resolves to the returned id. An existing key leaves the table unchanged. A new key appends exactly the new row under the next id. Consistency (distinct ids, distinct keys) is preserved |
| MessageRepository.AppendNewRow | Model/MessageRepository.php:43-56 | inserting a row for an absent key makes the key resolve to the new id and keeps the table consistent |
| MessageRepository.RowWithId | Service/MailDeleter.php:28-33 | the load by id finds a row carrying that id, and finds none exactly when no row has it |
| MessageRepository.WithoutId | Service/MailDeleter.php:92 | after the delete, exactly the rows with another id remain |
| MessageRepository.MessageTable.FindByKey | Model/MessageRepository.php:31-41 | the existence query returns the id of the row with the key, or nothing |
| MessageRepository.MessageTable.SaveAndReturnId | Model/MessageRepository.php:25-62 | on success the table and the id are those of the save; a storage failure is rethrown as "Could not save the message: …" with the table untouched |
| MessageRepository.MessageTable.Save | Model/MessageRepository.php:20-23 | `save` is `saveAndReturnId` with the id discarded |
| MessageRepository.MessageTable.UpdateStatus | Model/MessageRepository.php:65-82 | every row with the key gets the status's backing value, other rows are unchanged, and ids stay; a storage failure is rethrown as "Could not update the message status: …" |
| MessageRepository.MessageTable.Load | Service/MailMover.php:30-35 | the load by entity id returns the row with that id, or nothing |
| MessageRepository.MessageTable.Delete | Service/MailMover.php:103 | the resource delete removes the rows with the id and keeps the table consistent |
| MessageRepository.KeyIdUnique | Model/MessageRepository.php:31-41 | in a consistent table the row the key query finds is the only row with that key |
| MessageRepository.SaveTwiceReturnsSameId | Model/MessageRepository.php:25-56 | saving the same record twice returns the same id, and the second save changes nothing |
| MessageRepository.SavesKeepKeysUnique | Model/MessageRepository.php:25-56 | after any sequence of saves no key has two rows, and the table grew by at most one row per save |
| MessageRepository.SaveDoesNotRefresh | Model/MessageRepository.php:37-41 | saving a record whose key is stored returns the stored id and refreshes no column |
| MessageRepository.SavedRowReadsBack | Model/MessageRepository.php:43-56 | a newly inserted row stores the record's fields, reads back its status, and has a null message_type |
| MessageRepository.SaveLeavesOtherKeys | Model/MessageRepository.php:31-56 | saving one record does not change what any other key resolves to |
| MessageRepository.UpdateStatusOnlyTouchesStatus | Model/MessageRepository.php:71-75 | the update changes only the status column, and only of the rows with the key |
| MessageRepository.UpdateStatusAbsentKeyIsNoop | Model/MessageRepository.php:71-75 | an update for a key with no row changes nothing |
| MessageRepository.UpdateStatusKeepsConsistent | Model/MessageRepository.php:71-75 | the update keeps the table consistent and every key's row id |
| MessageRepository.WithoutIdKeepsConsistent | Service/MailDeleter.php:92 | deleting a row keeps ids and keys distinct |
| FolderRepository.FirstWithPath | Model/FolderRepository.php:22-26 | the first folder whose path equals the path, none exactly when no folder has it |
| FolderRepository.FolderWithId | Service/MailMover.php:41-47 | the folder with the id, none exactly when no folder has it |
| FolderRepository.FolderTable.FindByPath | Model/FolderRepository.php:22-28 | the path filter's first item is the first folder with the path |
| FolderRepository.FolderTable.FindById | Service/MailMover.php:42-45 | the load by id returns the folder with that id, or nothing |
| FolderRepository.FolderTable.GetOrCreate | Model/FolderRepository.php:20-45 | the catalogue after the call and the folder returned are those getOrCreate defines; consistency is kept |
| FolderRepository.GetOrCreateReturnsRequested | Model/FolderRepository.php:20-45 | the returned folder has the requested path and name and is the first folder with that path |
| FolderRepository.RenameKeepsIdentity | Model/FolderRepository.php:28-34 | a found folder keeps its id, path, delimiter and place, and only its name changes. Nothing is created, no other folder changes, and a matching name changes nothing |
| FolderRepository.CreateWhenAbsent | Model/FolderRepository.php:37-44 | an unknown path appends exactly one folder with the next id, name, path and delimiter |
| FolderRepository.NoSecondFolderForPath | Model/FolderRepository.php:20-45 | the number of folders with the path becomes one if it was zero and otherwise stays; no other path's count changes |
| FolderRepository.GetOrCreateIdempotent | Model/FolderRepository.php:20-45 | repeating the call changes nothing and returns the same folder |
| FolderRepository.GetOrCreateGrows | Model/FolderRepository.php:20-45 | every existing folder keeps its id and path; new folders only come after them |
| ImapClient.DirectFolder | Service/MailDeleter.php:66-73 | a direct fetch by path finds a folder exactly when the server has that path, and it carries that path |
| ImapClient.FirstWhere | Service/MailDeleter.php:108-123 | the first listed folder that passes the test; none exactly when no folder passes |
| ImapClient.ListedWithPath | Service/MailDeleter.php:58-64 | the first listed folder whose path is strictly equal to the path; none exactly when no listed folder has it |
| ImapClient.FindListed | Service/MailMover.php:66-72 | the loop that stops at the first folder with the path computes that folder |
| ImapClient.SpecialIndex | Service/MailDeleter.php:101-126 | a folder found by name wins; only when none is found by name does the first fuzzy match count; none exactly when neither pass finds one |
| ImapClient.SpecialFolder | Model/Queue/SentConsumer.php:36-65 | the special folder is a listed folder that passes the name test or the fuzzy test |
| ImapClient.NameBeatsFuzzy | Service/MailDeleter.php:108-123 | when some folder matches by name, the search returns a folder that matches by name, wherever fuzzy matches stand |
| ImapClient.FindSpecialFolder | Service/MailDeleter.php:101-126 | the two loops compute the special folder |
| ImapClient.ImapError | Service/MailDeleter.php:94-95 | the rethrown message is "IMAP Error: " followed by the original message |
| ImapClient.Client.Connect | Service/MailDeleter.php:54 | the connect fails with the server's error and sends nothing, or logs a connection |
| ImapClient.Client.Disconnect | Service/MailDeleter.php:96-98 | the disconnect is logged |
| ImapClient.Client.GetFolders | Service/MailDeleter.php:59 | the listing is the server's, or the listing throws with the server's error |
| ImapClient.Client.GetFolder | Service/MailDeleter.php:68-72 | a direct fetch returns the folder, or throws when the server has none |
| ImapClient.Client.HasMessage | Service/MailDeleter.php:76 | the uid lookup finds a message exactly when the folder holds the uid, or the query throws with the server's error |
| ImapClient.Client.Move | Service/MailMover.php:87 | a move returns true and is logged, returns false, or throws, as the server answers |
| ImapClient.Client.MarkDeleted | Service/MailDeleter.php:87 | setting the deleted flag is logged, or throws with the server's error |
| ImapClient.Client.AppendMessage | Model/Queue/SentConsumer.php:68 | the append is logged with its folder, message and flags, or throws |
| ImapSynchronizer.DeriveStatus | Service/ImapSynchronizer.php:81-92 | deleted beats flagged beats seen beats the default unread, each as an if-and-only-if; a sync never yields answered |
| ImapSynchronizer.Sender | Service/ImapSynchronizer.php:67-70 | the first From address's mail, or "unknown" when there is none |
| ImapSynchronizer.Body | Service/ImapSynchronizer.php:74-79 | the text body, else the HTML body with its tags stripped, else empty |
| ImapSynchronizer.ToDto | Service/ImapSynchronizer.php:106-115 | the record carries the message's uid, subject, date, Message-ID, sender and status and the folder's id. Its content is the whole body when that fits in 5000 bytes, and exactly the body's first 5000 bytes otherwise |
| ImapSynchronizer.AttachmentTable.Exists | Service/ImapSynchronizer.php:154-159 | the existence query is true exactly when a row has the (message row, part number) pair |
| ImapSynchronizer.AttachmentTable.Insert | Service/ImapSynchronizer.php:142-160 | the insert appends one row with the next id and the attachment's metadata |
| ImapSynchronizer.FirstUnlistable | Service/ImapSynchronizer.php:56-57 | the first folder whose message listing throws, every folder before it listable |
| ImapSynchronizer.FoldersVisited | Service/ImapSynchronizer.php:45-57 | the folders a run visits: every one before the last visited had its messages listed, and a run stops short of the listing only at a folder whose listing throws |
| ImapSynchronizer.CatalogStep | Service/ImapSynchronizer.php:50-54 | after getOrCreate the folder's path resolves to the returned folder's id. Every catalogued path keeps its id, and a known path adds no folder |
| ImapSynchronizer.AppendRow | Service/ImapSynchronizer.php:154-161 | inserting a row for a pair that has none gives the pair a row, keeps every other row, and keeps the table free of duplicates |
| ImapSynchronizer.ProcessAttachments | Service/ImapSynchronizer.php:126-163 | the new attachment table is exactly AttachmentsAfter over the attachments before the one that throws (all of them when none does): one row per reached attachment whose (message row, part number) pair has none, with the next id, the message row id and that attachment's filename, MIME type, size and part number. It throws exactly when the faulting attachment exists. No duplicate pair is created, and nothing changes when every reached pair already has a row |
| ImapSynchronizer.ProcessMessage | Service/ImapSynchronizer.php:61-167 | the per-message try block throws exactly when the message faults. Both new tables are exactly MessageResult: nothing for a fault before or in the save, otherwise saveAndReturnId's table for the message's record and the attachment loop under the returned id. The message ends up recorded as far as processing gets, and an already recorded one changes nothing |
| ImapSynchronizer.ProcessFolder | Service/ImapSynchronizer.php:61-168 | both new tables are exactly MessagesResult, every message processed in order, so an exception in one does not stop the next. Every message is recorded as far as processing it gets, and a recorded folder changes nothing |
| ImapSynchronizer.SyncFolder | Service/ImapSynchronizer.php:47-57 | the three new tables are exactly FolderResult: getOrCreate's catalogue (so the path carries the server's name), then the message loop under the returned id when the messages can be listed. The result is false exactly when listing throws, and a recorded folder changes nothing |
| ImapSynchronizer.SyncFolders | Service/ImapSynchronizer.php:47-169 | the loop stops exactly at the first unlistable folder, after cataloguing it. The new tables are exactly FoldersResult over the visited folders in listing order; they only grow, every visited folder is recorded, and visited folders already recorded change nothing |
| ImapSynchronizer.Sync | Service/ImapSynchronizer.php:27-172 | the run ends as the remote dictates and disconnects only when it completes. The new tables are exactly RunResult, the fold over the visited folders; they only grow and stay consistent, every visited folder is recorded, no duplicate attachment row appears, and a mailbox already recorded adds no rows |
| ImapSynchronizer.AttachmentsAfterRows | Service/ImapSynchronizer.php:142-160 | the attachment loop keeps every old row and appends rows with consecutive ids from the counter, each under the message's row id and carrying the metadata of one attachment it reached |
| ImapSynchronizer.AttachmentsAfterFacts | Service/ImapSynchronizer.php:154-161 | after the attachment loop every reached pair has a row, no duplicate pair is created, and nothing (not even the counter) changes when every reached pair already had one |
| ImapSynchronizer.MessagesResultRows | Service/ImapSynchronizer.php:61-167 | the message loop adds only records of the folder's messages under its id, and attachment rows that sit under one of those messages' rows and carry its reached attachments' metadata |
| ImapSynchronizer.FoldersResultRows | Service/ImapSynchronizer.php:47-169 | the folder loop adds only records of messages of the visited folders, each under the id its folder's path has afterwards, and attachment rows of those messages |
| ImapSynchronizer.FoldersResultNames | Model/FolderRepository.php:20-45 | after the folder loop the catalogue stays consistent, each visited path is named as the last visited folder with that path names it, and every other path keeps its name |
| ImapSynchronizer.FoldersResultGrows | Service/ImapSynchronizer.php:47-169 | the folder loop keeps the repositories consistent, keeps every old folder, row and attachment row, and creates no duplicate attachment pair |
| ImapSynchronizer.TraceRecorded | Service/ImapSynchronizer.php:47-57 | when each pass of the folder loop records its folder, the first n folders are recorded after n passes, the tables only grew, and nothing changed when they were recorded before the loop |
| ImapSynchronizer.LoopEnd | Service/ImapSynchronizer.php:47-57 | where the folder loop stops is the first unlistable folder, the tables there are the fold over the visited folders, and every visited folder is recorded |
| ImapSynchronizer.RunAddsOnlyRemote | Service/ImapSynchronizer.php:27-172 | a run adds only records of messages of visited folders and attachment rows of those messages with their metadata; each visited path ends up named as the last visited folder with it names it, and other paths keep their names |
| ImapSynchronizer.SyncTwice | Service/ImapSynchronizer.php:27-172 | a second run against the same remote adds no folder, no message row and no attachment row, however the first run ended |
| MailSender.PrepareSubject | Service/MailSender.php:128-134 | a subject starting with "Re:" in any ASCII case is kept, any other gets "Re: " in front; the result always starts with "Re:" |
| MailSender.PrepareSubjectIdempotent | Service/MailSender.php:128-134 | preparing a prepared subject changes nothing again |
| MailSender.Quote | Service/MailSender.php:142 | the quote starts with "> " |
| MailSender.QuoteRoundTrip | Service/MailSender.php:142 | removing the marks after each line break recovers the original text |
| MailSender.QuoteMarksEveryLine | Service/MailSender.php:142 | every line break in the quote is followed by "> " |
| Common.ReplaceChar | Service/MailSender.php:142 | `str_replace` of one byte keeps every other character, and the result holds only kept characters and those of the replacement |
| MailSender.PrepareBody | Service/MailSender.php:136-145 | the reply text, then a blank line and the attribution line with the original's minute and sender, then the quote |
| MailSender.SmtpSsl | Service/MailSender.php:105 | the ssl option is null exactly for encryption "none" and the setting itself otherwise |
| MailSender.ThreadingHeaders | Service/MailSender.php:92-95 | In-Reply-To and References carry the original's Message-ID exactly when there is an original with a truthy Message-ID |
| MailSender.ArchiveCopyMatchesSent | Service/MailSender.php:114-126 | the archive copy equals the submitted message except for its headers, and has only its own Date header |
| MailSender.ReplyAddressing | Service/MailSender.php:34-42 | a reply goes to the original sender with a subject starting "Re:" and both threading headers |
| MailSender.MimeParts | Service/MailSender.php:51-76 | one part more than there are attachments: the quoted-printable UTF-8 text part first, then one base64 attachment part per attachment in input order, carrying its content, MIME type and filename |
| MailSender.CreateMimeMessage | Service/MailSender.php:51-76 | the loop builds exactly MimeParts: the text part first, then one base64 attachment part per attachment in input order |
| MailSender.Sender.SendEmail | Service/MailSender.php:78-112 | a successful send hands the assembled message and the SMTP options to the transport; a transport failure submits nothing |
| MailSender.Sender.AppendSentMessage | Service/MailSender.php:114-126 | the archive copy is queued |
| MailSender.Sender.Send | Service/MailSender.php:27-32 | the new mail is submitted and then archived, each with the Date of its own clock reading; a transport failure stops before the archive copy |
| MailSender.Sender.Reply | Service/MailSender.php:34-49 | the reply is submitted to the original sender, archived, then the original's rows are marked answered; the two Date headers come from two clock readings. A transport failure changes nothing. A storage failure comes after the mail was sent and archived |
| MailDeleter.Removal | Service/MailDeleter.php:76-89 | a uid lookup that throws fails with the prefix. A present message is moved to a trash folder other than its own, or else flagged deleted. An absent one only goes locally. The local row goes exactly on success |
| MailDeleter.OnServer | Service/MailDeleter.php:56-95 | the try block sends at most one request and never moves a message into its own folder. Caught errors, a throwing listing among them, carry the "IMAP Error: " prefix. A missing folder row ends in an uncaught error exactly when the listing succeeds |
| MailDeleter.Delete | Service/MailDeleter.php:25-99 | the outcome, the server requests and the local rows are those of the delete's effect on the starting state; consistency is kept |
| MailDeleter.DeleteOnServer | Service/MailDeleter.php:56-98 | the try block's outcome, requests and local rows are those of its effect |
| MailDeleter.RemoveFromServer | Service/MailDeleter.php:76-89 | the uid lookup and the move-or-flag request compute the removal |
| MailDeleter.UnknownMessageTouchesNothing | Service/MailDeleter.php:28-33 | an unknown id fails with "Message not found." before any request |
| MailDeleter.RemovedIffSucceeded | Service/MailDeleter.php:56-95 | the local row is removed exactly when the delete succeeds |
| MailDeleter.ConnectionClosed | Service/MailDeleter.php:54-98 | nothing is sent exactly when the id is unknown or the connect fails; otherwise the requests open with the connect and close with the disconnect |
| MailDeleter.NeverMovedIntoItsOwnFolder | Service/MailDeleter.php:82-88 | no move targets the folder the message is in |
| MailDeleter.TrashOrFlag | Service/MailDeleter.php:78-89 | a message on the server is moved to another trash folder when there is one, and flagged deleted otherwise |
| MailDeleter.GoneFromServerRemovedLocally | Service/MailDeleter.php:76-92 | a message the server no longer has is removed locally without any request |
| MailDeleter.ServerErrorsWrapped | Service/MailDeleter.php:94-95 | after the connect every caught error carries the "IMAP Error: " prefix; the uncaught error occurs exactly for a missing folder row and a listing that does not throw |
| MailDeleter.QueryFailuresCaught | Service/MailDeleter.php:59-95 | a listing or uid lookup that throws is reported with the prefix, keeps the row, and the connection is still closed |
| MailMover.FolderPath | Service/MailMover.php:37-39 | a folder path exists exactly when the folder row does |
| MailMover.OnServer | Service/MailMover.php:64-106 | success means exactly one move of the message to the target and the row goes. Every failure, including a throwing listing or uid lookup, carries the "IMAP Error: " prefix and sends nothing |
| MailMover.Move | Service/MailMover.php:27-110 | the outcome, the server requests and the local rows are those of the move's effect on the starting state; consistency is kept |
| MailMover.MoveOnServer | Service/MailMover.php:64-109 | the try block's outcome, requests and local rows are those of its effect |
| MailMover.LocalChecksFirst | Service/MailMover.php:29-47 | an unknown message or target folder fails with its message before any request |
| MailMover.MovedIffRemoved | Service/MailMover.php:87-103 | the row is removed exactly when the move succeeds, and then the only request between connect and disconnect moved that uid from its folder to the target's path |
| MailMover.ServerErrorsWrapped | Service/MailMover.php:105-109 | after the connect every failure carries the "IMAP Error: " prefix and the connection is closed |
| MailMover.ListingOnly | Service/MailMover.php:66-76 | a source folder missing from the listing is not found even when a direct fetch would find it |
| MailMover.RefusedMoveKeepsRow | Service/MailMover.php:87-91 | a move the server refuses fails and keeps the row |
| MailMover.QueryFailuresCaught | Service/MailMover.php:67-83 | a throwing listing stops the move before the source folder is searched, and a throwing uid lookup stops it before the move; both are reported with the prefix |
| SentConsumer.Process | Model/Queue/SentConsumer.php:18-80 | the requests and log lines are those of the consumer's effect; it never fails |
| SentConsumer.AppendedOnlyToSent | Model/Queue/SentConsumer.php:49-71 | the message is appended only to the Sent folder, flagged seen. Without a Sent folder the consumer warns and disconnects. Otherwise it appends exactly once between connect and disconnect |
| SentConsumer.FailuresLogged | Model/Queue/SentConsumer.php:75-79 | every failure, a throwing listing among them, is logged once with the handler's prefix and leaves the connection open; nothing is logged exactly when everything succeeds |
| SentConsumer.NameBeatsEarlierFuzzy | Model/Queue/SentConsumer.php:49-65 | a folder found by name wins over a fuzzy match listed before it |
| SentConsumer.FuzzyFoldsAsciiOnly | Model/Queue/SentConsumer.php:57-65 | the fuzzy search folds ASCII only: "WYSŁANE" in capitals is not found, "SENT mail" is |
| QueueConsumer.LockFile.Remove | Model/Queue/Consumer.php:34 | unlink removes the lock and records it |
| QueueConsumer.LockFile.Touch | Model/Queue/Consumer.php:41 | touch creates the lock with the current time and records it |
| QueueConsumer.GateFor | Model/Queue/Consumer.php:31-39 | a lock at most 600 seconds old skips the request, an older one is reclaimed, and no lock means run, each as an if-and-only-if |
| QueueConsumer.Process | Model/Queue/Consumer.php:21-55 | the lock events and log lines are those the gate selects. A skipped request changes no table. A run leaves no lock, grows the tables, and records every folder the sync visits |
| QueueConsumer.RunLocked | Model/Queue/Consumer.php:41-54 | the run takes the lock, syncs, logs completion or the error, and releases the lock |
| QueueConsumer.StaleBoundary | Model/Queue/Consumer.php:33 | a lock exactly 600 seconds old still blocks; one second more and it is reclaimed |
| QueueConsumer.RunReleasesLock | Model/Queue/Consumer.php:41-54 | every run that is not skipped ends by removing the lock it created, and removes a stale one first exactly when reclaiming |
| QueueConsumer.RunLogged | Model/Queue/Consumer.php:43-49 | a skipped request logs only the skip line. A run logs the start line, then the completion line exactly when the sync completed, and the error line exactly when it failed |
| ReplyBlock.LastIndexOf | Block/Adminhtml/Message/Reply.php:72 | the position of the last occurrence of the character, none exactly when it does not occur |
| ReplyBlock.ExtensionAfterLastDot | Block/Adminhtml/Message/Reply.php:72 | the extension is what follows the base name's last dot, whatever the directories and the stem hold |
| ReplyBlock.ExtensionWithoutDot | Block/Adminhtml/Message/Reply.php:72 | a base name without a dot has no extension |
| ReplyBlock.ByExtension | Block/Adminhtml/Message/Reply.php:75-98 | an extension selects a badge exactly when it is on one of the lists |
| ReplyBlock.ByMime | Block/Adminhtml/Message/Reply.php:101-109 | a MIME type selects a badge exactly when it starts with "image/", "audio/" or "video/" (case-sensitive) |
| ReplyBlock.FallbackLabel | Block/Adminhtml/Message/Reply.php:111 | the label is the extension's first three bytes (all of a shorter one), each upper-cased, and is "FILE" exactly when those are falsy |
| ReplyBlock.FileTypeInfo | Block/Adminhtml/Message/Reply.php:70-112 | every badge has one of the eleven style classes |
| ReplyBlock.ExtensionBeatsMime | Block/Adminhtml/Message/Reply.php:72-109 | a recognised extension decides whatever the MIME type; otherwise the MIME type decides, and then the fallback |
| ReplyBlock.ExtensionCaseIgnored | Block/Adminhtml/Message/Reply.php:72 | extensions differing only in ASCII case give the same badge |
| ReplyBlock.ImageLabelledByExtension | Block/Adminhtml/Message/Reply.php:75-80 | an image extension is labelled with itself in capitals, and "pdf" with PDF |
| ReplyBlock.TextBeatsImageMime | Block/Adminhtml/Message/Reply.php:96-101 | "x.txt" sent as image/png is a text file |
| ReplyBlock.CapitalImageExtension | Block/Adminhtml/Message/Reply.php:72-80 | "photo.JPG" is an image labelled JPG |
| ReplyBlock.FallbackLabels | Block/Adminhtml/Message/Reply.php:111 | an empty extension and "0" give FILE; "mpeg" gives MPE |
| ReplyBlock.VideoByMime | Block/Adminhtml/Message/Reply.php:107-109 | "clip.mpeg" sent as video/mpeg gets the video badge |
| SendController.ErrorSending | Controller/Adminhtml/Message/Send.php:131 | the shown error is "Error sending message: " followed by the caught message |
| SendController.CollectAttachments | Controller/Adminhtml/Message/Send.php:52-79 | the upload loop collects exactly the attachments the request carries |
| SendController.KeptExactlyAccepted | Controller/Adminhtml/Message/Send.php:57-68 | a file is attached exactly when an upload without error and with a positive size carries it |
| SendController.KeptKeepsOrder | Controller/Adminhtml/Message/Send.php:57-68 | the filter keeps upload order |
| SendController.AllAcceptedAllKept | Controller/Adminhtml/Message/Send.php:57-68 | when every upload is accepted, each becomes the attachment at its position |
| SendController.SingleLikeMultiple | Controller/Adminhtml/Message/Send.php:56-78 | the single-file form follows the same rule as an array of one |
| SendController.OriginalOf | Controller/Adminhtml/Message/Send.php:97-107 | the original's record copies the row's fields. An unknown status becomes read, and a null Message-ID becomes the empty string |
| SendController.UnknownStatusIsRead | Controller/Adminhtml/Message/Send.php:103 | a stored status the enum does not know is taken as read |
| SendController.Decide | Controller/Adminhtml/Message/Send.php:47-125 | no body: the body error. A truthy id: a reply exactly when the row exists, else "Original message not found.". No id: a new mail exactly when recipient and subject are truthy, else the recipient error |
| SendController.BodyCheckedFirst | Controller/Adminhtml/Message/Send.php:47-50 | without a body neither the id nor the files matter |
| SendController.Ending | Controller/Adminhtml/Message/Send.php:109-132 | the try block ends normally exactly when a reply is sent and its status update succeeds, or a new mail is sent; a rejected plan fails with its message |
| SendController.RejectedSendsNothing | Controller/Adminhtml/Message/Send.php:47-50 | a request that fails a check leaves only its error message |
| SendController.PublishedOnlyAfterSuccess | Controller/Adminhtml/Message/Send.php:109-132 | success is shown exactly when the mail went out; every sending failure is shown with the prefix |
| SendController.MessageManager.Add | Controller/Adminhtml/Message/Send.php:48 | the message is queued for the next page |
| SendController.SyncPublisher.Publish | Controller/Adminhtml/Message/Send.php:128 | one sync request is published |
| SendController.Execute | Controller/Adminhtml/Message/Send.php:40-135 | the action leaves the plan's message and publishes a sync exactly on success. It marks a replied original answered. It submits and archives exactly the planned mail unless a check or the transport failed |
| SendController.Deliver | Controller/Adminhtml/Message/Send.php:81-125 | the reply or send call agrees with the planned ending and its effects on the rows, the outbox and the archive |
| SendController.DecideAsWritten | Controller/Adminhtml/Message/Send.php:81-116 | as written, both throws of the try block and the reply record's construction end in an uncaught error; any other request is decided as the corrected action does |
| SendController.ReplyNeverSentAsWritten | Controller/Adminhtml/Message/Send.php:86-107 | as written, every request with a body and an id ends in an uncaught error: the rejected phrase when the original is missing, where the corrected action shows "Original message not found.", and the unknown `type` argument when it exists |
| SendController.MissingSubjectFatalAsWritten | Controller/Adminhtml/Message/Send.php:114-116 | as written, a new mail without a subject ends in an uncaught error where the intended action shows the recipient error |
| SendController.ExistingOriginalFatalAsWritten | Controller/Adminhtml/Message/Send.php:97-107 | as written, a reply to a stored message fails where the corrected action sends it |

## Left out

- Pruning stale messages: Api/MessageRepositoryInterface.php declares `getUidsByFolderId` and `deleteByUids` (lines 43 and 52), but Model/MessageRepository.php never implements them, so there is no pruning to model.
- Model/MessageRepository.php declares that it implements that interface. PHP refuses to load a class that leaves interface methods unimplemented. The model assumes the class loads and models the methods it has.
- The folders-only mode of the sync command: Console/Command/SyncCommand.php:58 passes a third argument that `sync` (Service/ImapSynchronizer.php:27) does not declare. PHP ignores a surplus argument, so the mode has no effect and every run is a full run.
- Storage failures of the folder save in `getOrCreate`, of the attachment insert and of the resource delete are not modelled: those calls always succeed in the model.
- Date parsing and formatting: the stored date and its minute form are parameters. So are the `Date` header value and the exception `new DateTimeImmutable` may raise in reply mode.
- The Message-ID is `md5(uniqid(microtime()))` in the source; the model takes the token as a parameter.
- `strip_tags` is a parameter of the sync, not a model of HTML.
- `Config::getAccount` and the website id lookup: the account is a parameter of the sender and the send action.
- The synchronisation and Sent-folder publishers are modelled as counters and logs. Message queue transport and the raw serialisation `toString()` of the archive copy are left out.
- The IMAP library itself: the folder listing is taken flat as the server returns it, and `getMessageByUid` is a uid lookup. A move or delete does not change the modelled server mailbox. The disconnect the library's destructor may perform is left out.
- MailDeleter.OnServer: when the folder row of the message is missing, the model has `getFolder(null)` raise an uncaught TypeError (Service/MailDeleter.php:69). That holds only if the IMAP library declares the parameter as `string`, and the library is not part of this model.
- ImapClient.Client.GetFolder: that a direct fetch throws when the server has no folder with the path is an assumption about the library, on which the catch at Service/MailDeleter.php:68-72 relies.
- ImapClient.Client.GetFolders: each server answer is fixed for the whole request, so a listing that throws throws on every call; a listing that fails only at the second or third `getFolders()` of Service/MailDeleter.php:108 and :119 is not modelled.
- ImapSynchronizer.Sync: `Remote.connects` stands for both the connect at Service/ImapSynchronizer.php:41 and the folder listing at :45. Both are outside every try, and a failure of either ends the run before any folder is visited, so the model does not tell them apart.
- QueueConsumer.Process: the lock file is checked and then created in two steps, so two consumers can both run; the model claims no mutual exclusion. The message of a failing sync is the `failure` parameter.
- Non-numeric `id` request parameters: the id is modelled as an optional integer.
- Upload arrays whose keys are misaligned, and `file_get_contents` failing on a temporary file, are left out.
- ReplyBlock.Extension: `pathinfo` on a name with trailing slashes is not modelled.
- MessageRepository.NewRow: the insert reads an undefined `type` property of the record. Under plain PHP 8 that is a warning and the message_type column is stored as null, which is what the model does. An error handler that turns warnings into exceptions would make every insert fail instead; that is not modelled.
- The HTTP redirect, the controllers of the admin API, the UI components and the block's memoisation of the loaded message are outside the core.

## Findings

| source | as written | input that shows it | evidently intended | confidence | as-written member | corrected member |
|---|---|---|---|---|---|---|
| Controller/Adminhtml/Message/Send.php:86-88 | the file declares strict types and passes the translated phrase object to `new \Exception`, whose message must be a string. That raises a TypeError, which `catch (\Exception $e)` does not catch | a request with a body and an id that no stored row has | the error message "Error sending message: Original message not found." is shown | not executed | SendController.ReplyNeverSentAsWritten | SendController.Decide |
| Controller/Adminhtml/Message/Send.php:114-116 | the same phrase object is passed to `new \Exception` for a new mail without recipient or subject, raising the same uncaught TypeError | a request with a body, no id, a recipient and no subject | the error message "Error sending message: Recipient and Subject are required for new messages." is shown | not executed | SendController.MissingSubjectFatalAsWritten | SendController.Decide |
| Controller/Adminhtml/Message/Send.php:97-107 | the original's record is built with a named argument `type`, which the record's constructor (Model/MessageDto.php:11-20) does not have. Every reply ends in an uncaught Error before anything is sent | id 1 with a stored row whose id is 1, and a body | the reply is sent to the original sender and the original is marked answered | not executed | SendController.ExistingOriginalFatalAsWritten | SendController.Execute |
