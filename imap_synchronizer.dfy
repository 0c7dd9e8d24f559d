/** One synchronisation run: every folder the remote lists, in listing
    order, is looked up or created in the local catalogue, and every message
    of it is mapped to a record and inserted if its (uid, folder id) is new;
    attachment metadata is inserted for each (message, part number) that has
    no row yet. An exception while processing one message is swallowed; an
    exception while listing a folder's messages ends the whole run.

    The remote side is a value: the folder listing, and per folder either its
    messages or the fact that listing them throws. */
module ImapSynchronizer {
  import opened Common
  import MR = MessageRepository
  import FR = FolderRepository

  // ---------------------------------------------------------------------
  // The remote mailbox as the run sees it

  datatype Address = Address(mail: string)

  datatype RemoteAttachment = RemoteAttachment(name: string, mimeType: string, size: int, partNumber: int)

  /** Where processing one message throws, if anywhere: in one of the
      message accessors before anything is saved, in the message insert
      (the repository's CouldNotSaveException), or at the k-th attachment
      (before its row is written). */
  datatype Fault = NoFault | ReadFault | StorageFault(message: string) | AttachmentFault(index: nat)

  /** A fetched message. `textBody` and `htmlBody` are None when the message
      has no body of that kind. */
  datatype RemoteMessage = RemoteMessage(
    uid: int,
    messageId: string,
    subject: string,
    from: seq<Address>,
    date: DateTime,
    textBody: Option<string>,
    htmlBody: Option<string>,
    flags: set<string>,
    attachments: seq<RemoteAttachment>,
    fault: Fault)

  /** A listed folder; `messages` is None when querying its messages throws. */
  datatype RemoteFolder = RemoteFolder(
    path: string,
    name: string,
    delimiter: Option<string>,
    messages: Option<seq<RemoteMessage>>)

  /** The server: whether connecting and listing the folders succeed (both
      happen before the folder loop, outside every try), and the listing. */
  datatype Remote = Remote(connects: bool, folders: seq<RemoteFolder>)

  /** How a run ends. `ConnectionFailed` and `ListingFailed` are exceptions
      that leave the run; the client is disconnected only on `Completed`. */
  datatype SyncOutcome = Completed | ConnectionFailed | ListingFailed(folderIndex: nat, path: string)

  // ---------------------------------------------------------------------
  // Mapping one message to a record

  /** The status: start from unread, then seen, flagged and deleted each
      overwrite it in that order. */
  function DeriveStatus(flags: set<string>): (s: Status)
    ensures s == Deleted <==> "deleted" in flags
    ensures s == Flagged <==> "flagged" in flags && "deleted" !in flags
    ensures s == Read <==> "seen" in flags && "flagged" !in flags && "deleted" !in flags
    ensures s == Unread <==> "seen" !in flags && "flagged" !in flags && "deleted" !in flags
    ensures s != Answered
  {
    var s0 := Unread;
    var s1 := if "seen" in flags then Read else s0;
    var s2 := if "flagged" in flags then Flagged else s1;
    var s3 := if "deleted" in flags then Deleted else s2;
    s3
  }

  /** The sender: the mail of the first From address, or 'unknown'. */
  function Sender(from: seq<Address>): (s: string)
    ensures from == [] ==> s == "unknown"
    ensures from != [] ==> s == from[0].mail
  {
    if |from| > 0 then from[0].mail else "unknown"
  }

  /** The body before truncation: text if present, else the HTML with its
      tags stripped, else empty. `stripTags` stands for PHP's strip_tags. */
  function Body(m: RemoteMessage, stripTags: string -> string): (b: string)
    ensures m.textBody.Some? ==> b == m.textBody.value
    ensures m.textBody.None? && m.htmlBody.Some? ==> b == stripTags(m.htmlBody.value)
    ensures m.textBody.None? && m.htmlBody.None? ==> b == ""
  {
    if m.textBody.Some? then m.textBody.value
    else if m.htmlBody.Some? then stripTags(m.htmlBody.value)
    else ""
  }

  /** The content column is cut to this many bytes. */
  const MaxContent: nat := 5000

  /** The record saved for a message of the folder with id `folderId`. */
  function ToDto(m: RemoteMessage, folderId: int, stripTags: string -> string): (d: MessageDto)
    ensures d.uid == m.uid && d.folderId == folderId && d.subject == m.subject
    ensures d.messageId == Some(m.messageId) && d.date == m.date
    ensures d.sender == Sender(m.from) && d.status == DeriveStatus(m.flags)
    ensures |d.content| <= MaxContent && IsPrefix(d.content, Body(m, stripTags))
    ensures |Body(m, stripTags)| <= MaxContent ==> d.content == Body(m, stripTags)
    ensures |Body(m, stripTags)| > MaxContent ==> d.content == Body(m, stripTags)[..MaxContent]
  {
    MessageDto(m.uid, m.subject, Sender(m.from), m.date,
               Prefix(Body(m, stripTags), MaxContent), DeriveStatus(m.flags), folderId, Some(m.messageId))
  }

  // ---------------------------------------------------------------------
  // The attachment table

  datatype AttachmentRow = AttachmentRow(
    id: int, messageId: int, filename: string, mimeType: string, size: int, partNumber: int)

  predicate IsFor(r: AttachmentRow, messageId: int, partNumber: int)
  {
    r.messageId == messageId && r.partNumber == partNumber
  }

  /** Some row exists for (message id, part number). */
  ghost predicate HasAttachmentRow(rows: seq<AttachmentRow>, messageId: int, partNumber: int)
  {
    exists i :: 0 <= i < |rows| && IsFor(rows[i], messageId, partNumber)
  }

  /** No two rows for the same (message id, part number). */
  ghost predicate NoDuplicateAttachments(rows: seq<AttachmentRow>)
  {
    forall i, j :: 0 <= i < j < |rows| ==> !IsFor(rows[j], rows[i].messageId, rows[i].partNumber)
  }

  /** The attachment table as a value: its rows and the next id. */
  datatype Attachments = Attachments(rows: seq<AttachmentRow>, nextId: int)

  class AttachmentTable {
    var rows: seq<AttachmentRow>
    var nextId: int

    function Value(): Attachments
      reads this
    {
      Attachments(rows, nextId)
    }

    ghost predicate Valid()
      reads this
    {
      nextId >= 1 && forall i :: 0 <= i < |rows| ==> 1 <= rows[i].id < nextId
    }

    constructor ()
      ensures Valid() && rows == []
    {
      rows := [];
      nextId := 1;
    }

    /** The existence query on (message id, part number). */
    method Exists(messageId: int, partNumber: int) returns (found: bool)
      ensures found == HasAttachmentRow(rows, messageId, partNumber)
    {
      var i := 0;
      while i < |rows|
        invariant 0 <= i <= |rows|
        invariant forall k :: 0 <= k < i ==> !IsFor(rows[k], messageId, partNumber)
      {
        if IsFor(rows[i], messageId, partNumber) {
          return true;
        }
        i := i + 1;
      }
      return false;
    }

    method Insert(messageId: int, a: RemoteAttachment)
      requires Valid()
      modifies this
      ensures Valid()
      ensures rows == old(rows) + [AttachmentRow(old(nextId), messageId, a.name, a.mimeType, a.size, a.partNumber)]
      ensures nextId == old(nextId) + 1
    {
      rows := rows + [AttachmentRow(nextId, messageId, a.name, a.mimeType, a.size, a.partNumber)];
      nextId := nextId + 1;
    }
  }

  // ---------------------------------------------------------------------
  // What a mirrored message and folder are

  /** The three tables a run writes. */
  datatype Tables = Tables(catalog: FR.Catalog, messages: MR.Table, attachments: Attachments)

  function TablesOf(catalog: FR.FolderTable, store: MR.MessageTable, atts: AttachmentTable): Tables
    reads catalog, store, atts
  {
    Tables(catalog.Value(), store.Value(), atts.Value())
  }

  /** The id of the first catalogue folder with the path, if any. */
  function FolderIdOf(c: FR.Catalog, path: string): Option<int>
  {
    match FR.FirstWithPath(c.folders, path)
    case Some(i) => Some(c.folders[i].id)
    case None => None
  }

  /** The name of the first catalogue folder with the path, if any. */
  function NameOf(c: FR.Catalog, path: string): Option<string>
  {
    match FR.FirstWithPath(c.folders, path)
    case Some(i) => Some(c.folders[i].name)
    case None => None
  }

  /** How many of a message's attachments processing it reaches: all of
      them, or those before the one that throws. */
  function AttachmentsReached(m: RemoteMessage): (n: nat)
    ensures n <= |m.attachments|
    ensures m.fault.AttachmentFault? && m.fault.index < |m.attachments| ==> n == m.fault.index
    ensures !(m.fault.AttachmentFault? && m.fault.index < |m.attachments|) ==> n == |m.attachments|
  {
    if m.fault.AttachmentFault? && m.fault.index < |m.attachments| then m.fault.index else |m.attachments|
  }

  /** A message is recorded under folder id `fid` as far as processing it
      gets. Nothing is owed for a message whose accessors or insert throw.
      Otherwise a row has its key, and every attachment before the one that
      throws has a row under that row's id. For a message processed without
      a fault, that is: the message and all its attachments are mirrored. */
  ghost predicate MessageRecorded(m: RemoteMessage, fid: int, t: MR.Table, a: seq<AttachmentRow>)
  {
    || m.fault.ReadFault?
    || m.fault.StorageFault?
    || (&& MR.KeyId(t, m.uid, fid).Some?
        && forall k :: 0 <= k < AttachmentsReached(m) ==>
             HasAttachmentRow(a, MR.KeyId(t, m.uid, fid).value, m.attachments[k].partNumber))
  }

  /** The first `n` messages are recorded. */
  ghost predicate MessagesRecorded(ms: seq<RemoteMessage>, n: nat, fid: int, t: MR.Table, a: seq<AttachmentRow>)
    requires n <= |ms|
  {
    n == 0 || (MessagesRecorded(ms, n - 1, fid, t, a) && MessageRecorded(ms[n - 1], fid, t, a))
  }

  /** A folder is recorded when its path is catalogued and, if its messages
      can be listed, they are recorded under that folder's id. */
  ghost predicate FolderRecorded(f: RemoteFolder, s: Tables)
  {
    && FolderIdOf(s.catalog, f.path).Some?
    && (f.messages.Some? ==>
          MessagesRecorded(f.messages.value, |f.messages.value|, FolderIdOf(s.catalog, f.path).value,
                           s.messages, s.attachments.rows))
  }

  /** The first `n` folders are recorded. */
  ghost predicate FoldersRecorded(fs: seq<RemoteFolder>, n: nat, s: Tables)
    requires n <= |fs|
  {
    n == 0 || (FoldersRecorded(fs, n - 1, s) && FolderRecorded(fs[n - 1], s))
  }

  /** MessagesRecorded means: each message before `n` is recorded. */
  lemma {:induction false} MessagesRecordedAt(ms: seq<RemoteMessage>, n: nat, fid: int, t: MR.Table, a: seq<AttachmentRow>)
    requires n <= |ms|
    ensures MessagesRecorded(ms, n, fid, t, a) <==> forall j :: 0 <= j < n ==> MessageRecorded(ms[j], fid, t, a)
    decreases n
  {
    if n > 0 {
      MessagesRecordedAt(ms, n - 1, fid, t, a);
    }
  }

  /** FoldersRecorded means: each folder before `n` is recorded. */
  lemma {:induction false} FoldersRecordedAt(fs: seq<RemoteFolder>, n: nat, s: Tables)
    requires n <= |fs|
    ensures FoldersRecorded(fs, n, s) <==> forall k :: 0 <= k < n ==> FolderRecorded(fs[k], s)
    decreases n
  {
    if n > 0 {
      FoldersRecordedAt(fs, n - 1, s);
    }
  }

  /** Every folder a run against `remote` visits is already recorded. */
  ghost predicate Recorded(remote: Remote, s: Tables)
  {
    FoldersRecorded(remote.folders, Visited(remote), s)
  }

  /** The first folder whose message listing throws. */
  function FirstUnlistable(fs: seq<RemoteFolder>): (r: Option<nat>)
    ensures r.Some? ==> r.value < |fs| && fs[r.value].messages.None?
    ensures r.Some? ==> forall k :: 0 <= k < r.value ==> fs[k].messages.Some?
    ensures r.None? ==> forall k :: 0 <= k < |fs| ==> fs[k].messages.Some?
  {
    if fs == [] then None
    else
      match FirstUnlistable(fs[..|fs| - 1])
      case Some(i) => Some(i)
      case None => if fs[|fs| - 1].messages.None? then Some(|fs| - 1) else None
  }

  /** How the run ends against a given remote. */
  function ExpectedOutcome(remote: Remote): SyncOutcome
  {
    if !remote.connects then ConnectionFailed
    else match FirstUnlistable(remote.folders)
      case Some(i) => ListingFailed(i, remote.folders[i].path)
      case None => Completed
  }

  /** The number of folders a run visits (looks up or creates in the
      catalogue): the listing up to and including the first folder whose
      messages cannot be listed. */
  function FoldersVisited(fs: seq<RemoteFolder>): (n: nat)
    ensures n <= |fs|
    ensures forall k :: 0 <= k < n - 1 ==> fs[k].messages.Some?
    ensures n < |fs| ==> n > 0 && fs[n - 1].messages.None?
  {
    match FirstUnlistable(fs)
    case Some(i) => i + 1
    case None => |fs|
  }

  /** The folders a run against `remote` visits: none without a connection. */
  function Visited(remote: Remote): (n: nat)
    ensures n <= |remote.folders|
    ensures !remote.connects ==> n == 0
    ensures remote.connects ==> n == FoldersVisited(remote.folders)
  {
    if !remote.connects then 0 else FoldersVisited(remote.folders)
  }

  // ---------------------------------------------------------------------
  // Growth of the local tables during a run

  /** No message row and no attachment row changes and no folder is added. */
  ghost predicate SameRows(s: Tables, s': Tables)
  {
    s'.messages == s.messages && s'.attachments == s.attachments && |s'.catalog.folders| == |s.catalog.folders|
  }

  /** The catalogue only grows, and every catalogued path keeps its folder id. */
  ghost predicate CatalogExtends(c: FR.Catalog, c': FR.Catalog)
  {
    && |c.folders| <= |c'.folders|
    && forall path :: FolderIdOf(c, path).Some? ==> FolderIdOf(c', path) == FolderIdOf(c, path)
  }

  ghost predicate TableExtends(t: MR.Table, t': MR.Table)
  {
    t.rows <= t'.rows
  }

  ghost predicate RowsExtend(a: seq<AttachmentRow>, a': seq<AttachmentRow>)
  {
    a <= a'
  }

  ghost predicate Extends(s: Tables, s': Tables)
  {
    CatalogExtends(s.catalog, s'.catalog) && TableExtends(s.messages, s'.messages)
    && RowsExtend(s.attachments.rows, s'.attachments.rows)
  }

  lemma ExtendsTransitive(s: Tables, s': Tables, s'': Tables)
    requires Extends(s, s') && Extends(s', s'')
    ensures Extends(s, s'')
  {
    TableExtendsTransitive(s.messages, s'.messages, s''.messages);
    RowsExtendTransitive(s.attachments.rows, s'.attachments.rows, s''.attachments.rows);
  }

  lemma TableExtendsTransitive(t: MR.Table, t': MR.Table, t'': MR.Table)
    requires TableExtends(t, t') && TableExtends(t', t'')
    ensures TableExtends(t, t'')
  {
    assert t''.rows[..|t.rows|] == t''.rows[..|t'.rows|][..|t.rows|];
  }

  lemma RowsExtendTransitive(a: seq<AttachmentRow>, a': seq<AttachmentRow>, a'': seq<AttachmentRow>)
    requires RowsExtend(a, a') && RowsExtend(a', a'')
    ensures RowsExtend(a, a'')
  {
    assert a''[..|a|] == a''[..|a'|][..|a|];
  }

  /** A path keeps its folder id when every earlier folder keeps its id and path. */
  lemma FolderIdStable(c: FR.Catalog, c': FR.Catalog, path: string)
    requires |c.folders| <= |c'.folders|
    requires forall j :: 0 <= j < |c.folders| ==> c'.folders[j].id == c.folders[j].id && c'.folders[j].path == c.folders[j].path
    requires FolderIdOf(c, path).Some?
    ensures FolderIdOf(c', path) == FolderIdOf(c, path)
  {
    var i := FR.FirstWithPath(c.folders, path).value;
    assert c'.folders[i].path == path;
    forall k | 0 <= k < i ensures c'.folders[k].path != path {
      assert c'.folders[k].path == c.folders[k].path;
    }
  }

  lemma KeyIdStable(t: MR.Table, t': MR.Table, uid: int, fid: int)
    requires TableExtends(t, t') && MR.KeyId(t, uid, fid).Some?
    ensures MR.KeyId(t', uid, fid) == MR.KeyId(t, uid, fid)
  {
    MR.IndexOfKeyExtend(t.rows, t'.rows, uid, fid);
    var i := MR.IndexOfKey(t.rows, uid, fid).value;
    assert t'.rows[i] == t.rows[i];
  }

  lemma MessageRecordedMonotone(m: RemoteMessage, fid: int, t: MR.Table, a: seq<AttachmentRow>,
                                t': MR.Table, a': seq<AttachmentRow>)
    requires TableExtends(t, t') && RowsExtend(a, a') && MessageRecorded(m, fid, t, a)
    ensures MessageRecorded(m, fid, t', a')
  {
    if !(m.fault.ReadFault? || m.fault.StorageFault?) {
      KeyIdStable(t, t', m.uid, fid);
      var id := MR.KeyId(t, m.uid, fid).value;
      forall k | 0 <= k < AttachmentsReached(m)
        ensures HasAttachmentRow(a', id, m.attachments[k].partNumber)
      {
        HasMonotone(a, a', id, m.attachments[k].partNumber);
      }
    }
  }

  lemma {:induction false} MessagesRecordedMonotone(ms: seq<RemoteMessage>, n: nat, fid: int,
                                 t: MR.Table, a: seq<AttachmentRow>, t': MR.Table, a': seq<AttachmentRow>)
    requires n <= |ms| && TableExtends(t, t') && RowsExtend(a, a') && MessagesRecorded(ms, n, fid, t, a)
    ensures MessagesRecorded(ms, n, fid, t', a')
    decreases n
  {
    if n > 0 {
      MessagesRecordedMonotone(ms, n - 1, fid, t, a, t', a');
      MessageRecordedMonotone(ms[n - 1], fid, t, a, t', a');
    }
  }

  lemma FolderRecordedMonotone(f: RemoteFolder, s: Tables, s': Tables)
    requires Extends(s, s') && FolderRecorded(f, s)
    ensures FolderRecorded(f, s')
  {
    if f.messages.Some? {
      MessagesRecordedMonotone(f.messages.value, |f.messages.value|, FolderIdOf(s.catalog, f.path).value,
                               s.messages, s.attachments.rows, s'.messages, s'.attachments.rows);
    }
  }

  lemma {:induction false} FoldersRecordedMonotone(fs: seq<RemoteFolder>, n: nat, s: Tables, s': Tables)
    requires n <= |fs| && Extends(s, s') && FoldersRecorded(fs, n, s)
    ensures FoldersRecorded(fs, n, s')
    decreases n
  {
    if n > 0 {
      FoldersRecordedMonotone(fs, n - 1, s, s');
      FolderRecordedMonotone(fs[n - 1], s, s');
    }
  }

  /** A folder returned by getOrCreate is the one its path now resolves to. */
  lemma CatalogStep(c: FR.Catalog, path: string, name: string, delimiter: Option<string>)
    requires FR.Consistent(c)
    ensures var (c', f) := FR.GetOrCreateResult(c, path, name, delimiter);
            && FR.Consistent(c') && CatalogExtends(c, c') && FolderIdOf(c', path) == Some(f.id)
            && (FolderIdOf(c, path).Some? ==> |c'.folders| == |c.folders|)
  {
    FR.GetOrCreateReturnsRequested(c, path, name, delimiter);
    FR.GetOrCreateGrows(c, path, name, delimiter);
    var c' := FR.GetOrCreateResult(c, path, name, delimiter).0;
    forall q | FolderIdOf(c, q).Some? ensures FolderIdOf(c', q) == FolderIdOf(c, q) {
      FolderIdStable(c, c', q);
    }
  }

  /** The first folder with a path stays first when every earlier folder
      keeps its path and no added one has it. */
  lemma FirstWithPathKept(a: seq<FR.Folder>, b: seq<FR.Folder>, p: string)
    requires |a| <= |b| && (forall j :: 0 <= j < |a| ==> b[j].path == a[j].path)
    requires forall j :: |a| <= j < |b| ==> b[j].path != p
    ensures FR.FirstWithPath(b, p) == FR.FirstWithPath(a, p)
  {
    match FR.FirstWithPath(a, p)
    case Some(i) =>
      assert b[i].path == p;
    case None =>
  }

  /** Catalogue `c'` names `path` as `name` and every other path as `c` does. */
  ghost predicate Renamed(c: FR.Catalog, c': FR.Catalog, path: string, name: string)
  {
    && NameOf(c', path) == Some(name)
    && forall p :: p != path ==> NameOf(c', p) == NameOf(c, p)
  }

  /** getOrCreate names the first folder with the path as asked and leaves
      the name every other path resolves to alone. */
  lemma CatalogNames(c: FR.Catalog, path: string, name: string, delimiter: Option<string>)
    requires FR.Consistent(c)
    ensures Renamed(c, FR.GetOrCreateResult(c, path, name, delimiter).0, path, name)
  {
    FR.GetOrCreateReturnsRequested(c, path, name, delimiter);
    FR.GetOrCreateGrows(c, path, name, delimiter);
    var c' := FR.GetOrCreateResult(c, path, name, delimiter).0;
    forall p | p != path ensures NameOf(c', p) == NameOf(c, p) {
      FirstWithPathKept(c.folders, c'.folders, p);
      if FR.FirstWithPath(c.folders, p).Some? && FR.FirstWithPath(c.folders, path).Some? {
        assert FR.FirstWithPath(c.folders, p).value != FR.FirstWithPath(c.folders, path).value;
      }
    }
  }

  // ---------------------------------------------------------------------
  // Appending one attachment row

  /** The metadata a row carries, as an attachment. */
  function MetadataOf(r: AttachmentRow): RemoteAttachment
  {
    RemoteAttachment(r.filename, r.mimeType, r.size, r.partNumber)
  }

  lemma HasMonotone(a: seq<AttachmentRow>, a': seq<AttachmentRow>, messageId: int, partNumber: int)
    requires RowsExtend(a, a') && HasAttachmentRow(a, messageId, partNumber)
    ensures HasAttachmentRow(a', messageId, partNumber)
  {
    var i :| 0 <= i < |a| && IsFor(a[i], messageId, partNumber);
    assert a'[i] == a[i];
  }

  /** Appending a row for a pair that has none keeps the table free of
      duplicates, keeps every pair that had a row, and gives the pair a row. */
  lemma AppendRow(a: seq<AttachmentRow>, r: AttachmentRow)
    requires !HasAttachmentRow(a, r.messageId, r.partNumber)
    ensures RowsExtend(a, a + [r]) && HasAttachmentRow(a + [r], r.messageId, r.partNumber)
    ensures NoDuplicateAttachments(a) ==> NoDuplicateAttachments(a + [r])
  {
    var a' := a + [r];
    assert a'[..|a|] == a;
    assert IsFor(a'[|a|], r.messageId, r.partNumber);
    if NoDuplicateAttachments(a) {
      forall i, j | 0 <= i < j < |a'| ensures !IsFor(a'[j], a'[i].messageId, a'[i].partNumber) {
        if j == |a| {
          assert a'[i] == a[i];
        }
      }
    }
  }

  // ---------------------------------------------------------------------
  // The tables a run leaves behind

  /** The attachment loop's step for one attachment of the message with row
      id `messageId`: a row with the next id and the attachment's metadata,
      unless one exists for the pair. */
  ghost function AttachmentStep(messageId: int, x: RemoteAttachment, a: Attachments): Attachments
  {
    if HasAttachmentRow(a.rows, messageId, x.partNumber) then a
    else Attachments(a.rows + [AttachmentRow(a.nextId, messageId, x.name, x.mimeType, x.size, x.partNumber)], a.nextId + 1)
  }

  /** The attachment table once the loop has handled the first `n` attachments. */
  ghost function AttachmentsAfter(messageId: int, list: seq<RemoteAttachment>, n: nat, a: Attachments): Attachments
    requires n <= |list|
    decreases n
  {
    if n == 0 then a else AttachmentStep(messageId, list[n - 1], AttachmentsAfter(messageId, list, n - 1, a))
  }

  /** The message table and attachment table once one message of the folder
      with id `fid` is processed: nothing for a fault before or in the save;
      otherwise the save, then the attachments it reaches under the saved id. */
  ghost function MessageResult(m: RemoteMessage, fid: int, stripTags: string -> string,
                               t: MR.Table, a: Attachments): (MR.Table, Attachments)
  {
    if m.fault.ReadFault? || m.fault.StorageFault? then (t, a)
    else
      var saved := MR.SaveResult(t, ToDto(m, fid, stripTags));
      (saved.0, AttachmentsAfter(saved.1, m.attachments, AttachmentsReached(m), a))
  }

  /** The two tables once the first `n` messages are processed in order. */
  ghost function MessagesResult(ms: seq<RemoteMessage>, n: nat, fid: int, stripTags: string -> string,
                                t: MR.Table, a: Attachments): (MR.Table, Attachments)
    requires n <= |ms|
    decreases n
  {
    if n == 0 then (t, a)
    else
      var before := MessagesResult(ms, n - 1, fid, stripTags, t, a);
      MessageResult(ms[n - 1], fid, stripTags, before.0, before.1)
  }

  /** The tables once one folder is handled: getOrCreate, then its messages
      if they can be listed, under the id getOrCreate returns. */
  ghost function FolderResult(f: RemoteFolder, stripTags: string -> string, s: Tables): Tables
  {
    var got := FR.GetOrCreateResult(s.catalog, f.path, f.name, f.delimiter);
    if f.messages.None? then Tables(got.0, s.messages, s.attachments)
    else
      var after := MessagesResult(f.messages.value, |f.messages.value|, got.1.id, stripTags,
                                  s.messages, s.attachments);
      Tables(got.0, after.0, after.1)
  }

  /** The tables once the first `n` folders are handled in listing order. */
  ghost function FoldersResult(fs: seq<RemoteFolder>, n: nat, stripTags: string -> string, s: Tables): Tables
    requires n <= |fs|
    decreases n
  {
    if n == 0 then s else FolderResult(fs[n - 1], stripTags, FoldersResult(fs, n - 1, stripTags, s))
  }

  /** The tables a run against `remote` leaves: every folder it visits handled. */
  ghost function RunResult(remote: Remote, stripTags: string -> string, s: Tables): Tables
  {
    FoldersResult(remote.folders, Visited(remote), stripTags, s)
  }

  // ---------------------------------------------------------------------
  // What the run's result guarantees

  /** The attachment loop appends rows with consecutive ids from the
      counter, each under the message's row id and carrying the metadata of
      one of the attachments it reached. */
  lemma {:induction false} AttachmentsAfterRows(messageId: int, list: seq<RemoteAttachment>, n: nat, a: Attachments)
    requires n <= |list|
    ensures var a' := AttachmentsAfter(messageId, list, n, a);
            && RowsExtend(a.rows, a'.rows)
            && a'.nextId == a.nextId + (|a'.rows| - |a.rows|)
            && forall i :: |a.rows| <= i < |a'.rows| ==>
                 && a'.rows[i].id == a.nextId + (i - |a.rows|)
                 && a'.rows[i].messageId == messageId
                 && MetadataOf(a'.rows[i]) in list[..n]
    decreases n
  {
    if n > 0 {
      AttachmentsAfterRows(messageId, list, n - 1, a);
      var a1 := AttachmentsAfter(messageId, list, n - 1, a);
      var a' := AttachmentsAfter(messageId, list, n, a);
      assert list[..n] == list[..n - 1] + [list[n - 1]];
      if !HasAttachmentRow(a1.rows, messageId, list[n - 1].partNumber) {
        assert a'.rows == a1.rows + [a'.rows[|a1.rows|]];
        assert MetadataOf(a'.rows[|a1.rows|]) == list[n - 1];
        RowsExtendTransitive(a.rows, a1.rows, a'.rows);
      }
    }
  }

  /** After the attachment loop every pair it reached has a row, no
      duplicate pair is created, and nothing changes (not even the counter)
      when every reached pair already had a row. */
  lemma {:induction false} AttachmentsAfterFacts(messageId: int, list: seq<RemoteAttachment>, n: nat, a: Attachments)
    requires n <= |list|
    ensures var a' := AttachmentsAfter(messageId, list, n, a);
            && (forall q :: 0 <= q < n ==> HasAttachmentRow(a'.rows, messageId, list[q].partNumber))
            && (NoDuplicateAttachments(a.rows) ==> NoDuplicateAttachments(a'.rows))
            && ((forall q :: 0 <= q < n ==> HasAttachmentRow(a.rows, messageId, list[q].partNumber)) ==> a' == a)
    decreases n
  {
    if n > 0 {
      AttachmentsAfterFacts(messageId, list, n - 1, a);
      var a1 := AttachmentsAfter(messageId, list, n - 1, a);
      var a' := AttachmentsAfter(messageId, list, n, a);
      var x := list[n - 1];
      if !HasAttachmentRow(a1.rows, messageId, x.partNumber) {
        AppendRow(a1.rows, a'.rows[|a1.rows|]);
        forall q | 0 <= q < n - 1 ensures HasAttachmentRow(a'.rows, messageId, list[q].partNumber) {
          HasMonotone(a1.rows, a'.rows, messageId, list[q].partNumber);
        }
      }
    }
  }

  /** Processing one message only grows the tables and keeps the message
      table consistent; the message is then recorded as far as processing
      gets, and an already recorded message changes nothing at all. */
  lemma MessageResultFacts(m: RemoteMessage, fid: int, stripTags: string -> string, t: MR.Table, a: Attachments)
    ensures var r := MessageResult(m, fid, stripTags, t, a);
            && TableExtends(t, r.0) && RowsExtend(a.rows, r.1.rows)
            && (MR.Consistent(t) ==> MR.Consistent(r.0))
            && MessageRecorded(m, fid, r.0, r.1.rows)
            && (NoDuplicateAttachments(a.rows) ==> NoDuplicateAttachments(r.1.rows))
            && (MessageRecorded(m, fid, t, a.rows) ==> r == (t, a))
  {
    if !(m.fault.ReadFault? || m.fault.StorageFault?) {
      var saved := MR.SaveResult(t, ToDto(m, fid, stripTags));
      AttachmentsAfterRows(saved.1, m.attachments, AttachmentsReached(m), a);
      AttachmentsAfterFacts(saved.1, m.attachments, AttachmentsReached(m), a);
    }
  }

  /** The message loop: the tables only grow, every message is recorded as
      far as processing it gets, and a folder whose messages are all recorded
      changes nothing. */
  lemma {:induction false} MessagesResultFacts(ms: seq<RemoteMessage>, n: nat, fid: int, stripTags: string -> string,
                                               t: MR.Table, a: Attachments)
    requires n <= |ms|
    ensures var r := MessagesResult(ms, n, fid, stripTags, t, a);
            && TableExtends(t, r.0) && RowsExtend(a.rows, r.1.rows)
            && (MR.Consistent(t) ==> MR.Consistent(r.0))
            && MessagesRecorded(ms, n, fid, r.0, r.1.rows)
            && (NoDuplicateAttachments(a.rows) ==> NoDuplicateAttachments(r.1.rows))
            && (MessagesRecorded(ms, n, fid, t, a.rows) ==> r == (t, a))
    decreases n
  {
    if n > 0 {
      MessagesResultFacts(ms, n - 1, fid, stripTags, t, a);
      var r1 := MessagesResult(ms, n - 1, fid, stripTags, t, a);
      MessageResultFacts(ms[n - 1], fid, stripTags, r1.0, r1.1);
      var r := MessagesResult(ms, n, fid, stripTags, t, a);
      TableExtendsTransitive(t, r1.0, r.0);
      RowsExtendTransitive(a.rows, r1.1.rows, r.1.rows);
      MessagesRecordedMonotone(ms, n - 1, fid, r1.0, r1.1.rows, r.0, r.1.rows);
    }
  }

  /** Handling one folder catalogues its path under the id getOrCreate
      returns, only grows the tables, records the folder, and changes no row
      and adds no folder when the folder was already recorded. */
  lemma FolderResultFacts(f: RemoteFolder, stripTags: string -> string, s: Tables)
    requires FR.Consistent(s.catalog)
    ensures var s' := FolderResult(f, stripTags, s);
            && FR.Consistent(s'.catalog) && (MR.Consistent(s.messages) ==> MR.Consistent(s'.messages))
            && Extends(s, s')
            && FolderIdOf(s'.catalog, f.path) == Some(FR.GetOrCreateResult(s.catalog, f.path, f.name, f.delimiter).1.id)
            && FolderRecorded(f, s')
            && (NoDuplicateAttachments(s.attachments.rows) ==> NoDuplicateAttachments(s'.attachments.rows))
            && (FolderRecorded(f, s) ==> SameRows(s, s'))
  {
    CatalogStep(s.catalog, f.path, f.name, f.delimiter);
    var got := FR.GetOrCreateResult(s.catalog, f.path, f.name, f.delimiter);
    if f.messages.Some? {
      MessagesResultFacts(f.messages.value, |f.messages.value|, got.1.id, stripTags, s.messages, s.attachments);
    }
  }

  /** The folder loop keeps the tables consistent and only grows them. */
  lemma {:induction false} FoldersResultGrows(fs: seq<RemoteFolder>, n: nat, stripTags: string -> string, s: Tables)
    requires n <= |fs| && FR.Consistent(s.catalog)
    ensures var s' := FoldersResult(fs, n, stripTags, s);
            && FR.Consistent(s'.catalog) && (MR.Consistent(s.messages) ==> MR.Consistent(s'.messages))
            && Extends(s, s')
            && (NoDuplicateAttachments(s.attachments.rows) ==> NoDuplicateAttachments(s'.attachments.rows))
    decreases n
  {
    if n > 0 {
      FoldersResultGrows(fs, n - 1, stripTags, s);
      var s1 := FoldersResult(fs, n - 1, stripTags, s);
      FolderResultFacts(fs[n - 1], stripTags, s1);
      ExtendsTransitive(s, s1, FoldersResult(fs, n, stripTags, s));
    }
  }

  /** The first `n` folders are recorded in `s'`, and when they were already
      recorded in `s` nothing changed from `s` to `s'`. */
  ghost predicate RecordedAfter(fs: seq<RemoteFolder>, n: nat, s: Tables, s': Tables)
    requires n <= |fs|
  {
    FoldersRecorded(fs, n, s') && (FoldersRecorded(fs, n, s) ==> SameRows(s, s'))
  }

  /** One pass of the folder loop, over folder `f` from tables `s` to `s'`:
      the tables only grow, the folder ends up recorded, and a folder that
      was already recorded changes no row and adds no folder. */
  ghost predicate PassRecords(f: RemoteFolder, s: Tables, s': Tables)
  {
    Extends(s, s') && FolderRecorded(f, s') && (FolderRecorded(f, s) ==> SameRows(s, s'))
  }

  /** Every pass of `trace` (the tables before the folder loop and after
      each pass over `fs`) records its folder. */
  ghost predicate RecordingTrace(fs: seq<RemoteFolder>, trace: seq<Tables>)
  {
    && |trace| <= |fs| + 1
    && forall k :: 0 <= k < |trace| - 1 ==> PassRecords(fs[k], trace[k], trace[k + 1])
  }

  /** A recording trace grows by a pass that records its folder. */
  lemma RecordingTraceExtend(fs: seq<RemoteFolder>, trace: seq<Tables>, next: Tables)
    requires RecordingTrace(fs, trace) && 0 < |trace| <= |fs|
    requires PassRecords(fs[|trace| - 1], trace[|trace| - 1], next)
    ensures RecordingTrace(fs, trace + [next])
  {
  }

  /** Along a recording trace the tables only grow, the first `n` folders
      are recorded after `n` passes, and when they were already recorded
      before the loop nothing changed. */
  lemma {:induction false} TraceRecorded(fs: seq<RemoteFolder>, trace: seq<Tables>, n: nat)
    requires RecordingTrace(fs, trace) && n < |trace|
    ensures Extends(trace[0], trace[n]) && RecordedAfter(fs, n, trace[0], trace[n])
    decreases n
  {
    if n > 0 {
      TraceRecorded(fs, trace, n - 1);
      assert PassRecords(fs[n - 1], trace[n - 1], trace[n]);
      ExtendsTransitive(trace[0], trace[n - 1], trace[n]);
      RecordedStep(fs, n, trace[0], trace[n - 1], trace[n]);
    }
  }

  /** One pass of the folder loop keeps what RecordedAfter states. */
  lemma RecordedStep(fs: seq<RemoteFolder>, n: nat, s: Tables, s1: Tables, s2: Tables)
    requires 0 < n <= |fs| && Extends(s, s1) && Extends(s1, s2)
    requires FoldersRecorded(fs, n - 1, s1) && FolderRecorded(fs[n - 1], s2)
    requires FoldersRecorded(fs, n - 1, s) ==> SameRows(s, s1)
    requires FolderRecorded(fs[n - 1], s1) ==> SameRows(s1, s2)
    ensures FoldersRecorded(fs, n, s2)
    ensures FoldersRecorded(fs, n, s) ==> SameRows(s, s2)
  {
    FoldersRecordedMonotone(fs, n - 1, s1, s2);
    if FoldersRecorded(fs, n, s) {
      FolderRecordedMonotone(fs[n - 1], s, s1);
    }
  }

  // ---------------------------------------------------------------------
  // Everything a run adds comes from the remote

  /** Row `r` is the record of one of the first `n` messages of `ms`, saved
      under folder id `fid`. */
  ghost predicate RecordOfOne(r: MR.Row, ms: seq<RemoteMessage>, n: nat, fid: int, stripTags: string -> string)
    requires n <= |ms|
  {
    exists j :: 0 <= j < n && r == MR.NewRow(r.id, ToDto(ms[j], fid, stripTags))
  }

  /** Attachment row `r` belongs to message `m` of the folder with id `fid`:
      it sits under the message's row id in `t` and carries the metadata of
      an attachment that processing the message reaches. */
  ghost predicate AttachmentOf(r: AttachmentRow, m: RemoteMessage, fid: int, t: MR.Table)
  {
    MR.KeyId(t, m.uid, fid) == Some(r.messageId) && MetadataOf(r) in m.attachments[..AttachmentsReached(m)]
  }

  /** Attachment row `r` belongs to one of the first `n` messages of `ms`. */
  ghost predicate AttachmentOfOne(r: AttachmentRow, ms: seq<RemoteMessage>, n: nat, fid: int, t: MR.Table)
    requires n <= |ms|
  {
    exists j :: 0 <= j < n && AttachmentOf(r, ms[j], fid, t)
  }

  /** Row `r` is the record of a message of folder `f`, under the id the
      folder's path has in `c`. */
  ghost predicate RecordFrom(r: MR.Row, f: RemoteFolder, c: FR.Catalog, stripTags: string -> string)
  {
    && f.messages.Some? && FolderIdOf(c, f.path).Some?
    && RecordOfOne(r, f.messages.value, |f.messages.value|, FolderIdOf(c, f.path).value, stripTags)
  }

  /** Attachment row `r` belongs to a message of folder `f` in the tables `s`. */
  ghost predicate AttachmentFrom(r: AttachmentRow, f: RemoteFolder, s: Tables)
  {
    && f.messages.Some? && FolderIdOf(s.catalog, f.path).Some?
    && AttachmentOfOne(r, f.messages.value, |f.messages.value|, FolderIdOf(s.catalog, f.path).value, s.messages)
  }

  /** Row `r` is the record of a message of one of the first `n` folders. */
  ghost predicate RecordFromSome(r: MR.Row, fs: seq<RemoteFolder>, n: nat, c: FR.Catalog, stripTags: string -> string)
  {
    exists k :: 0 <= k < n && k < |fs| && RecordFrom(r, fs[k], c, stripTags)
  }

  /** Attachment row `r` belongs to a message of one of the first `n` folders. */
  ghost predicate AttachmentFromSome(r: AttachmentRow, fs: seq<RemoteFolder>, n: nat, s: Tables)
  {
    exists k :: 0 <= k < n && k < |fs| && AttachmentFrom(r, fs[k], s)
  }

  /** The name of the last of the first `n` folders with the path, if any. */
  function LastName(fs: seq<RemoteFolder>, n: nat, path: string): Option<string>
    requires n <= |fs|
  {
    if n == 0 then None
    else if fs[n - 1].path == path then Some(fs[n - 1].name)
    else LastName(fs, n - 1, path)
  }

  lemma AttachmentOfMonotone(r: AttachmentRow, m: RemoteMessage, fid: int, t: MR.Table, t': MR.Table)
    requires TableExtends(t, t') && AttachmentOf(r, m, fid, t)
    ensures AttachmentOf(r, m, fid, t')
  {
    KeyIdStable(t, t', m.uid, fid);
  }

  lemma RecordFromMonotone(r: MR.Row, f: RemoteFolder, c: FR.Catalog, c': FR.Catalog, stripTags: string -> string)
    requires CatalogExtends(c, c') && RecordFrom(r, f, c, stripTags)
    ensures RecordFrom(r, f, c', stripTags)
  {
  }

  lemma AttachmentFromMonotone(r: AttachmentRow, f: RemoteFolder, s: Tables, s': Tables)
    requires Extends(s, s') && AttachmentFrom(r, f, s)
    ensures AttachmentFrom(r, f, s')
  {
    var ms := f.messages.value;
    var fid := FolderIdOf(s.catalog, f.path).value;
    var j :| 0 <= j < |ms| && AttachmentOf(r, ms[j], fid, s.messages);
    AttachmentOfMonotone(r, ms[j], fid, s.messages, s'.messages);
  }

  /** From (`t`, `a`) to (`t'`, `a'`) only records of message `m` under
      folder id `fid` and attachment rows of that message were added. */
  ghost predicate MessageRowsFrom(m: RemoteMessage, fid: int, stripTags: string -> string,
                                  t: MR.Table, a: seq<AttachmentRow>, t': MR.Table, a': seq<AttachmentRow>)
  {
    && (forall i :: |t.rows| <= i < |t'.rows| ==> t'.rows[i] == MR.NewRow(t'.rows[i].id, ToDto(m, fid, stripTags)))
    && (forall i :: |a| <= i < |a'| ==> AttachmentOf(a'[i], m, fid, t'))
  }

  /** From (`t`, `a`) to (`t'`, `a'`) only records of the first `n` messages
      of `ms` under folder id `fid` and attachment rows of those messages were
      added. */
  ghost predicate MessagesRowsFrom(ms: seq<RemoteMessage>, n: nat, fid: int, stripTags: string -> string,
                                   t: MR.Table, a: seq<AttachmentRow>, t': MR.Table, a': seq<AttachmentRow>)
    requires n <= |ms|
  {
    && (forall i :: |t.rows| <= i < |t'.rows| ==> RecordOfOne(t'.rows[i], ms, n, fid, stripTags))
    && (forall i :: |a| <= i < |a'| ==> AttachmentOfOne(a'[i], ms, n, fid, t'))
  }

  /** A processed message adds at most its own record and attachment rows
      under its row that carry its reached attachments' metadata. */
  lemma MessageResultRows(m: RemoteMessage, fid: int, stripTags: string -> string, t: MR.Table, a: Attachments)
    ensures var r := MessageResult(m, fid, stripTags, t, a);
            MessageRowsFrom(m, fid, stripTags, t, a.rows, r.0, r.1.rows)
  {
    if !(m.fault.ReadFault? || m.fault.StorageFault?) {
      var saved := MR.SaveResult(t, ToDto(m, fid, stripTags));
      AttachmentsAfterRows(saved.1, m.attachments, AttachmentsReached(m), a);
    }
  }

  /** One pass of the message loop keeps every new row traced to a message. */
  lemma MessagesRowsStep(ms: seq<RemoteMessage>, n: nat, fid: int, stripTags: string -> string,
                         t: MR.Table, a: seq<AttachmentRow>, t1: MR.Table, a1: seq<AttachmentRow>,
                         t2: MR.Table, a2: seq<AttachmentRow>)
    requires 0 < n <= |ms| && TableExtends(t, t1) && TableExtends(t1, t2) && RowsExtend(a, a1) && RowsExtend(a1, a2)
    requires MessagesRowsFrom(ms, n - 1, fid, stripTags, t, a, t1, a1)
    requires MessageRowsFrom(ms[n - 1], fid, stripTags, t1, a1, t2, a2)
    ensures MessagesRowsFrom(ms, n, fid, stripTags, t, a, t2, a2)
  {
    forall i | |t.rows| <= i < |t2.rows| ensures RecordOfOne(t2.rows[i], ms, n, fid, stripTags) {
      if i < |t1.rows| {
        assert t2.rows[i] == t1.rows[i];
        var j :| 0 <= j < n - 1 && t1.rows[i] == MR.NewRow(t1.rows[i].id, ToDto(ms[j], fid, stripTags));
      } else {
        assert t2.rows[i] == MR.NewRow(t2.rows[i].id, ToDto(ms[n - 1], fid, stripTags));
      }
    }
    forall i | |a| <= i < |a2| ensures AttachmentOfOne(a2[i], ms, n, fid, t2) {
      if i < |a1| {
        assert a2[i] == a1[i];
        var j :| 0 <= j < n - 1 && AttachmentOf(a1[i], ms[j], fid, t1);
        AttachmentOfMonotone(a1[i], ms[j], fid, t1, t2);
      } else {
        assert AttachmentOf(a2[i], ms[n - 1], fid, t2);
      }
    }
  }

  /** The message loop adds only records of the folder's messages and
      attachment rows of those messages. */
  lemma {:induction false} MessagesResultRows(ms: seq<RemoteMessage>, n: nat, fid: int, stripTags: string -> string,
                                              t: MR.Table, a: Attachments)
    requires n <= |ms|
    ensures var r := MessagesResult(ms, n, fid, stripTags, t, a);
            MessagesRowsFrom(ms, n, fid, stripTags, t, a.rows, r.0, r.1.rows)
    decreases n
  {
    if n > 0 {
      var r1 := MessagesResult(ms, n - 1, fid, stripTags, t, a);
      MessagesResultRows(ms, n - 1, fid, stripTags, t, a);
      assert MessagesRowsFrom(ms, n - 1, fid, stripTags, t, a.rows, r1.0, r1.1.rows);
      var r := MessageResult(ms[n - 1], fid, stripTags, r1.0, r1.1);
      MessageResultRows(ms[n - 1], fid, stripTags, r1.0, r1.1);
      assert MessageRowsFrom(ms[n - 1], fid, stripTags, r1.0, r1.1.rows, r.0, r.1.rows);
      MessagesResultFacts(ms, n - 1, fid, stripTags, t, a);
      MessageResultFacts(ms[n - 1], fid, stripTags, r1.0, r1.1);
      assert MessagesResult(ms, n, fid, stripTags, t, a) == r;
      MessagesRowsStep(ms, n, fid, stripTags, t, a.rows, r1.0, r1.1.rows, r.0, r.1.rows);
    }
  }

  /** From `s` to `s'` only records of messages of folder `f`, under the id
      its path has in `s'`, and attachment rows of those messages were added. */
  ghost predicate FolderRowsFrom(f: RemoteFolder, stripTags: string -> string, s: Tables, s': Tables)
  {
    && (forall i :: |s.messages.rows| <= i < |s'.messages.rows| ==> RecordFrom(s'.messages.rows[i], f, s'.catalog, stripTags))
    && (forall i :: |s.attachments.rows| <= i < |s'.attachments.rows| ==> AttachmentFrom(s'.attachments.rows[i], f, s'))
  }

  /** From `s` to `s'` only records of messages of the first `n` folders,
      under the id each path has in `s'`, and attachment rows of those
      messages were added. */
  ghost predicate FoldersRowsFrom(fs: seq<RemoteFolder>, n: nat, stripTags: string -> string, s: Tables, s': Tables)
  {
    && (forall i :: |s.messages.rows| <= i < |s'.messages.rows| ==>
          RecordFromSome(s'.messages.rows[i], fs, n, s'.catalog, stripTags))
    && (forall i :: |s.attachments.rows| <= i < |s'.attachments.rows| ==>
          AttachmentFromSome(s'.attachments.rows[i], fs, n, s'))
  }

  /** Handling one folder adds only records of its messages under the id
      its path now has, and attachment rows of those messages. */
  lemma FolderResultRows(f: RemoteFolder, stripTags: string -> string, s: Tables)
    requires FR.Consistent(s.catalog)
    ensures FolderRowsFrom(f, stripTags, s, FolderResult(f, stripTags, s))
  {
    CatalogStep(s.catalog, f.path, f.name, f.delimiter);
    var got := FR.GetOrCreateResult(s.catalog, f.path, f.name, f.delimiter);
    var s' := FolderResult(f, stripTags, s);
    if f.messages.Some? {
      var ms := f.messages.value;
      MessagesResultRows(ms, |ms|, got.1.id, stripTags, s.messages, s.attachments);
      assert FolderIdOf(s'.catalog, f.path) == Some(got.1.id);
      assert (s'.messages, s'.attachments) == MessagesResult(ms, |ms|, got.1.id, stripTags, s.messages, s.attachments);
    }
  }

  /** The folder loop adds only records of messages of the folders it
      handles, under the id each folder's path has at the end, and attachment
      rows of those messages. */
  lemma {:induction false} FoldersResultRows(fs: seq<RemoteFolder>, n: nat, stripTags: string -> string, s: Tables)
    requires n <= |fs| && FR.Consistent(s.catalog)
    ensures FoldersRowsFrom(fs, n, stripTags, s, FoldersResult(fs, n, stripTags, s))
    decreases n
  {
    if n == 0 {
      FoldersResultNone(fs, stripTags, s);
    } else {
      FoldersResultRows(fs, n - 1, stripTags, s);
      FoldersResultGrows(fs, n - 1, stripTags, s);
      var s1 := FoldersResult(fs, n - 1, stripTags, s);
      FolderResultRows(fs[n - 1], stripTags, s1);
      FolderResultFacts(fs[n - 1], stripTags, s1);
      FoldersResultUnfold(fs, n, stripTags, s);
      FoldersRowsStep(fs, n, stripTags, s, s1, FolderResult(fs[n - 1], stripTags, s1));
    }
  }

  /** One pass of the folder loop keeps every new row traced to a folder. */
  lemma FoldersRowsStep(fs: seq<RemoteFolder>, n: nat, stripTags: string -> string, s: Tables, s1: Tables, s2: Tables)
    requires 0 < n <= |fs| && Extends(s, s1) && Extends(s1, s2)
    requires FoldersRowsFrom(fs, n - 1, stripTags, s, s1) && FolderRowsFrom(fs[n - 1], stripTags, s1, s2)
    ensures FoldersRowsFrom(fs, n, stripTags, s, s2)
  {
    RecordsStep(fs, n, stripTags, s, s1, s2);
    AttachmentsStep(fs, n, s, s1, s2);
  }

  /** One pass of the folder loop keeps every new record traced to a folder. */
  lemma RecordsStep(fs: seq<RemoteFolder>, n: nat, stripTags: string -> string, s: Tables, s1: Tables, s2: Tables)
    requires 0 < n <= |fs| && Extends(s, s1) && Extends(s1, s2)
    requires forall i :: |s.messages.rows| <= i < |s1.messages.rows| ==>
               RecordFromSome(s1.messages.rows[i], fs, n - 1, s1.catalog, stripTags)
    requires forall i :: |s1.messages.rows| <= i < |s2.messages.rows| ==>
               RecordFrom(s2.messages.rows[i], fs[n - 1], s2.catalog, stripTags)
    ensures forall i :: |s.messages.rows| <= i < |s2.messages.rows| ==>
              RecordFromSome(s2.messages.rows[i], fs, n, s2.catalog, stripTags)
  {
    forall i | |s.messages.rows| <= i < |s2.messages.rows|
      ensures RecordFromSome(s2.messages.rows[i], fs, n, s2.catalog, stripTags)
    {
      if i < |s1.messages.rows| {
        assert s2.messages.rows[i] == s1.messages.rows[i];
        var k :| 0 <= k < n - 1 && k < |fs| && RecordFrom(s1.messages.rows[i], fs[k], s1.catalog, stripTags);
        RecordFromMonotone(s1.messages.rows[i], fs[k], s1.catalog, s2.catalog, stripTags);
      } else {
        assert RecordFrom(s2.messages.rows[i], fs[n - 1], s2.catalog, stripTags);
      }
    }
  }

  /** One pass of the folder loop keeps every new attachment row traced to a folder. */
  lemma AttachmentsStep(fs: seq<RemoteFolder>, n: nat, s: Tables, s1: Tables, s2: Tables)
    requires 0 < n <= |fs| && Extends(s, s1) && Extends(s1, s2)
    requires forall i :: |s.attachments.rows| <= i < |s1.attachments.rows| ==>
               AttachmentFromSome(s1.attachments.rows[i], fs, n - 1, s1)
    requires forall i :: |s1.attachments.rows| <= i < |s2.attachments.rows| ==>
               AttachmentFrom(s2.attachments.rows[i], fs[n - 1], s2)
    ensures forall i :: |s.attachments.rows| <= i < |s2.attachments.rows| ==>
              AttachmentFromSome(s2.attachments.rows[i], fs, n, s2)
  {
    forall i | |s.attachments.rows| <= i < |s2.attachments.rows|
      ensures AttachmentFromSome(s2.attachments.rows[i], fs, n, s2)
    {
      if i < |s1.attachments.rows| {
        assert s2.attachments.rows[i] == s1.attachments.rows[i];
        var k :| 0 <= k < n - 1 && k < |fs| && AttachmentFrom(s1.attachments.rows[i], fs[k], s1);
        AttachmentFromMonotone(s1.attachments.rows[i], fs[k], s1, s2);
      } else {
        assert AttachmentFrom(s2.attachments.rows[i], fs[n - 1], s2);
      }
    }
  }

  /** Catalogue `c'` names each path among the first `n` folders as the last
      of them with that path names it, and every other path as `c` does. */
  ghost predicate NamedAfter(fs: seq<RemoteFolder>, n: nat, c: FR.Catalog, c': FR.Catalog)
    requires n <= |fs|
  {
    && (forall p :: LastName(fs, n, p).Some? ==> NameOf(c', p) == LastName(fs, n, p))
    && (forall p :: LastName(fs, n, p).None? ==> NameOf(c', p) == NameOf(c, p))
  }

  /** One pass of the folder loop renames its folder's path and no other. */
  lemma NamesStep(fs: seq<RemoteFolder>, n: nat, c: FR.Catalog, c1: FR.Catalog, c2: FR.Catalog)
    requires 0 < n <= |fs| && NamedAfter(fs, n - 1, c, c1)
    requires Renamed(c1, c2, fs[n - 1].path, fs[n - 1].name)
    ensures NamedAfter(fs, n, c, c2)
  {
  }

  /** Before its first pass the folder loop has changed nothing. */
  lemma FoldersResultNone(fs: seq<RemoteFolder>, stripTags: string -> string, s: Tables)
    ensures FoldersResult(fs, 0, stripTags, s) == s
  {
  }

  /** The n-th pass of the folder loop handles the n-th folder. */
  lemma FoldersResultUnfold(fs: seq<RemoteFolder>, n: nat, stripTags: string -> string, s: Tables)
    requires 0 < n <= |fs|
    ensures FoldersResult(fs, n, stripTags, s) == FolderResult(fs[n - 1], stripTags, FoldersResult(fs, n - 1, stripTags, s))
  {
  }

  /** Handling one folder changes the catalogue only through getOrCreate. */
  lemma FolderResultCatalog(f: RemoteFolder, stripTags: string -> string, s: Tables)
    ensures FolderResult(f, stripTags, s).catalog == FR.GetOrCreateResult(s.catalog, f.path, f.name, f.delimiter).0
  {
  }

  /** The n-th pass of the folder loop changes the catalogue only through
      getOrCreate on the n-th folder. */
  lemma FoldersCatalogStep(fs: seq<RemoteFolder>, n: nat, stripTags: string -> string, s: Tables)
    requires 0 < n <= |fs|
    ensures var f := fs[n - 1];
            FoldersResult(fs, n, stripTags, s).catalog
              == FR.GetOrCreateResult(FoldersResult(fs, n - 1, stripTags, s).catalog, f.path, f.name, f.delimiter).0
  {
    FoldersResultUnfold(fs, n, stripTags, s);
    FolderResultCatalog(fs[n - 1], stripTags, FoldersResult(fs, n - 1, stripTags, s));
  }

  /** After the folder loop the catalogue is consistent, each path it
      handled is named as the last handled folder with that path names it
      (getOrCreate renames in place), and every other path keeps the name it
      had. */
  lemma {:induction false} FoldersResultNames(fs: seq<RemoteFolder>, n: nat, stripTags: string -> string, s: Tables)
    requires n <= |fs| && FR.Consistent(s.catalog)
    ensures var c' := FoldersResult(fs, n, stripTags, s).catalog;
            FR.Consistent(c') && NamedAfter(fs, n, s.catalog, c')
    decreases n
  {
    if n == 0 {
      FoldersResultNone(fs, stripTags, s);
    } else {
      FoldersResultNames(fs, n - 1, stripTags, s);
      var c1 := FoldersResult(fs, n - 1, stripTags, s).catalog;
      var f := fs[n - 1];
      FoldersCatalogStep(fs, n, stripTags, s);
      CatalogStep(c1, f.path, f.name, f.delimiter);
      CatalogNames(c1, f.path, f.name, f.delimiter);
      NamesStep(fs, n, s.catalog, c1, FoldersResult(fs, n, stripTags, s).catalog);
    }
  }

  /** What a run adds all comes from the remote: every new message row is
      the record of a message of a folder the run visits, under the id that
      folder's path has afterwards; every new attachment row sits under such
      a message's row and carries the metadata of one of the attachments
      processing it reaches. Each visited path ends up named as the last
      visited folder with that path names it, and every other path keeps its
      name. */
  lemma RunAddsOnlyRemote(remote: Remote, stripTags: string -> string, s: Tables)
    requires FR.Consistent(s.catalog)
    ensures var s' := RunResult(remote, stripTags, s);
            && (forall i :: |s.messages.rows| <= i < |s'.messages.rows| ==>
                  RecordFromSome(s'.messages.rows[i], remote.folders, Visited(remote), s'.catalog, stripTags))
            && (forall i :: |s.attachments.rows| <= i < |s'.attachments.rows| ==>
                  AttachmentFromSome(s'.attachments.rows[i], remote.folders, Visited(remote), s'))
            && (forall p :: LastName(remote.folders, Visited(remote), p).Some? ==> NameOf(s'.catalog, p) == LastName(remote.folders, Visited(remote), p))
            && (forall p :: LastName(remote.folders, Visited(remote), p).None? ==> NameOf(s'.catalog, p) == NameOf(s.catalog, p))
  {
    var s' := RunResult(remote, stripTags, s);
    assert s' == FoldersResult(remote.folders, Visited(remote), stripTags, s);
    FoldersResultRows(remote.folders, Visited(remote), stripTags, s);
    assert forall i :: |s.messages.rows| <= i < |s'.messages.rows| ==>
             RecordFromSome(s'.messages.rows[i], remote.folders, Visited(remote), s'.catalog, stripTags);
    assert forall i :: |s.attachments.rows| <= i < |s'.attachments.rows| ==>
             AttachmentFromSome(s'.attachments.rows[i], remote.folders, Visited(remote), s');
    FoldersResultNames(remote.folders, Visited(remote), stripTags, s);
  }

  // ---------------------------------------------------------------------
  // The run

  /** The attachment loop of one saved message (row id `messageId`): each
      attachment gets a row unless one exists for (messageId, part number).
      `faultAt` is the attachment whose processing throws, if any; the result
      says whether it threw. */
  method ProcessAttachments(messageId: int, list: seq<RemoteAttachment>, faultAt: Option<nat>, atts: AttachmentTable)
    returns (threw: bool)
    requires atts.Valid()
    modifies atts
    ensures atts.Valid()
    ensures threw <==> faultAt.Some? && faultAt.value < |list|
    ensures threw ==> atts.Value() == AttachmentsAfter(messageId, list, faultAt.value, old(atts.Value()))
    ensures !threw ==> atts.Value() == AttachmentsAfter(messageId, list, |list|, old(atts.Value()))
    ensures RowsExtend(old(atts.rows), atts.rows)
    ensures forall i :: |old(atts.rows)| <= i < |atts.rows| ==>
              atts.rows[i].id == old(atts.nextId) + (i - |old(atts.rows)|)
              && atts.rows[i].messageId == messageId && MetadataOf(atts.rows[i]) in list
    ensures forall k :: 0 <= k < |list| && (faultAt.None? || k < faultAt.value) ==>
              HasAttachmentRow(atts.rows, messageId, list[k].partNumber)
    ensures NoDuplicateAttachments(old(atts.rows)) ==> NoDuplicateAttachments(atts.rows)
    ensures (forall k :: 0 <= k < |list| && (faultAt.None? || k < faultAt.value) ==>
               HasAttachmentRow(old(atts.rows), messageId, list[k].partNumber)) ==>
              atts.Value() == old(atts.Value())
  {
    ghost var a0 := atts.Value();
    var k := 0;
    while k < |list|
      invariant 0 <= k <= |list|
      invariant faultAt.Some? ==> k <= faultAt.value
      invariant atts.Valid()
      invariant atts.Value() == AttachmentsAfter(messageId, list, k, a0)
    {
      if faultAt == Some(k) {
        AttachmentsAfterRows(messageId, list, k, a0);
        AttachmentsAfterFacts(messageId, list, k, a0);
        return true;
      }
      var a := list[k];
      var present := atts.Exists(messageId, a.partNumber);
      if !present {
        atts.Insert(messageId, a);
      }
      k := k + 1;
    }
    AttachmentsAfterRows(messageId, list, |list|, a0);
    AttachmentsAfterFacts(messageId, list, |list|, a0);
    return false;
  }

  /** The body of the per-message try block for one message of the folder
      with id `fid`. The result is whether it threw (the caller swallows it). */
  method ProcessMessage(m: RemoteMessage, fid: int, stripTags: string -> string,
                        store: MR.MessageTable, atts: AttachmentTable)
    returns (threw: bool)
    requires MR.Consistent(store.Value()) && atts.Valid()
    modifies store, atts
    ensures MR.Consistent(store.Value()) && atts.Valid()
    ensures threw <==> !m.fault.NoFault? && !(m.fault.AttachmentFault? && m.fault.index >= |m.attachments|)
    ensures (store.Value(), atts.Value()) == MessageResult(m, fid, stripTags, old(store.Value()), old(atts.Value()))
    ensures TableExtends(old(store.Value()), store.Value()) && RowsExtend(old(atts.rows), atts.rows)
    ensures MessageRecorded(m, fid, store.Value(), atts.rows)
    ensures NoDuplicateAttachments(old(atts.rows)) ==> NoDuplicateAttachments(atts.rows)
    ensures MessageRecorded(m, fid, old(store.Value()), old(atts.rows)) ==>
              store.Value() == old(store.Value()) && atts.Value() == old(atts.Value())
  {
    MessageResultFacts(m, fid, stripTags, store.Value(), atts.Value());
    if m.fault.ReadFault? {
      return true;
    }
    var dto := ToDto(m, fid, stripTags);
    var dbFailure := if m.fault.StorageFault? then Some(m.fault.message) else None;
    var saved := store.SaveAndReturnId(dto, dbFailure);
    if saved.Failure? {
      return true;
    }
    var faultAt := if m.fault.AttachmentFault? then Some(m.fault.index) else None;
    threw := ProcessAttachments(saved.value, m.attachments, faultAt, atts);
  }

  /** The message loop of one folder with id `fid`: every message is
      processed and an exception in one does not stop the next. */
  method ProcessFolder(messages: seq<RemoteMessage>, fid: int, stripTags: string -> string,
                       store: MR.MessageTable, atts: AttachmentTable)
    requires MR.Consistent(store.Value()) && atts.Valid()
    modifies store, atts
    ensures MR.Consistent(store.Value()) && atts.Valid()
    ensures (store.Value(), atts.Value()) ==
              MessagesResult(messages, |messages|, fid, stripTags, old(store.Value()), old(atts.Value()))
    ensures TableExtends(old(store.Value()), store.Value()) && RowsExtend(old(atts.rows), atts.rows)
    ensures MessagesRecorded(messages, |messages|, fid, store.Value(), atts.rows)
    ensures NoDuplicateAttachments(old(atts.rows)) ==> NoDuplicateAttachments(atts.rows)
    ensures MessagesRecorded(messages, |messages|, fid, old(store.Value()), old(atts.rows)) ==>
              store.Value() == old(store.Value()) && atts.Value() == old(atts.Value())
  {
    ghost var t0, a0 := store.Value(), atts.Value();
    MessagesResultFacts(messages, |messages|, fid, stripTags, t0, a0);
    var j := 0;
    while j < |messages|
      invariant 0 <= j <= |messages|
      invariant MR.Consistent(store.Value()) && atts.Valid()
      invariant (store.Value(), atts.Value()) == MessagesResult(messages, j, fid, stripTags, t0, a0)
    {
      var _ := ProcessMessage(messages[j], fid, stripTags, store, atts);
      j := j + 1;
    }
  }

  /** One pass of the folder loop: the folder is looked up or created, then
      its messages are listed and processed. The result is false when
      listing them throws. */
  method SyncFolder(rf: RemoteFolder, stripTags: string -> string,
                    catalog: FR.FolderTable, store: MR.MessageTable, atts: AttachmentTable)
    returns (listed: bool)
    requires FR.Consistent(catalog.Value()) && MR.Consistent(store.Value()) && atts.Valid()
    modifies catalog, store, atts
    ensures FR.Consistent(catalog.Value()) && MR.Consistent(store.Value()) && atts.Valid()
    ensures listed <==> rf.messages.Some?
    ensures TablesOf(catalog, store, atts) == FolderResult(rf, stripTags, old(TablesOf(catalog, store, atts)))
    ensures Extends(old(TablesOf(catalog, store, atts)), TablesOf(catalog, store, atts))
    ensures FolderIdOf(catalog.Value(), rf.path).Some? && NameOf(catalog.Value(), rf.path) == Some(rf.name)
    ensures FolderRecorded(rf, TablesOf(catalog, store, atts))
    ensures NoDuplicateAttachments(old(atts.rows)) ==> NoDuplicateAttachments(atts.rows)
    ensures FolderRecorded(rf, old(TablesOf(catalog, store, atts))) ==>
              && store.Value() == old(store.Value()) && atts.Value() == old(atts.Value())
              && |catalog.folders| == old(|catalog.folders|)
  {
    FolderResultFacts(rf, stripTags, TablesOf(catalog, store, atts));
    CatalogNames(catalog.Value(), rf.path, rf.name, rf.delimiter);
    var dbFolder := catalog.GetOrCreate(rf.path, rf.name, rf.delimiter);
    if rf.messages.None? {
      return false;
    }
    ProcessFolder(rf.messages.value, dbFolder.id, stripTags, store, atts);
    return true;
  }

  /** `trace` lists the tables before the folder loop and after each of its
      passes, over the folders `fs`. */
  ghost predicate FoldTrace(fs: seq<RemoteFolder>, stripTags: string -> string, trace: seq<Tables>)
  {
    && 0 < |trace| <= |fs| + 1
    && forall k :: 0 <= k < |trace| - 1 ==> trace[k + 1] == FolderResult(fs[k], stripTags, trace[k])
  }

  /** A trace grows by the tables of the next pass. */
  lemma FoldTraceExtend(fs: seq<RemoteFolder>, stripTags: string -> string, trace: seq<Tables>, next: Tables)
    requires FoldTrace(fs, stripTags, trace) && |trace| <= |fs|
    requires next == FolderResult(fs[|trace| - 1], stripTags, trace[|trace| - 1])
    ensures FoldTrace(fs, stripTags, trace + [next])
  {
  }

  /** The last tables of a trace are the fold over the folders it covers. */
  lemma {:induction false} FoldTraceResult(fs: seq<RemoteFolder>, stripTags: string -> string, trace: seq<Tables>)
    requires FoldTrace(fs, stripTags, trace)
    ensures trace[|trace| - 1] == FoldersResult(fs, |trace| - 1, stripTags, trace[0])
    decreases |trace|
  {
    if |trace| > 1 {
      var shorter := trace[..|trace| - 1];
      assert FoldTrace(fs, stripTags, shorter);
      FoldTraceResult(fs, stripTags, shorter);
    }
  }

  /** The body of the folder loop: SyncFolder on the `i`-th folder, stated
      as the pass that extends the loop's `trace` by the tables it leaves. */
  method SyncNext(folders: seq<RemoteFolder>, i: nat, ghost trace: seq<Tables>, stripTags: string -> string,
                  catalog: FR.FolderTable, store: MR.MessageTable, atts: AttachmentTable)
    returns (listed: bool)
    requires i < |folders| && |trace| == i + 1 && trace[i] == TablesOf(catalog, store, atts)
    requires FoldTrace(folders, stripTags, trace) && RecordingTrace(folders, trace)
    requires FR.Consistent(catalog.Value()) && MR.Consistent(store.Value()) && atts.Valid()
    modifies catalog, store, atts
    ensures FR.Consistent(catalog.Value()) && MR.Consistent(store.Value()) && atts.Valid()
    ensures listed <==> folders[i].messages.Some?
    ensures FoldTrace(folders, stripTags, trace + [TablesOf(catalog, store, atts)])
    ensures RecordingTrace(folders, trace + [TablesOf(catalog, store, atts)])
  {
    listed := SyncFolder(folders[i], stripTags, catalog, store, atts);
    FoldTraceExtend(folders, stripTags, trace, TablesOf(catalog, store, atts));
    RecordingTraceExtend(folders, trace, TablesOf(catalog, store, atts));
  }

  /** The folder loop of a connected run. It stops at the first folder whose
      messages cannot be listed, and returns that folder's position. */
  method SyncFolders(folders: seq<RemoteFolder>, stripTags: string -> string,
                     catalog: FR.FolderTable, store: MR.MessageTable, atts: AttachmentTable)
    returns (failedAt: Option<nat>)
    requires FR.Consistent(catalog.Value()) && MR.Consistent(store.Value()) && atts.Valid()
    modifies catalog, store, atts
    ensures FR.Consistent(catalog.Value()) && MR.Consistent(store.Value()) && atts.Valid()
    ensures failedAt == FirstUnlistable(folders)
    ensures TablesOf(catalog, store, atts) ==
              FoldersResult(folders, FoldersVisited(folders), stripTags, old(TablesOf(catalog, store, atts)))
    ensures Extends(old(TablesOf(catalog, store, atts)), TablesOf(catalog, store, atts))
    ensures RecordedAfter(folders, FoldersVisited(folders), old(TablesOf(catalog, store, atts)), TablesOf(catalog, store, atts))
  {
    ghost var start := TablesOf(catalog, store, atts);
    ghost var trace := [start];
    failedAt := None;
    var i := 0;
    while i < |folders| && failedAt.None?
      invariant 0 <= i <= |folders| && LoopPosition(folders, i, failedAt)
      invariant FR.Consistent(catalog.Value()) && MR.Consistent(store.Value()) && atts.Valid()
      invariant |trace| == i + 1 && FoldTrace(folders, stripTags, trace) && RecordingTrace(folders, trace)
      invariant trace[0] == start && trace[i] == TablesOf(catalog, store, atts)
    {
      var listed := SyncNext(folders, i, trace, stripTags, catalog, store, atts);
      trace := trace + [TablesOf(catalog, store, atts)];
      LoopPositionStep(folders, i, listed);
      if !listed {
        failedAt := Some(i);
      }
      i := i + 1;
    }
    LoopEnd(folders, stripTags, trace, i, failedAt);
  }

  /** Where the folder loop stops, its trace ends at the fold over the
      visited folders, and every visited folder is recorded. */
  lemma LoopEnd(folders: seq<RemoteFolder>, stripTags: string -> string, trace: seq<Tables>, i: nat, failedAt: Option<nat>)
    requires i <= |folders| && LoopPosition(folders, i, failedAt) && (failedAt.None? ==> i == |folders|)
    requires |trace| == i + 1 && FoldTrace(folders, stripTags, trace) && RecordingTrace(folders, trace)
    ensures failedAt == FirstUnlistable(folders) && i == FoldersVisited(folders)
    ensures trace[i] == FoldersResult(folders, i, stripTags, trace[0])
    ensures Extends(trace[0], trace[i]) && RecordedAfter(folders, i, trace[0], trace[i])
  {
    VisitedCount(folders, i, failedAt);
    FoldTraceResult(folders, stripTags, trace);
    TraceRecorded(folders, trace, i);
  }

  /** ImapSynchronizer::sync. `disconnected` says whether the client was
      disconnected at the end. */
  method Sync(remote: Remote, stripTags: string -> string,
              catalog: FR.FolderTable, store: MR.MessageTable, atts: AttachmentTable)
    returns (outcome: SyncOutcome, disconnected: bool)
    requires FR.Consistent(catalog.Value()) && MR.Consistent(store.Value()) && atts.Valid()
    modifies catalog, store, atts
    ensures FR.Consistent(catalog.Value()) && MR.Consistent(store.Value()) && atts.Valid()
    ensures outcome == ExpectedOutcome(remote) && (disconnected <==> outcome.Completed?)
    ensures TablesOf(catalog, store, atts) == RunResult(remote, stripTags, old(TablesOf(catalog, store, atts)))
    ensures Extends(old(TablesOf(catalog, store, atts)), TablesOf(catalog, store, atts))
    ensures Recorded(remote, TablesOf(catalog, store, atts))
    ensures NoDuplicateAttachments(old(atts.rows)) ==> NoDuplicateAttachments(atts.rows)
    ensures Recorded(remote, old(TablesOf(catalog, store, atts))) ==>
              && store.Value() == old(store.Value()) && atts.Value() == old(atts.Value())
              && |catalog.folders| == old(|catalog.folders|)
  {
    FoldersResultGrows(remote.folders, Visited(remote), stripTags, TablesOf(catalog, store, atts));
    if !remote.connects {
      return ConnectionFailed, false;
    }
    var failedAt := SyncFolders(remote.folders, stripTags, catalog, store, atts);
    if failedAt.Some? {
      return ListingFailed(failedAt.value, remote.folders[failedAt.value].path), false;
    }
    return Completed, true;
  }

  /** Running sync a second time against the same remote adds no folder, no
      message row and no attachment row, however the first run ended: the
      faults are part of the remote, so the second run fails where the first
      did and everything before that is already recorded. The results are
      the table sizes after the first run. */
  method SyncTwice(remote: Remote, stripTags: string -> string,
                   catalog: FR.FolderTable, store: MR.MessageTable, atts: AttachmentTable)
    returns (foldersAfterFirst: nat, rowsAfterFirst: nat, attachmentsAfterFirst: nat)
    requires FR.Consistent(catalog.Value()) && MR.Consistent(store.Value()) && atts.Valid()
    modifies catalog, store, atts
    ensures |catalog.folders| == foldersAfterFirst
    ensures |store.rows| == rowsAfterFirst && |atts.rows| == attachmentsAfterFirst
  {
    var _, _ := Sync(remote, stripTags, catalog, store, atts);
    foldersAfterFirst, rowsAfterFirst, attachmentsAfterFirst := |catalog.folders|, |store.rows|, |atts.rows|;
    var _, _ := Sync(remote, stripTags, catalog, store, atts);
  }

  // ---------------------------------------------------------------------
  // Where the folder loop stops

  /** The messages of the first `n` folders can be listed. */
  ghost predicate AllListable(fs: seq<RemoteFolder>, n: nat)
    requires n <= |fs|
  {
    n == 0 || (AllListable(fs, n - 1) && fs[n - 1].messages.Some?)
  }

  lemma {:induction false} AllListableAt(fs: seq<RemoteFolder>, n: nat)
    requires n <= |fs|
    ensures AllListable(fs, n) <==> forall k :: 0 <= k < n ==> fs[k].messages.Some?
    decreases n
  {
    if n > 0 {
      AllListableAt(fs, n - 1);
    }
  }

  /** The folder loop has passed `i` folders: all of them listable while
      `failedAt` is None, else the last one was not and is `failedAt`. */
  ghost predicate LoopPosition(fs: seq<RemoteFolder>, i: nat, failedAt: Option<nat>)
    requires i <= |fs|
  {
    if failedAt.None? then AllListable(fs, i)
    else 0 < i && failedAt == Some(i - 1) && fs[i - 1].messages.None? && AllListable(fs, i - 1)
  }

  /** One more pass of the folder loop, stopping it when the folder is not listable. */
  lemma LoopPositionStep(fs: seq<RemoteFolder>, i: nat, listed: bool)
    requires i < |fs| && LoopPosition(fs, i, None) && (listed <==> fs[i].messages.Some?)
    ensures LoopPosition(fs, i + 1, if listed then None else Some(i))
  {
  }

  /** Where the folder loop stops is the number of folders the run visits. */
  lemma VisitedCount(fs: seq<RemoteFolder>, i: nat, failedAt: Option<nat>)
    requires i <= |fs| && LoopPosition(fs, i, failedAt)
    requires failedAt.None? ==> i == |fs|
    ensures i == FoldersVisited(fs) && failedAt == FirstUnlistable(fs)
  {
    if failedAt.None? {
      NoUnlistable(fs);
    } else {
      FirstUnlistableAt(fs, i - 1);
    }
  }

  lemma FirstUnlistableAt(fs: seq<RemoteFolder>, i: nat)
    requires i < |fs| && fs[i].messages.None? && AllListable(fs, i)
    ensures FirstUnlistable(fs) == Some(i)
  {
    AllListableAt(fs, i);
  }

  lemma NoUnlistable(fs: seq<RemoteFolder>)
    requires AllListable(fs, |fs|)
    ensures FirstUnlistable(fs) == None
  {
    AllListableAt(fs, |fs|);
  }
}
