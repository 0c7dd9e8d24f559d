/** Moving a message to another folder: the server moves it, and the local
    row is removed so that the next synchronisation records the message again
    under the target folder (the server assigns it a new uid there). */
module MailMover {
  import opened Common
  import MR = MessageRepository
  import FR = FolderRepository
  import opened ImapClient

  /** What a move request does: how it ends, the requests it sends to the
      server, and whether the local row goes. */
  datatype Effect = Effect(outcome: Outcome<Abort>, ops: seq<Op>, removeLocal: bool)

  /** The path of a folder row; a missing row has a null path. */
  function FolderPath(folders: seq<FR.Folder>, folderId: int): (r: Option<string>)
    ensures r.Some? <==> FR.FolderWithId(folders, folderId).Some?
  {
    match FR.FolderWithId(folders, folderId)
    case Some(f) => Some(f.path)
    case None => None
  }

  /** The try block and its catch, given the source path, the uid and the
      target path. The listing and the uid lookup may throw. The source
      folder must be in the listing: there is no direct fetch, and a null
      path matches no listed folder. */
  function OnServer(s: ServerState, source: Option<string>, uid: int, target: string): (r: Effect)
    ensures r.removeLocal <==> r.outcome.Pass?
    ensures r.outcome.Fail? ==> r.outcome.error.Thrown? && IsPrefix("IMAP Error: ", r.outcome.error.message)
    ensures r.outcome.Pass? ==> source.Some? && r.ops == [MovedMessage(source.value, uid, target)]
    ensures r.outcome.Fail? ==> r.ops == []
  {
    if s.listError.Some? then Effect(Fail(Thrown(ImapError(s.listError.value))), [], false)
    else if source.None? || ListedWithPath(s.listing, source.value).None? then
      Effect(Fail(Thrown(ImapError("Source folder not found on server."))), [], false)
    else if s.lookupError.Some? then Effect(Fail(Thrown(ImapError(s.lookupError.value))), [], false)
    else if !HasUid(s, source.value, uid) then
      Effect(Fail(Thrown(ImapError("Message not found on server."))), [], false)
    else
      match s.moveReply
      case Moved => Effect(Pass, [MovedMessage(source.value, uid, target)], true)
      case Refused => Effect(Fail(Thrown(ImapError("Failed to move message on server."))), [], false)
      case MoveThrows(m) => Effect(Fail(Thrown(ImapError(m))), [], false)
  }

  /** move(messageId, targetFolderId) on the state it starts from. */
  function MoveEffect(rows: seq<MR.Row>, folders: seq<FR.Folder>, s: ServerState,
                      messageId: int, targetFolderId: int): Effect
  {
    match MR.RowWithId(rows, messageId)
    case None => Effect(Fail(Thrown("Message not found.")), [], false)
    case Some(row) =>
      match FR.FolderWithId(folders, targetFolderId)
      case None => Effect(Fail(Thrown("Target folder not found.")), [], false)
      case Some(t) =>
        if s.connectError.Some? then Effect(Fail(Thrown(s.connectError.value)), [], false)
        else
          var e := OnServer(s, FolderPath(folders, row.folderId), row.uid, t.path);
          Effect(e.outcome, [Connected] + e.ops + [Disconnected], e.removeLocal)
  }

  /** move(messageId, targetFolderId). */
  method Move(messageId: int, targetFolderId: int, messages: MR.MessageTable, folders: FR.FolderTable,
              client: Client)
    returns (r: Outcome<Abort>)
    requires MR.Consistent(messages.Value())
    modifies messages, client
    ensures MR.Consistent(messages.Value())
    ensures var e := MoveEffect(old(messages.rows), folders.folders, client.server, messageId, targetFolderId);
            && r == e.outcome
            && client.log == old(client.log) + e.ops
            && messages.nextId == old(messages.nextId)
            && messages.rows == (if e.removeLocal then MR.WithoutId(old(messages.rows), messageId)
                                 else old(messages.rows))
  {
    var row := messages.Load(messageId);
    if row.None? {
      r := Fail(Thrown("Message not found."));
    } else {
      var sourceFolder := folders.FindById(row.value.folderId);
      var source: Option<string> := if sourceFolder.Some? then Some(sourceFolder.value.path) else None;
      var targetFolder := folders.FindById(targetFolderId);
      if targetFolder.None? {
        r := Fail(Thrown("Target folder not found."));
      } else {
        var connected := client.Connect();
        if connected.Fail? {
          r := Fail(Thrown(connected.error));
        } else {
          ghost var logConnected := client.log;
          r := MoveOnServer(messageId, source, row.value.uid, targetFolder.value.path, messages, client);
          ghost var sent := client.log[|logConnected|..];
          client.Disconnect();
          LogAppended(old(client.log), sent, client.log);
        }
      }
    }
  }

  /** The try block with its catch, between connect and disconnect. */
  method MoveOnServer(messageId: int, source: Option<string>, uid: int, target: string,
                      messages: MR.MessageTable, client: Client)
    returns (r: Outcome<Abort>)
    requires MR.Consistent(messages.Value())
    modifies messages, client
    ensures MR.Consistent(messages.Value())
    ensures var e := OnServer(client.server, source, uid, target);
            && r == e.outcome
            && client.log == old(client.log) + e.ops
            && messages.nextId == old(messages.nextId)
            && messages.rows == (if e.removeLocal then MR.WithoutId(old(messages.rows), messageId)
                                 else old(messages.rows))
  {
    var listing := client.GetFolders();
    if listing.Failure? {
      return Fail(Thrown(ImapError(listing.error)));
    }
    var found: Option<ImapFolder> := None;
    if source.Some? {
      found := FindListed(listing.value, source.value);
    }
    if found.None? {
      return Fail(Thrown(ImapError("Source folder not found on server.")));
    }
    var p := source.value;
    var present := client.HasMessage(p, uid);
    if present.Failure? {
      return Fail(Thrown(ImapError(present.error)));
    }
    if !present.value {
      return Fail(Thrown(ImapError("Message not found on server.")));
    }
    var status := client.Move(p, uid, target);
    if status.Failure? {
      return Fail(Thrown(ImapError(status.error)));
    }
    if !status.value {
      return Fail(Thrown(ImapError("Failed to move message on server.")));
    }
    messages.Delete(messageId);
    return Pass;
  }

  // ---------------------------------------------------------------------
  // Properties

  /** An unknown message or target folder fails before anything is sent to
      the server, and nothing changes. */
  lemma LocalChecksFirst(rows: seq<MR.Row>, folders: seq<FR.Folder>, s: ServerState,
                         messageId: int, targetFolderId: int)
    requires MR.RowWithId(rows, messageId).None? || FR.FolderWithId(folders, targetFolderId).None?
    ensures var e := MoveEffect(rows, folders, s, messageId, targetFolderId);
            && e.ops == [] && !e.removeLocal
            && e.outcome == Fail(Thrown(if MR.RowWithId(rows, messageId).None? then "Message not found."
                                        else "Target folder not found."))
  {
  }

  /** The local row is removed exactly when the request succeeds, and then the
      server was asked to move exactly that message to the target folder's
      path, between connect and disconnect. */
  lemma MovedIffRemoved(rows: seq<MR.Row>, folders: seq<FR.Folder>, s: ServerState,
                        messageId: int, targetFolderId: int)
    ensures var e := MoveEffect(rows, folders, s, messageId, targetFolderId);
            && (e.removeLocal <==> e.outcome.Pass?)
            && (e.outcome.Pass? ==>
                  var row := MR.RowWithId(rows, messageId).value;
                  && FolderPath(folders, row.folderId).Some?
                  && e.ops == [Connected,
                               MovedMessage(FolderPath(folders, row.folderId).value, row.uid,
                                            FR.FolderWithId(folders, targetFolderId).value.path),
                               Disconnected])
  {
  }

  /** Once connected, every failure leaves with the "IMAP Error: " prefix and
      the connection is closed. */
  lemma ServerErrorsWrapped(rows: seq<MR.Row>, folders: seq<FR.Folder>, s: ServerState,
                            messageId: int, targetFolderId: int)
    requires MR.RowWithId(rows, messageId).Some? && FR.FolderWithId(folders, targetFolderId).Some?
    requires s.connectError.None?
    ensures var e := MoveEffect(rows, folders, s, messageId, targetFolderId);
            && (e.outcome.Fail? ==> e.outcome.error.Thrown? && IsPrefix("IMAP Error: ", e.outcome.error.message))
            && (e.outcome.Fail? ==> e.ops == [Connected, Disconnected])
  {
  }

  /** A source folder that a direct fetch would find but the listing lacks is
      still "not found": the mover, unlike the deleter, has no fallback. */
  lemma ListingOnly(s: ServerState, p: string, uid: int, target: string)
    requires s.listError.None? && ListedWithPath(s.listing, p).None? && DirectFolder(s, p).Some?
    ensures OnServer(s, Some(p), uid, target) ==
            Effect(Fail(Thrown(ImapError("Source folder not found on server."))), [], false)
  {
  }

  /** A refused move keeps the local row and reports the failure. */
  lemma RefusedMoveKeepsRow(s: ServerState, p: string, uid: int, target: string)
    requires s.listError.None? && s.lookupError.None?
    requires ListedWithPath(s.listing, p).Some? && HasUid(s, p, uid) && s.moveReply == Refused
    ensures OnServer(s, Some(p), uid, target) ==
            Effect(Fail(Thrown(ImapError("Failed to move message on server."))), [], false)
  {
  }

  /** A listing that throws stops the move before the source folder is
      searched; a uid lookup that throws stops it before the move. Both are
      reported with the prefix and keep the row. */
  lemma QueryFailuresCaught(s: ServerState, source: Option<string>, uid: int, target: string)
    ensures s.listError.Some? ==>
              OnServer(s, source, uid, target) == Effect(Fail(Thrown(ImapError(s.listError.value))), [], false)
    ensures s.listError.None? && source.Some? && ListedWithPath(s.listing, source.value).Some? &&
            s.lookupError.Some? ==>
              OnServer(s, source, uid, target) == Effect(Fail(Thrown(ImapError(s.lookupError.value))), [], false)
  {
  }
}
