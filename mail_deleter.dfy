/** Deleting a message from the mirror and from the server: the message is
    moved to the account's trash folder, or flagged deleted when there is no
    trash folder or it already lies there, and its local row is removed. */
module MailDeleter {
  import opened Common
  import MR = MessageRepository
  import FR = FolderRepository
  import opened ImapClient

  /** The known names of a trash folder, in English, Polish, German, French
      and Portuguese (UTF-8 bytes). */
  const TrashNames: seq<string> := [
    "Trash", "Bin", "Kosz", "Elementy usuni\U{C4}\U{99}te", "Deleted Items", "Deleted",
    "Papierkorb", "Corbeille", "Itens Exclu\U{C3}\U{AD}dos"]

  /** findTrashFolder: by name first, then any folder whose name contains
      "trash" or "bin". */
  function TrashFolder(fs: seq<ImapFolder>): Option<ImapFolder>
  {
    SpecialFolder(fs, TrashNames, "trash", "bin")
  }

  /** What a delete request does: how it ends, the requests it sends to the
      server, and whether the local row goes. */
  datatype Effect = Effect(outcome: Outcome<Abort>, ops: seq<Op>, removeLocal: bool)

  /** The path of the message's folder row; a missing row has a null path. */
  function FolderPath(folders: seq<FR.Folder>, folderId: int): Option<string>
  {
    match FR.FolderWithId(folders, folderId)
    case Some(f) => Some(f.path)
    case None => None
  }

  /** The request that takes a message off the server once its folder is
      found: move to a trash folder other than its own, else set the deleted
      flag; the folder has no such message when the uid is absent. The uid
      lookup and the listing the trash search makes may throw first. */
  function Removal(s: ServerState, p: string, uid: int): (r: Effect)
    ensures r.removeLocal <==> r.outcome.Pass?
    ensures |r.ops| <= 1
    ensures r.ops != [] ==>
              || (r.ops[0].MovedMessage? && r.ops == [MovedMessage(p, uid, r.ops[0].target)])
              || r.ops == [MarkedDeleted(p, uid)]
    ensures r.ops != [] && r.ops[0].MovedMessage? ==> r.ops[0].target != p
    ensures r.outcome.Fail? ==> r.outcome.error.Thrown? && IsPrefix("IMAP Error: ", r.outcome.error.message)
  {
    if s.lookupError.Some? then Effect(Fail(Thrown(ImapError(s.lookupError.value))), [], false)
    else if !HasUid(s, p, uid) then Effect(Pass, [], true)
    else if s.listError.Some? then Effect(Fail(Thrown(ImapError(s.listError.value))), [], false)
    else
      var trash := TrashFolder(s.listing);
      if trash.Some? && trash.value.path != p then
        match s.moveReply
        case Moved => Effect(Pass, [MovedMessage(p, uid, trash.value.path)], true)
        case Refused => Effect(Pass, [], true)
        case MoveThrows(m) => Effect(Fail(Thrown(ImapError(m))), [], false)
      else
        match s.deleteError
        case Some(m) => Effect(Fail(Thrown(ImapError(m))), [], false)
        case None => Effect(Pass, [MarkedDeleted(p, uid)], true)
  }

  /** The part inside the try block, given the source path and the uid: its
      outcome after the catch, the requests, and whether the row goes. The
      listing comes first, so its exception wins over a null path. */
  function OnServer(s: ServerState, path: Option<string>, uid: int): (r: Effect)
    ensures r.removeLocal <==> r.outcome.Pass?
    ensures |r.ops| <= 1
    ensures r.ops != [] && r.ops[0].MovedMessage? ==> r.ops[0].target != r.ops[0].path
    ensures r.outcome.Fail? && r.outcome.error.Thrown? ==> IsPrefix("IMAP Error: ", r.outcome.error.message)
    ensures (r.outcome.Fail? && r.outcome.error.Fatal?) <==> path.None? && s.listError.None?
  {
    if s.listError.Some? then Effect(Fail(Thrown(ImapError(s.listError.value))), [], false)
    else
      match path
      case None =>
        // the listing holds no null path, and getFolder refuses a null argument
        Effect(Fail(Fatal(NullPathError)), [], false)
      case Some(p) =>
        if ListedWithPath(s.listing, p).None? && DirectFolder(s, p).None? then
          Effect(Fail(Thrown(ImapError("Folder not found on server."))), [], false)
        else Removal(s, p, uid)
  }

  const NullPathError := "getFolder(): Argument #1 must be of type string, null given"

  /** delete(messageId) on the state it starts from. */
  function DeleteEffect(rows: seq<MR.Row>, folders: seq<FR.Folder>, s: ServerState, messageId: int): Effect
  {
    match MR.RowWithId(rows, messageId)
    case None => Effect(Fail(Thrown("Message not found.")), [], false)
    case Some(row) =>
      if s.connectError.Some? then Effect(Fail(Thrown(s.connectError.value)), [], false)
      else
        var e := OnServer(s, FolderPath(folders, row.folderId), row.uid);
        Effect(e.outcome, [Connected] + e.ops + [Disconnected], e.removeLocal)
  }

  /** delete(messageId). */
  method Delete(messageId: int, messages: MR.MessageTable, folders: FR.FolderTable, client: Client)
    returns (r: Outcome<Abort>)
    requires MR.Consistent(messages.Value())
    modifies messages, client
    ensures MR.Consistent(messages.Value())
    ensures var e := DeleteEffect(old(messages.rows), folders.folders, client.server, messageId);
            && r == e.outcome
            && client.log == old(client.log) + e.ops
            && messages.nextId == old(messages.nextId)
            && messages.rows == (if e.removeLocal then MR.WithoutId(old(messages.rows), messageId)
                                 else old(messages.rows))
  {
    var row := messages.Load(messageId);
    if row.None? {
      r := Fail(Thrown("Message not found."));
    } else {
      var folder := folders.FindById(row.value.folderId);
      var path: Option<string> := if folder.Some? then Some(folder.value.path) else None;
      var connected := client.Connect();
      if connected.Fail? {
        r := Fail(Thrown(connected.error));
      } else {
        DeleteEffectConnected(old(messages.rows), folders.folders, client.server, messageId, path, row.value.uid);
        ghost var logConnected := client.log;
        r := DeleteOnServer(messageId, path, row.value.uid, messages, client);
        ghost var sent := client.log[|logConnected|..];
        client.Disconnect();
        LogAppended(old(client.log), sent, client.log);
      }
    }
  }

  /** The effect of a delete whose row is found and whose connect succeeds,
      in terms of the try block's. */
  lemma DeleteEffectConnected(rows: seq<MR.Row>, folders: seq<FR.Folder>, s: ServerState, messageId: int,
                              path: Option<string>, uid: int)
    requires MR.RowWithId(rows, messageId).Some? && s.connectError.None?
    requires path == FolderPath(folders, MR.RowWithId(rows, messageId).value.folderId)
    requires uid == MR.RowWithId(rows, messageId).value.uid
    ensures DeleteEffect(rows, folders, s, messageId) ==
            Effect(OnServer(s, path, uid).outcome, [Connected] + OnServer(s, path, uid).ops + [Disconnected],
                   OnServer(s, path, uid).removeLocal)
  {
  }

  /** The try block with its catch, between connect and disconnect. */
  method DeleteOnServer(messageId: int, path: Option<string>, uid: int, messages: MR.MessageTable, client: Client)
    returns (r: Outcome<Abort>)
    requires MR.Consistent(messages.Value())
    modifies messages, client
    ensures MR.Consistent(messages.Value())
    ensures var e := OnServer(client.server, path, uid);
            && r == e.outcome
            && client.log == old(client.log) + e.ops
            && messages.nextId == old(messages.nextId)
            && messages.rows == (if e.removeLocal then MR.WithoutId(old(messages.rows), messageId)
                                 else old(messages.rows))
  {
    var listing := client.GetFolders();
    if listing.Failure? {
      return Fail(Thrown(ImapError(listing.error)));
    }
    if path.None? {
      return Fail(Fatal(NullPathError));
    }
    var p := path.value;
    var source := FindListed(listing.value, p);
    if source.None? {
      var direct := client.GetFolder(p);
      if direct.Failure? {
        return Fail(Thrown(ImapError("Folder not found on server.")));
      }
    }
    r := RemoveFromServer(p, uid, client);
    if r.Pass? {
      messages.Delete(messageId);
    }
  }

  /** The message lookup and the move or delete request. */
  method RemoveFromServer(p: string, uid: int, client: Client) returns (r: Outcome<Abort>)
    modifies client
    ensures var e := Removal(client.server, p, uid);
            r == e.outcome && client.log == old(client.log) + e.ops && (e.removeLocal <==> r.Pass?)
  {
    var present := client.HasMessage(p, uid);
    if present.Failure? {
      return Fail(Thrown(ImapError(present.error)));
    }
    if !present.value {
      return Pass;
    }
    var all := client.GetFolders();
    if all.Failure? {
      return Fail(Thrown(ImapError(all.error)));
    }
    var trash := FindSpecialFolder(all.value, TrashNames, "trash", "bin");
    if trash.Some? && trash.value.path != p {
      var moved := client.Move(p, uid, trash.value.path);
      if moved.Failure? {
        return Fail(Thrown(ImapError(moved.error)));
      }
    } else {
      var deleted := client.MarkDeleted(p, uid);
      if deleted.Fail? {
        return Fail(Thrown(ImapError(deleted.error)));
      }
    }
    return Pass;
  }

  // ---------------------------------------------------------------------
  // Properties

  /** An unknown message id fails before anything is sent to the server, and
      nothing changes. */
  lemma UnknownMessageTouchesNothing(rows: seq<MR.Row>, folders: seq<FR.Folder>, s: ServerState, messageId: int)
    requires MR.RowWithId(rows, messageId).None?
    ensures DeleteEffect(rows, folders, s, messageId) == Effect(Fail(Thrown("Message not found.")), [], false)
  {
  }

  /** The local row is removed exactly when the request succeeds. */
  lemma RemovedIffSucceeded(rows: seq<MR.Row>, folders: seq<FR.Folder>, s: ServerState, messageId: int)
    ensures DeleteEffect(rows, folders, s, messageId).removeLocal <==>
            DeleteEffect(rows, folders, s, messageId).outcome.Pass?
  {
  }

  /** A connection that was opened is closed, whatever happens after it, and
      nothing is sent when the connect fails. */
  lemma ConnectionClosed(rows: seq<MR.Row>, folders: seq<FR.Folder>, s: ServerState, messageId: int)
    ensures var e := DeleteEffect(rows, folders, s, messageId);
            && (e.ops == [] <==> MR.RowWithId(rows, messageId).None? || s.connectError.Some?)
            && (e.ops != [] ==> 2 <= |e.ops| <= 3 && e.ops[0] == Connected && e.ops[|e.ops| - 1] == Disconnected)
  {
  }

  /** A message is never moved into the folder it is in: when the trash is
      the message's own folder, it is flagged deleted instead. */
  lemma NeverMovedIntoItsOwnFolder(rows: seq<MR.Row>, folders: seq<FR.Folder>, s: ServerState, messageId: int,
                                   k: nat)
    requires k < |DeleteEffect(rows, folders, s, messageId).ops|
    requires DeleteEffect(rows, folders, s, messageId).ops[k].MovedMessage?
    ensures DeleteEffect(rows, folders, s, messageId).ops[k].path != DeleteEffect(rows, folders, s, messageId).ops[k].target
  {
    var e := DeleteEffect(rows, folders, s, messageId);
    var row := MR.RowWithId(rows, messageId).value;
    var inner := OnServer(s, FolderPath(folders, row.folderId), row.uid);
    assert e.ops == [Connected] + inner.ops + [Disconnected];
    assert k == 1 && e.ops[k] == inner.ops[0];
  }

  /** The server request chosen for a message that is on the server: a move
      to the trash when a trash folder other than its own exists, otherwise
      the deleted flag; the uid and path are those of the local row. */
  lemma TrashOrFlag(rows: seq<MR.Row>, folders: seq<FR.Folder>, s: ServerState, messageId: int)
    requires MR.RowWithId(rows, messageId).Some?
    requires s.connectError.None? && s.listError.None? && s.lookupError.None?
    requires var row := MR.RowWithId(rows, messageId).value;
             && FolderPath(folders, row.folderId).Some?
             && var p := FolderPath(folders, row.folderId).value;
                && (ListedWithPath(s.listing, p).Some? || DirectFolder(s, p).Some?)
                && HasUid(s, p, row.uid)
    ensures var row := MR.RowWithId(rows, messageId).value;
            var p := FolderPath(folders, row.folderId).value;
            var t := TrashFolder(s.listing);
            var e := DeleteEffect(rows, folders, s, messageId);
            && (t.Some? && t.value.path != p && s.moveReply.Moved? ==>
                  e == Effect(Pass, [Connected, MovedMessage(p, row.uid, t.value.path), Disconnected], true))
            && ((t.None? || t.value.path == p) && s.deleteError.None? ==>
                  e == Effect(Pass, [Connected, MarkedDeleted(p, row.uid), Disconnected], true))
  {
    var row := MR.RowWithId(rows, messageId).value;
    var p := FolderPath(folders, row.folderId).value;
    assert OnServer(s, Some(p), row.uid) == Removal(s, p, row.uid);
  }

  /** A message the server no longer has is only removed locally. */
  lemma GoneFromServerRemovedLocally(rows: seq<MR.Row>, folders: seq<FR.Folder>, s: ServerState, messageId: int)
    requires MR.RowWithId(rows, messageId).Some?
    requires s.connectError.None? && s.listError.None? && s.lookupError.None?
    requires var row := MR.RowWithId(rows, messageId).value;
             && FolderPath(folders, row.folderId).Some?
             && var p := FolderPath(folders, row.folderId).value;
                && ListedWithPath(s.listing, p).Some? && !HasUid(s, p, row.uid)
    ensures DeleteEffect(rows, folders, s, messageId) == Effect(Pass, [Connected, Disconnected], true)
  {
  }

  /** Once connected, every exception leaves with the "IMAP Error: " prefix;
      the engine error on a missing folder row is not caught. */
  lemma ServerErrorsWrapped(rows: seq<MR.Row>, folders: seq<FR.Folder>, s: ServerState, messageId: int)
    requires MR.RowWithId(rows, messageId).Some? && s.connectError.None?
    ensures var e := DeleteEffect(rows, folders, s, messageId);
            e.outcome.Fail? && e.outcome.error.Thrown? ==> IsPrefix("IMAP Error: ", e.outcome.error.message)
    ensures var row := MR.RowWithId(rows, messageId).value;
            var e := DeleteEffect(rows, folders, s, messageId);
            (e.outcome.Fail? && e.outcome.error.Fatal?) <==> FolderPath(folders, row.folderId).None? && s.listError.None?
  {
  }

  /** A folder listing or a uid lookup that throws is caught, reported with
      the prefix, and keeps the row; the connection is still closed. */
  lemma QueryFailuresCaught(rows: seq<MR.Row>, folders: seq<FR.Folder>, s: ServerState, messageId: int)
    requires MR.RowWithId(rows, messageId).Some? && s.connectError.None?
    ensures s.listError.Some? ==>
              DeleteEffect(rows, folders, s, messageId) ==
              Effect(Fail(Thrown(ImapError(s.listError.value))), [Connected, Disconnected], false)
    ensures var row := MR.RowWithId(rows, messageId).value;
            var path := FolderPath(folders, row.folderId);
            s.listError.None? && s.lookupError.Some? && path.Some? &&
            (ListedWithPath(s.listing, path.value).Some? || DirectFolder(s, path.value).Some?) ==>
              DeleteEffect(rows, folders, s, messageId) ==
              Effect(Fail(Thrown(ImapError(s.lookupError.value))), [Connected, Disconnected], false)
  {
  }
}
