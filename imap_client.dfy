/** The IMAP client the write-back services use, as far as they depend on
    it. The server side is a fixed value: the folder listing, the paths a
    direct folder fetch finds, the uids present in each folder, and how the
    server answers connect, the folder listing, the uid lookup, move, delete
    and append. An answer is fixed for the server: a listing that throws
    throws on every call. The client records every
    state-changing request it issued in `log`. */
module ImapClient {
  import opened Common

  /** A folder as the client lists it. */
  datatype ImapFolder = ImapFolder(path: string, name: string)

  /** How the server answers a move: it moves, it returns false, or it throws. */
  datatype MoveReply = Moved | Refused | MoveThrows(message: string)

  datatype ServerState = ServerState(
    listing: seq<ImapFolder>,
    directFolders: map<string, string>,
    mailbox: map<string, set<int>>,
    connectError: Option<string>,
    listError: Option<string>,
    lookupError: Option<string>,
    moveReply: MoveReply,
    deleteError: Option<string>,
    appendError: Option<string>)

  /** A request that changed something on the server or the connection. */
  datatype Op =
    | Connected
    | Disconnected
    | MovedMessage(path: string, uid: int, target: string)
    | MarkedDeleted(path: string, uid: int)
    | Appended(path: string, raw: string, flags: set<string>)

  /** The uid is present in the folder with the path. */
  predicate HasUid(s: ServerState, path: string, uid: int)
  {
    path in s.mailbox && uid in s.mailbox[path]
  }

  /** The folder a direct fetch by path returns, if the server has one. */
  function DirectFolder(s: ServerState, path: string): (r: Option<ImapFolder>)
    ensures r.Some? <==> path in s.directFolders
    ensures r.Some? ==> r.value.path == path
  {
    if path in s.directFolders then Some(ImapFolder(path, s.directFolders[path])) else None
  }

  /** The tests the services apply to the folders of a listing. */
  datatype Test =
    | PathIs(path: string)                      // strict path equality
    | NamedAs(names: seq<string>)               // name or path is a known name
    | LooksLike(word1: string, word2: string)   // name contains a word, ASCII case folded

  /** A folder passes a test. The name lists hold only non-numeric strings,
      so PHP's loose `in_array` comparison is plain equality on them; a null
      path matches no folder, so `PathIs` is only applied to a real path. */
  predicate Passes(t: Test, f: ImapFolder)
  {
    match t
    case PathIs(path) => f.path == path
    case NamedAs(names) => f.name in names || f.path in names
    case LooksLike(a, b) => ContainsCI(f.name, a) || ContainsCI(f.name, b)
  }

  /** The position of the first folder that passes `t`. */
  function FirstWhere(fs: seq<ImapFolder>, t: Test): (r: Option<nat>)
    ensures r.Some? ==> r.value < |fs| && Passes(t, fs[r.value])
    ensures r.Some? ==> forall j :: 0 <= j < r.value ==> !Passes(t, fs[j])
    ensures r.None? ==> forall j :: 0 <= j < |fs| ==> !Passes(t, fs[j])
  {
    if fs == [] then None
    else
      match FirstWhere(fs[..|fs| - 1], t)
      case Some(i) => Some(i)
      case None => if Passes(t, fs[|fs| - 1]) then Some(|fs| - 1) else None
  }

  /** A first match is the only candidate: any index that passes with no
      earlier match is it. */
  lemma FirstWhereUnique(fs: seq<ImapFolder>, t: Test, i: nat)
    requires i < |fs| && Passes(t, fs[i]) && forall j :: 0 <= j < i ==> !Passes(t, fs[j])
    ensures FirstWhere(fs, t) == Some(i)
  {
  }

  /** The first listed folder whose path is `path`, if any. */
  function ListedWithPath(fs: seq<ImapFolder>, path: string): (r: Option<ImapFolder>)
    ensures r.Some? ==> r.value in fs && r.value.path == path
    ensures r.None? ==> forall j :: 0 <= j < |fs| ==> fs[j].path != path
  {
    match FirstWhere(fs, PathIs(path))
    case Some(i) => Some(fs[i])
    case None => None
  }

  /** The loop over the listing that stops at the first folder with the path. */
  method FindListed(fs: seq<ImapFolder>, path: string) returns (r: Option<ImapFolder>)
    ensures r == ListedWithPath(fs, path)
  {
    var i := 0;
    while i < |fs|
      invariant 0 <= i <= |fs|
      invariant forall j :: 0 <= j < i ==> !Passes(PathIs(path), fs[j])
    {
      if fs[i].path == path {
        FirstWhereUnique(fs, PathIs(path), i);
        return Some(fs[i]);
      }
      i := i + 1;
    }
    return None;
  }

  /** The position of the special-use folder: the first folder found by name;
      only when none is, the first found by the fuzzy search. */
  function SpecialIndex(fs: seq<ImapFolder>, names: seq<string>, a: string, b: string): (r: Option<nat>)
    ensures (exists j :: 0 <= j < |fs| && Passes(NamedAs(names), fs[j])) ==>
              r == FirstWhere(fs, NamedAs(names)) && r.Some?
    ensures (forall j :: 0 <= j < |fs| ==> !Passes(NamedAs(names), fs[j])) ==>
              r == FirstWhere(fs, LooksLike(a, b))
    ensures r.None? <==>
              forall j :: 0 <= j < |fs| ==> !Passes(NamedAs(names), fs[j]) && !Passes(LooksLike(a, b), fs[j])
  {
    match FirstWhere(fs, NamedAs(names))
    case Some(i) => Some(i)
    case None => FirstWhere(fs, LooksLike(a, b))
  }

  /** The special-use folder itself. */
  function SpecialFolder(fs: seq<ImapFolder>, names: seq<string>, a: string, b: string): (r: Option<ImapFolder>)
    ensures r.Some? ==> r.value in fs
    ensures r.Some? ==> Passes(NamedAs(names), r.value) || Passes(LooksLike(a, b), r.value)
    ensures r.None? <==> SpecialIndex(fs, names, a, b).None?
  {
    match SpecialIndex(fs, names, a, b)
    case Some(i) => Some(fs[i])
    case None => None
  }

  /** A folder found by name wins over any folder found by the fuzzy search,
      wherever the two stand in the listing. */
  lemma NameBeatsFuzzy(fs: seq<ImapFolder>, names: seq<string>, a: string, b: string, i: nat)
    requires i < |fs| && Passes(NamedAs(names), fs[i])
    ensures SpecialFolder(fs, names, a, b).Some?
    ensures Passes(NamedAs(names), SpecialFolder(fs, names, a, b).value)
  {
  }

  /** The two passes over the listing, each stopping at its first match. */
  method FindSpecialFolder(fs: seq<ImapFolder>, names: seq<string>, a: string, b: string)
    returns (r: Option<ImapFolder>)
    ensures r == SpecialFolder(fs, names, a, b)
  {
    var i := 0;
    while i < |fs|
      invariant 0 <= i <= |fs|
      invariant forall j :: 0 <= j < i ==> !Passes(NamedAs(names), fs[j])
    {
      if fs[i].name in names || fs[i].path in names {
        FirstWhereUnique(fs, NamedAs(names), i);
        return Some(fs[i]);
      }
      i := i + 1;
    }
    i := 0;
    while i < |fs|
      invariant 0 <= i <= |fs|
      invariant forall j :: 0 <= j < i ==> !Passes(LooksLike(a, b), fs[j])
    {
      if ContainsCI(fs[i].name, a) || ContainsCI(fs[i].name, b) {
        FirstWhereUnique(fs, LooksLike(a, b), i);
        return Some(fs[i]);
      }
      i := i + 1;
    }
    return None;
  }

  /** The message the write-back services' catch blocks rethrow an
      exception with ("IMAP Error: %1"). */
  function ImapError(m: string): (r: string)
    ensures IsPrefix("IMAP Error: ", r) && r[|"IMAP Error: "|..] == m
  {
    "IMAP Error: " + m
  }

  /** The requests of one connection, written as one block after the log
      that preceded it. */
  lemma LogAppended(before: seq<Op>, sent: seq<Op>, after: seq<Op>)
    requires after == before + [Connected] + sent + [Disconnected]
    ensures after == before + ([Connected] + sent + [Disconnected])
  {
  }

  class Client {
    const server: ServerState
    var log: seq<Op>

    constructor (server: ServerState)
      ensures this.server == server && log == []
    {
      this.server := server;
      log := [];
    }

    method Connect() returns (r: Outcome<string>)
      modifies this
      ensures server.connectError.Some? ==> r == Fail(server.connectError.value) && log == old(log)
      ensures server.connectError.None? ==> r == Pass && log == old(log) + [Connected]
    {
      if server.connectError.Some? {
        return Fail(server.connectError.value);
      }
      log := log + [Connected];
      return Pass;
    }

    method Disconnect()
      modifies this
      ensures log == old(log) + [Disconnected]
    {
      log := log + [Disconnected];
    }

    /** getFolders(): the listing, or the exception it throws. */
    method GetFolders() returns (r: Result<seq<ImapFolder>, string>)
      ensures server.listError.Some? ==> r == Failure(server.listError.value)
      ensures server.listError.None? ==> r == Success(server.listing)
    {
      if server.listError.Some? {
        return Failure(server.listError.value);
      }
      return Success(server.listing);
    }

    /** getFolder(path): the folder, or an exception when the server has none. */
    method GetFolder(path: string) returns (r: Result<ImapFolder, string>)
      ensures DirectFolder(server, path).Some? ==> r == Success(DirectFolder(server, path).value)
      ensures DirectFolder(server, path).None? ==> r.Failure?
    {
      var f := DirectFolder(server, path);
      if f.None? {
        return Failure("folder not found");
      }
      return Success(f.value);
    }

    /** getMessageByUid on a folder: whether the message is there, or the
        exception the query throws. */
    method HasMessage(path: string, uid: int) returns (r: Result<bool, string>)
      ensures server.lookupError.Some? ==> r == Failure(server.lookupError.value)
      ensures server.lookupError.None? ==> r == Success(HasUid(server, path, uid))
    {
      if server.lookupError.Some? {
        return Failure(server.lookupError.value);
      }
      return Success(path in server.mailbox && uid in server.mailbox[path]);
    }

    /** move(target) on a message: the returned flag, or the exception. */
    method Move(path: string, uid: int, target: string) returns (r: Result<bool, string>)
      modifies this
      ensures server.moveReply.Moved? ==> r == Success(true) && log == old(log) + [MovedMessage(path, uid, target)]
      ensures server.moveReply.Refused? ==> r == Success(false) && log == old(log)
      ensures server.moveReply.MoveThrows? ==> r == Failure(server.moveReply.message) && log == old(log)
    {
      match server.moveReply
      case Moved =>
        log := log + [MovedMessage(path, uid, target)];
        return Success(true);
      case Refused =>
        return Success(false);
      case MoveThrows(m) =>
        return Failure(m);
    }

    /** delete() on a message: sets its deleted flag. */
    method MarkDeleted(path: string, uid: int) returns (r: Outcome<string>)
      modifies this
      ensures server.deleteError.Some? ==> r == Fail(server.deleteError.value) && log == old(log)
      ensures server.deleteError.None? ==> r == Pass && log == old(log) + [MarkedDeleted(path, uid)]
    {
      if server.deleteError.Some? {
        return Fail(server.deleteError.value);
      }
      log := log + [MarkedDeleted(path, uid)];
      return Pass;
    }

    /** appendMessage(raw, flags) on a folder. */
    method AppendMessage(path: string, raw: string, flags: set<string>) returns (r: Outcome<string>)
      modifies this
      ensures server.appendError.Some? ==> r == Fail(server.appendError.value) && log == old(log)
      ensures server.appendError.None? ==> r == Pass && log == old(log) + [Appended(path, raw, flags)]
    {
      if server.appendError.Some? {
        return Fail(server.appendError.value);
      }
      log := log + [Appended(path, raw, flags)];
      return Pass;
    }
  }
}
