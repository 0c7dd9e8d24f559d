/** The queue consumer that files a copy of a sent mail in the account's
    "Sent" folder on the server: it looks the folder up by name, appends the
    raw message there flagged as seen, and only logs what goes wrong. */
module SentConsumer {
  import opened Common
  import opened ImapClient

  /** The known names of a Sent folder; the last is the modified UTF-7 form of
      the Polish "Elementy wysłane" as it appears in a folder path. */
  const SentNames: seq<string> := [
    "Sent", "Wys\U{C5}\U{82}ane", "Elementy wys\U{C5}\U{82}ane", "Sent Items", "Elementy wys&AUI-ane"]

  /** The second word the fuzzy pass looks for, "wysłane" in UTF-8. */
  const Wyslane := "wys\U{C5}\U{82}ane"

  /** The flag set on the appended copy (a literal backslash and "Seen"). */
  const SeenFlags: set<string> := {"\\Seen"}

  const NoSentFolder := "MailSync SentConsumer: Could not find \"Sent\" folder to append message."

  /** The line logged for an exception the handler catches. */
  function ErrorLine(m: string): LogEntry
  {
    Error("MailSync SentConsumer Error: " + m)
  }

  /** The Sent folder: the first listed by name, else the first whose name
      contains "sent" or "wysłane" without ASCII case. */
  function SentFolder(fs: seq<ImapFolder>): Option<ImapFolder>
  {
    SpecialFolder(fs, SentNames, "sent", Wyslane)
  }

  /** What process(raw) does: the requests sent to the server and the lines
      logged. */
  datatype Effect = Effect(ops: seq<Op>, logged: seq<LogEntry>)

  function ProcessEffect(s: ServerState, raw: string): Effect
  {
    if s.connectError.Some? then Effect([], [ErrorLine(s.connectError.value)])
    else if s.listError.Some? then
      // the listing throws before disconnect, which is not in a finally
      Effect([Connected], [ErrorLine(s.listError.value)])
    else
      match SentFolder(s.listing)
      case None => Effect([Connected, Disconnected], [Warning(NoSentFolder)])
      case Some(f) =>
        if s.appendError.Some? then
          // the append throws before disconnect, which is not in a finally
          Effect([Connected], [ErrorLine(s.appendError.value)])
        else Effect([Connected, Appended(f.path, raw, SeenFlags), Disconnected], [])
  }

  /** process(rawMessage). It returns normally whatever the server does. */
  method Process(raw: string, client: Client, logger: Logger)
    modifies client, logger
    ensures var e := ProcessEffect(client.server, raw);
            client.log == old(client.log) + e.ops && logger.entries == old(logger.entries) + e.logged
  {
    var connected := client.Connect();
    if connected.Fail? {
      logger.Log(ErrorLine(connected.error));
      return;
    }
    var folders := client.GetFolders();
    if folders.Failure? {
      logger.Log(ErrorLine(folders.error));
      return;
    }
    var sent := FindSpecialFolder(folders.value, SentNames, "sent", Wyslane);
    if sent.Some? {
      var appended := client.AppendMessage(sent.value.path, raw, SeenFlags);
      if appended.Fail? {
        logger.Log(ErrorLine(appended.error));
        return;
      }
    } else {
      logger.Log(Warning(NoSentFolder));
    }
    client.Disconnect();
  }

  // ---------------------------------------------------------------------
  // Properties

  /** The message is appended at most once, and only to the Sent folder with
      the seen flag; nothing is appended when there is no Sent folder, and a
      warning says so. */
  lemma AppendedOnlyToSent(s: ServerState, raw: string)
    ensures var e := ProcessEffect(s, raw);
            forall k :: 0 <= k < |e.ops| && e.ops[k].Appended? ==>
              SentFolder(s.listing).Some? && e.ops[k] == Appended(SentFolder(s.listing).value.path, raw, SeenFlags)
    ensures s.connectError.None? && s.listError.None? && SentFolder(s.listing).None? ==>
            ProcessEffect(s, raw) == Effect([Connected, Disconnected], [Warning(NoSentFolder)])
    ensures s.connectError.None? && s.listError.None? && s.appendError.None? && SentFolder(s.listing).Some? ==>
            ProcessEffect(s, raw).ops == [Connected, Appended(SentFolder(s.listing).value.path, raw, SeenFlags), Disconnected]
  {
  }

  /** Every failure is logged once, as an error with the handler's prefix,
      and nothing else is logged with it. */
  lemma FailuresLogged(s: ServerState, raw: string)
    ensures var e := ProcessEffect(s, raw);
            |e.logged| <= 1
            && (s.connectError.Some? ==> e.logged == [ErrorLine(s.connectError.value)])
            && (s.connectError.None? && s.listError.Some? ==>
                  e == Effect([Connected], [ErrorLine(s.listError.value)]))
            && (s.connectError.None? && s.listError.None? && SentFolder(s.listing).Some? && s.appendError.Some? ==>
                  e.logged == [ErrorLine(s.appendError.value)])
            && (e.logged == [] <==>
                  s.connectError.None? && s.listError.None? && SentFolder(s.listing).Some? && s.appendError.None?)
  {
  }

  /** A folder listed under one of the names wins over a fuzzy match listed
      before it. */
  lemma NameBeatsEarlierFuzzy(first: ImapFolder, named: ImapFolder)
    requires named.name in SentNames
    ensures SentFolder([first, named]) == if Passes(NamedAs(SentNames), first) then Some(first) else Some(named)
  {
    var fs := [first, named];
    if Passes(NamedAs(SentNames), first) {
      FirstWhereUnique(fs, NamedAs(SentNames), 0);
    } else {
      FirstWhereUnique(fs, NamedAs(SentNames), 1);
    }
  }

  /** The fuzzy pass folds ASCII letters only: a folder named "WYSŁANE" in
      capitals (with the capital "Ł", C5 81) is not taken for the Sent folder,
      while "SENT mail" is. */
  lemma FuzzyFoldsAsciiOnly()
    ensures SentFolder([ImapFolder("INBOX.X", "WYS\U{C5}\U{81}ANE")]).None?
    ensures SentFolder([ImapFolder("INBOX.S", "SENT mail")]) == Some(ImapFolder("INBOX.S", "SENT mail"))
  {
    CapitalNotMatched();
    SentMailMatched();
    SingleCandidate(ImapFolder("INBOX.X", "WYS\U{C5}\U{81}ANE"));
    SingleCandidate(ImapFolder("INBOX.S", "SENT mail"));
  }

  lemma SingleCandidate(f: ImapFolder)
    ensures SentFolder([f]) ==
            if Passes(NamedAs(SentNames), f) || Passes(LooksLike("sent", Wyslane), f) then Some(f) else None
  {
    assert [f][..0] == [];
  }

  lemma CapitalNotMatched()
    ensures !Passes(NamedAs(SentNames), ImapFolder("INBOX.X", "WYS\U{C5}\U{81}ANE"))
    ensures !Passes(LooksLike("sent", Wyslane), ImapFolder("INBOX.X", "WYS\U{C5}\U{81}ANE"))
  {
    var capital := "WYS\U{C5}\U{81}ANE";
    var folded := Lower(capital);
    LowerIdentity("sent");
    LowerIdentity(Wyslane);
    forall i | 0 <= i <= |folded| - 4 ensures !OccursAt(folded, "sent", i) {
      assert folded[i + 1] == LowerChar(capital[i + 1]);
      assert folded[i..i + 4][1] == folded[i + 1];
    }
    assert !OccursAt(folded, Wyslane, 0) by {
      assert folded[4] == LowerChar(capital[4]);
      assert folded[..8][4] != Wyslane[4];
    }
  }

  lemma SentMailMatched()
    ensures !Passes(NamedAs(SentNames), ImapFolder("INBOX.S", "SENT mail"))
    ensures Passes(LooksLike("sent", Wyslane), ImapFolder("INBOX.S", "SENT mail"))
  {
    var sentMail := "SENT mail";
    assert Lower(sentMail)[..4] == "sent";
    LowerIdentity("sent");
    assert OccursAt(Lower(sentMail), Lower("sent"), 0);
  }
}
