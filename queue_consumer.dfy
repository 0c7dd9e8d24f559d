/** The queue consumer that runs a synchronisation on request. A lock file
    keeps it from running while another run (the cron job, say) holds the
    lock; a lock older than ten minutes is taken to be left over and is
    reclaimed. Time is the `now` parameter, in seconds. */
module QueueConsumer {
  import opened Common
  import FR = FolderRepository
  import MR = MessageRepository
  import opened ImapSynchronizer

  /** The age in seconds past which a lock is stale. */
  const StaleAfter := 600

  const SkipLine := "MailSync: Sync already running (locked). Skipping queue message."
  const StartLine := "MailSync: Starting sync from queue..."
  const DoneLine := "MailSync: Queue sync completed."

  /** The line logged for an exception the sync raised. */
  function ErrorLine(m: string): LogEntry
  {
    Error("MailSync Queue Error: " + m)
  }

  /** What happened to the lock file, in order. */
  datatype LockEvent = Removed | Created(mtime: int)

  /** The lock file: whether it exists, its modification time, and the
      removals and creations done to it. */
  class LockFile {
    var present: bool
    var mtime: int
    var history: seq<LockEvent>

    constructor (present: bool, mtime: int)
      ensures this.present == present && this.mtime == mtime && history == []
    {
      this.present := present;
      this.mtime := mtime;
      history := [];
    }

    /** unlink */
    method Remove()
      modifies this
      ensures !present && mtime == old(mtime) && history == old(history) + [Removed]
    {
      present := false;
      history := history + [Removed];
    }

    /** touch, at time `now` */
    method Touch(now: int)
      modifies this
      ensures present && mtime == now && history == old(history) + [Created(now)]
    {
      present := true;
      mtime := now;
      history := history + [Created(now)];
    }
  }

  /** What the lock check decides. */
  datatype Gate = Skip | Reclaim | Fresh

  /** The lock check at time `now`: a present lock no older than the limit
      makes the request skip; an older one is reclaimed; no lock, run. */
  function GateFor(present: bool, mtime: int, now: int): (g: Gate)
    ensures g == Skip <==> present && now - mtime <= StaleAfter
    ensures g == Reclaim <==> present && now - mtime > StaleAfter
    ensures g == Fresh <==> !present
  {
    if present then (if now - mtime > StaleAfter then Reclaim else Skip) else Fresh
  }

  /** The lock events a request causes. */
  function LockEvents(g: Gate, now: int): seq<LockEvent>
  {
    match g
    case Skip => []
    case Reclaim => [Removed, Created(now), Removed]
    case Fresh => [Created(now), Removed]
  }

  /** The lines a request logs, given how the sync ended and the message of
      the exception it raised, if it raised one. */
  function LogLines(g: Gate, outcome: SyncOutcome, message: string): seq<LogEntry>
  {
    if g == Skip then [Info(SkipLine)]
    else [Info(StartLine), if outcome.Completed? then Info(DoneLine) else ErrorLine(message)]
  }

  /** process(message). `failure` is the message of the exception the sync
      raises when it fails. The request never fails itself. */
  method Process(now: int, lock: LockFile, logger: Logger, failure: string,
                 remote: Remote, stripTags: string -> string,
                 catalog: FR.FolderTable, store: MR.MessageTable, atts: AttachmentTable)
    requires FR.Consistent(catalog.Value()) && MR.Consistent(store.Value()) && atts.Valid()
    modifies lock, logger, catalog, store, atts
    ensures FR.Consistent(catalog.Value()) && MR.Consistent(store.Value()) && atts.Valid()
    ensures var g := GateFor(old(lock.present), old(lock.mtime), now);
            && lock.history == old(lock.history) + LockEvents(g, now)
            && logger.entries == old(logger.entries) + LogLines(g, ExpectedOutcome(remote), failure)
            && (g == Skip ==>
                  && lock.present && lock.mtime == old(lock.mtime)
                  && TablesOf(catalog, store, atts) == old(TablesOf(catalog, store, atts)))
            && (g != Skip ==>
                  && !lock.present
                  && TablesOf(catalog, store, atts) == RunResult(remote, stripTags, old(TablesOf(catalog, store, atts)))
                  && Extends(old(TablesOf(catalog, store, atts)), TablesOf(catalog, store, atts))
                  && Recorded(remote, TablesOf(catalog, store, atts)))
  {
    if lock.present {
      if now - lock.mtime > StaleAfter {
        lock.Remove();
      } else {
        logger.Log(Info(SkipLine));
        return;
      }
    }
    RunLocked(now, lock, logger, failure, remote, stripTags, catalog, store, atts);
    assert old(lock.history) + LockEvents(GateFor(old(lock.present), old(lock.mtime), now), now)
        == (if old(lock.present) then old(lock.history) + [Removed] else old(lock.history)) + [Created(now), Removed];
  }

  /** The part after the lock check: take the lock, sync, log, release. */
  method RunLocked(now: int, lock: LockFile, logger: Logger, failure: string,
                   remote: Remote, stripTags: string -> string,
                   catalog: FR.FolderTable, store: MR.MessageTable, atts: AttachmentTable)
    requires !lock.present
    requires FR.Consistent(catalog.Value()) && MR.Consistent(store.Value()) && atts.Valid()
    modifies lock, logger, catalog, store, atts
    ensures FR.Consistent(catalog.Value()) && MR.Consistent(store.Value()) && atts.Valid()
    ensures lock.history == old(lock.history) + [Created(now), Removed] && !lock.present
    ensures logger.entries == old(logger.entries) + LogLines(Fresh, ExpectedOutcome(remote), failure)
    ensures TablesOf(catalog, store, atts) == RunResult(remote, stripTags, old(TablesOf(catalog, store, atts)))
    ensures Extends(old(TablesOf(catalog, store, atts)), TablesOf(catalog, store, atts))
    ensures Recorded(remote, TablesOf(catalog, store, atts))
  {
    lock.Touch(now);
    logger.Log(Info(StartLine));
    var outcome, _ := Sync(remote, stripTags, catalog, store, atts);
    if outcome.Completed? {
      logger.Log(Info(DoneLine));
    } else {
      logger.Log(ErrorLine(failure));
    }
    if lock.present {
      lock.Remove();
    }
  }

  // ---------------------------------------------------------------------
  // Properties

  /** The limit is inclusive: a lock exactly ten minutes old still blocks,
      one a second older is reclaimed. */
  lemma StaleBoundary(mtime: int)
    ensures GateFor(true, mtime, mtime + StaleAfter) == Skip
    ensures GateFor(true, mtime, mtime + StaleAfter + 1) == Reclaim
  {
  }

  /** Every request that runs the sync removes the lock it created, so no lock
      remains after it: the last lock event is a removal, just after the one
      creation. */
  lemma RunReleasesLock(g: Gate, now: int)
    requires g != Skip
    ensures var h := LockEvents(g, now);
            && |h| >= 2 && h[|h| - 1] == Removed && h[|h| - 2] == Created(now)
            && (g == Reclaim <==> h[0] == Removed)
  {
  }

  /** A request logs that it starts exactly when it is not skipped, and then
      exactly one of the completion line and the error line. */
  lemma RunLogged(g: Gate, outcome: SyncOutcome, message: string)
    ensures var lines := LogLines(g, outcome, message);
            && (g == Skip <==> lines == [Info(SkipLine)])
            && (g != Skip ==> |lines| == 2 && lines[0] == Info(StartLine)
                              && (lines[1] == Info(DoneLine) <==> outcome.Completed?)
                              && (lines[1] == ErrorLine(message) <==> !outcome.Completed?))
  {
  }
}
