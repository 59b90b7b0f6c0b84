/** The terminal metadata store of crates/server/src/meta_store.rs: versioned
    snapshots that callers take under the state lock, hand to a queue in any order,
    and one writer thread that coalesces, persists and retries them. */
module MetaStore {
  import opened Wrappers

  /** Version v of the records is what the v-th mutation since loading left. */
  datatype Snapshot<+R> = Snapshot(records: R, version: nat)

  /** `call` numbers the calls that wait for a reply: it stands for the reply channel. */
  datatype Command<+R> =
    | Update(snapshot: Snapshot<R>)
    | Flush(snapshot: Snapshot<R>, call: nat)
    | Shutdown(snapshot: Snapshot<R>, call: nat)

  /** How far one `atomic_write` gets: an error before the rename leaves the old file,
      an error syncing the directory after it leaves the new one. */
  datatype WriteOutcome = Written | FailedBeforeRename | FailedAfterRename

  datatype Reply = Done | Failed

  const SHUTDOWN_PERSIST_MAX_ATTEMPTS: nat := 4

  /** `disk` is the snapshot whose records the metadata file reloads to, and `writes`
      counts the atomic writes tried, which index the script of their outcomes. */
  datatype Writer<+R> = Writer(pending: Option<Snapshot<R>>, deadline: Option<nat>, persistedVersion: nat,
                               disk: Snapshot<R>, writes: nat)

  function NewerSnapshot<R>(current: Option<Snapshot<R>>, candidate: Snapshot<R>): Snapshot<R>
  {
    match current
    case Some(snapshot) => if snapshot.version > candidate.version then snapshot else candidate
    case None => candidate
  }

  /** `persist_snapshot`. */
  function Persist<R>(io: nat -> WriteOutcome, w: Writer<R>, snapshot: Snapshot<R>): (Writer<R>, Reply)
  {
    if snapshot.version <= w.persistedVersion then (w, Done)
    else match io(w.writes)
      case Written => (w.(disk := snapshot, persistedVersion := snapshot.version, writes := w.writes + 1), Done)
      case FailedBeforeRename => (w.(writes := w.writes + 1), Failed)
      case FailedAfterRename => (w.(disk := snapshot, writes := w.writes + 1), Failed)
  }

  /** `persist_snapshot_for_shutdown` with n attempts left. */
  function PersistForShutdown<R>(io: nat -> WriteOutcome, w: Writer<R>, snapshot: Snapshot<R>, n: nat)
    : (Writer<R>, Reply)
    requires n >= 1
    decreases n
  {
    var (after, reply) := Persist(io, w, snapshot);
    if reply.Done? || n == 1 then (after, reply) else PersistForShutdown(io, after, snapshot, n - 1)
  }

  method PersistSnapshotForShutdown<R>(io: nat -> WriteOutcome, start: Writer<R>, snapshot: Snapshot<R>)
    returns (w: Writer<R>, reply: Reply)
    ensures (w, reply) == PersistForShutdown(io, start, snapshot, SHUTDOWN_PERSIST_MAX_ATTEMPTS)
  {
    w := start;
    for attempt := 1 to SHUTDOWN_PERSIST_MAX_ATTEMPTS + 1
      invariant attempt <= SHUTDOWN_PERSIST_MAX_ATTEMPTS
      invariant PersistForShutdown(io, start, snapshot, SHUTDOWN_PERSIST_MAX_ATTEMPTS)
                == PersistForShutdown(io, w, snapshot, SHUTDOWN_PERSIST_MAX_ATTEMPTS - attempt + 1)
    {
      var (after, result) := Persist(io, w, snapshot);
      w, reply := after, result;
      if result.Done? || attempt == SHUTDOWN_PERSIST_MAX_ATTEMPTS {
        return;
      }
    }
  }

  /** What the outer `recv` or the inner `try_recv` of `run_writer` yields. `now` is
      the clock when the writer acts on it. */
  datatype Event<+R> = Received(command: Command<R>, now: nat) | Expired(now: nat) | Disconnected | Empty

  /** What the writer told a call: the reply, and the file at that moment. */
  datatype Answer<+R> = Answer(call: nat, asked: Snapshot<R>, reply: Reply, disk: Snapshot<R>)

  /** One turn of the outer loop for a command or a timeout. */
  function Handle<R>(io: nat -> WriteOutcome, debounce: nat, w: Writer<R>, command: Command<R>, now: nat)
    : (r: (Writer<R>, Option<Reply>))
    ensures r.1.Some? <==> !command.Update?
  {
    match command
    case Update(snapshot) =>
      (w.(pending := Some(NewerSnapshot(w.pending, snapshot)),
          deadline := if w.deadline.Some? then w.deadline else Some(now + debounce)), None)
    case Flush(snapshot, _) =>
      var newest := NewerSnapshot(w.pending, snapshot);
      var (after, reply) := Persist(io, w.(pending := None), newest);
      (Settle(after, newest, reply, now + debounce), Some(reply))
    case Shutdown(snapshot, _) =>
      var newest := NewerSnapshot(w.pending, snapshot);
      var (after, reply) := PersistForShutdown(io, w.(pending := None), newest, SHUTDOWN_PERSIST_MAX_ATTEMPTS);
      (after, Some(reply))
  }

  /** A failed write puts its snapshot back with a new deadline. */
  function Settle<R>(w: Writer<R>, snapshot: Snapshot<R>, reply: Reply, retryAt: nat): Writer<R>
  {
    if reply.Failed? then w.(pending := Some(snapshot), deadline := Some(retryAt)) else w.(deadline := None)
  }

  function Expire<R>(io: nat -> WriteOutcome, debounce: nat, w: Writer<R>, now: nat): Writer<R>
  {
    match w.pending
    case None => w.(deadline := None)
    case Some(snapshot) =>
      var (after, reply) := Persist(io, w.(pending := None), snapshot);
      Settle(after, snapshot, reply, now + debounce)
  }

  /** The disconnected queue: one last attempt, whatever comes of it. */
  function HangUp<R>(io: nat -> WriteOutcome, w: Writer<R>): Writer<R>
  {
    match w.pending
    case None => w
    case Some(snapshot) => Persist(io, w.(pending := None), snapshot).0
  }

  // ---- the invariant ----------------------------------------------------------

  /** `newest` bounds every version received so far: it is on disk, or pending. */
  ghost predicate Coalesced<R>(w: Writer<R>, newest: nat)
  {
    newest <= w.persistedVersion || (w.pending.Some? && newest <= w.pending.value.version)
  }

  /** The file is as new as the last success, and anything newer on it, left by a
      failed directory sync, is still pending and will be written again. */
  ghost predicate DiskInv<R>(w: Writer<R>)
  {
    && w.persistedVersion <= w.disk.version
    && (w.disk.version <= w.persistedVersion || (w.pending.Some? && w.disk.version <= w.pending.value.version))
  }

  ghost predicate Inv<R>(w: Writer<R>, newest: nat)
  {
    && (w.pending.Some? <==> w.deadline.Some?)
    && Coalesced(w, newest)
    && DiskInv(w)
  }

  function Max(a: nat, b: nat): nat { if a >= b then a else b }

  /** One attempt to persist the newest snapshot known. */
  lemma {:induction false} PersistNewest<R>(io: nat -> WriteOutcome, w: Writer<R>, snapshot: Snapshot<R>)
    requires w.persistedVersion <= w.disk.version
    requires w.disk.version <= Max(w.persistedVersion, snapshot.version)
    ensures var (after, reply) := Persist(io, w, snapshot);
            && after.pending == w.pending && after.deadline == w.deadline
            && w.disk.version <= after.disk.version <= Max(after.persistedVersion, snapshot.version)
            && after.persistedVersion <= after.disk.version
            && w.persistedVersion <= after.persistedVersion
            && (reply.Done? ==> snapshot.version <= after.persistedVersion == after.disk.version)
            && (after.disk == w.disk || after.disk == snapshot)
  {
  }

  lemma {:induction false} PersistForShutdownNewest<R>(io: nat -> WriteOutcome, w: Writer<R>, snapshot: Snapshot<R>,
                                                       n: nat)
    requires n >= 1
    requires w.persistedVersion <= w.disk.version
    requires w.disk.version <= Max(w.persistedVersion, snapshot.version)
    ensures var (after, reply) := PersistForShutdown(io, w, snapshot, n);
            && w.disk.version <= after.disk.version
            && (reply.Done? ==> snapshot.version <= after.disk.version)
            && (after.disk == w.disk || after.disk == snapshot)
            && after.pending == w.pending
    decreases n
  {
    hide Persist;
    PersistNewest(io, w, snapshot);
    var (after, reply) := Persist(io, w, snapshot);
    if reply.Failed? && n > 1 {
      PersistForShutdownNewest(io, after, snapshot, n - 1);
    }
  }

  /** Every turn of the writer, for any order of snapshots and any failed writes: the
      version on disk never decreases, no update is stranded without a deadline, and a
      flush or shutdown answered Ok leaves on disk at least the version it asked for. */
  lemma {:induction false} HandleKeepsInv<R>(io: nat -> WriteOutcome, debounce: nat, w: Writer<R>, command: Command<R>,
                                             now: nat, newest: nat)
    requires Inv(w, newest)
    ensures var (after, reply) := Handle(io, debounce, w, command, now);
            && w.disk.version <= after.disk.version
            && (!command.Shutdown? ==> Inv(after, Max(newest, command.snapshot.version)))
            && (reply == Some(Done) ==> Max(newest, command.snapshot.version) <= after.disk.version)
            && FromKnown(w, command.snapshot, after)
  {
    hide Persist;
    var cleared := w.(pending := None);
    var candidate := NewerSnapshot(w.pending, command.snapshot);
    PersistNewest(io, cleared, candidate);
    PersistForShutdownNewest(io, cleared, candidate, SHUTDOWN_PERSIST_MAX_ATTEMPTS);
  }

  /** The file and the pending snapshot are always ones the writer was given. */
  ghost predicate FromKnown<R>(w: Writer<R>, given: Snapshot<R>, after: Writer<R>)
  {
    && (after.disk == w.disk || after.disk == given || w.pending == Some(after.disk))
    && (after.pending.Some? ==> after.pending == w.pending || after.pending == Some(given))
  }

  lemma {:induction false} ExpireKeepsInv<R>(io: nat -> WriteOutcome, debounce: nat, w: Writer<R>, now: nat,
                                             newest: nat)
    requires Inv(w, newest)
    ensures var after := Expire(io, debounce, w, now);
            && Inv(after, newest)
            && w.disk.version <= after.disk.version
            && (after.disk == w.disk || w.pending == Some(after.disk))
            && (after.pending.Some? ==> after.pending == w.pending)
  {
    hide Persist;
    if w.pending.Some? {
      PersistNewest(io, w.(pending := None), w.pending.value);
      var (after, reply) := Persist(io, w.(pending := None), w.pending.value);
      var settled := Settle(after, w.pending.value, reply, now + debounce);
      assert settled == Expire(io, debounce, w, now);
      assert Coalesced(settled, newest) && DiskInv(settled);
    }
  }

  // ---- what gets written ------------------------------------------------------------

  /** Persisting a snapshot succeeds exactly when its version is on disk already or its
      one write succeeds; then the file holds that version or a newer one. */
  lemma {:induction false} PersistSucceedsWhen<R>(io: nat -> WriteOutcome, w: Writer<R>, snapshot: Snapshot<R>)
    ensures var (after, reply) := Persist(io, w, snapshot);
            && (reply.Done? <==> snapshot.version <= w.persistedVersion || io(w.writes).Written?)
            && (snapshot.version <= w.persistedVersion ==> after == w)
            && (snapshot.version > w.persistedVersion ==> after.writes == w.writes + 1)
            && (snapshot.version > w.persistedVersion && io(w.writes).Written? ==> after.disk == snapshot)
            && (snapshot.version > w.persistedVersion && io(w.writes).FailedAfterRename? ==> after.disk == snapshot)
            && (snapshot.version > w.persistedVersion && io(w.writes).FailedBeforeRename? ==> after.disk == w.disk)
  {
  }

  /** When the deadline expires with a snapshot pending, it is written: if that succeeds
      nothing is pending any more and every version received is on disk; if not, one write
      was spent, and it stays pending with a new deadline. */
  lemma {:induction false} ExpiryWrites<R>(io: nat -> WriteOutcome, debounce: nat, w: Writer<R>, now: nat, newest: nat)
    requires Inv(w, newest) && w.pending.Some?
    ensures var after, snapshot := Expire(io, debounce, w, now), w.pending.value;
            if snapshot.version <= w.persistedVersion || io(w.writes).Written? then
              after.pending.None? && after.deadline.None? && newest <= after.disk.version
            else
              after.pending == w.pending && after.deadline == Some(now + debounce) && after.writes == w.writes + 1
  {
    hide Persist;
    var snapshot := w.pending.value;
    PersistSucceedsWhen(io, w.(pending := None), snapshot);
    PersistNewest(io, w.(pending := None), snapshot);
    var (persisted, reply) := Persist(io, w.(pending := None), snapshot);
    assert Expire(io, debounce, w, now) == Settle(persisted, snapshot, reply, now + debounce);
  }

  /** So does the writer when its queue is closed; that is its last chance. */
  lemma {:induction false} HangUpWrites<R>(io: nat -> WriteOutcome, w: Writer<R>, newest: nat)
    requires Inv(w, newest) && w.pending.Some?
    ensures var after, snapshot := HangUp(io, w), w.pending.value;
            if snapshot.version <= w.persistedVersion || io(w.writes).Written? then newest <= after.disk.version
            else after.writes == w.writes + 1
  {
    hide Persist;
    PersistSucceedsWhen(io, w.(pending := None), w.pending.value);
    PersistNewest(io, w.(pending := None), w.pending.value);
  }

  /** A flush is answered Ok exactly when the newest version known is on disk already or
      its write succeeds. */
  lemma {:induction false} FlushAnswersWhen<R>(io: nat -> WriteOutcome, debounce: nat, w: Writer<R>, given: Snapshot<R>,
                                               call: nat, now: nat)
    ensures var newest := NewerSnapshot(w.pending, given);
            var (after, reply) := Handle(io, debounce, w, Flush(given, call), now);
            if newest.version <= w.persistedVersion || io(w.writes).Written? then
              reply == Some(Done) && after.pending.None? && after.deadline.None?
            else
              reply == Some(Failed) && after.pending == Some(newest) && after.deadline == Some(now + debounce)
  {
    PersistSucceedsWhen(io, w.(pending := None), NewerSnapshot(w.pending, given));
  }

  /** One of the next n writes succeeds. */
  predicate WrittenWithin(io: nat -> WriteOutcome, writes: nat, n: nat)
    decreases n
  {
    n > 0 && (io(writes).Written? || WrittenWithin(io, writes + 1, n - 1))
  }

  lemma {:induction false} AttemptsSucceedWhen<R>(io: nat -> WriteOutcome, w: Writer<R>, snapshot: Snapshot<R>, n: nat)
    requires n >= 1
    ensures PersistForShutdown(io, w, snapshot, n).1.Done?
            <==> snapshot.version <= w.persistedVersion || WrittenWithin(io, w.writes, n)
    decreases n
  {
    hide Persist;
    PersistSucceedsWhen(io, w, snapshot);
    PersistVersion(io, w, snapshot);
    var (after, reply) := Persist(io, w, snapshot);
    if reply.Failed? && n > 1 {
      AttemptsSucceedWhen(io, after, snapshot, n - 1);
    }
  }

  lemma PersistVersion<R>(io: nat -> WriteOutcome, w: Writer<R>, snapshot: Snapshot<R>)
    ensures Persist(io, w, snapshot).1.Failed? ==> Persist(io, w, snapshot).0.persistedVersion == w.persistedVersion
  {
  }

  /** A shutdown is answered Ok exactly when the newest version known is on disk already
      or one of the next four writes succeeds. */
  lemma {:induction false} ShutdownAnswersWhen<R>(io: nat -> WriteOutcome, debounce: nat, w: Writer<R>,
                                                  given: Snapshot<R>, call: nat, now: nat)
    ensures var reply := Handle(io, debounce, w, Shutdown(given, call), now).1;
            reply == Some(Done) <==>
              || NewerSnapshot(w.pending, given).version <= w.persistedVersion
              || io(w.writes).Written? || io(w.writes + 1).Written?
              || io(w.writes + 2).Written? || io(w.writes + 3).Written?
  {
    hide Persist, PersistForShutdown;
    AttemptsSucceedWhen(io, w.(pending := None), NewerSnapshot(w.pending, given), SHUTDOWN_PERSIST_MAX_ATTEMPTS);
    assert WrittenWithin(io, w.writes + 3, 1) == io(w.writes + 3).Written?;
    assert WrittenWithin(io, w.writes + 2, 2) == (io(w.writes + 2).Written? || io(w.writes + 3).Written?);
  }

  /** Of the snapshot pending and the one given, the newer is kept. */
  lemma NewerIsNewest<R>(pending: Option<Snapshot<R>>, given: Snapshot<R>)
    ensures var newer := NewerSnapshot(pending, given);
            && (newer == given || pending == Some(newer)) && newer.version >= given.version
            && (pending.Some? ==> newer.version >= pending.value.version)
  {
  }

  // ---- run_writer -------------------------------------------------------------

  /** The thread after some events, and the answers it has given. */
  datatype Thread<+R> = Thread(w: Writer<R>, answers: seq<Answer<R>>, stopped: bool)

  /** The simple form of the thread: one event at a time, in order. */
  function OnEvent<R>(io: nat -> WriteOutcome, debounce: nat, t: Thread<R>, e: Event<R>): Thread<R>
  {
    if t.stopped then t
    else match e
      case Received(command, now) =>
        var (after, reply) := Handle(io, debounce, t.w, command, now);
        Thread(after,
               if command.Update? then t.answers
               else t.answers + [Answer(command.call, command.snapshot, reply.value, after.disk)],
               command.Shutdown?)
      case Expired(now) => if t.w.deadline.Some? then t.(w := Expire(io, debounce, t.w, now)) else t
      case Disconnected => t.(w := HangUp(io, t.w), stopped := true)
      case Empty => t
  }

  function Loaded<R>(records: R): Thread<R>
  {
    Thread(Writer(None, None, 0, Snapshot(records, 0), 0), [], false)
  }

  function AfterEvents<R>(io: nat -> WriteOutcome, debounce: nat, records: R, events: seq<Event<R>>): Thread<R>
  {
    if events == [] then Loaded(records)
    else OnEvent(io, debounce, AfterEvents(io, debounce, records, events[..|events| - 1]), events[|events| - 1])
  }

  lemma {:induction false} AfterOneMore<R>(io: nat -> WriteOutcome, debounce: nat, records: R, events: seq<Event<R>>,
                                           i: nat)
    requires i < |events|
    ensures AfterEvents(io, debounce, records, events[..i + 1])
            == OnEvent(io, debounce, AfterEvents(io, debounce, records, events[..i]), events[i])
  {
    hide OnEvent;
    assert events[..i + 1][..i] == events[..i];
  }

  /** `run_writer`, with its outer loop and the inner one that drains a burst without
      looking at the deadline. It does what handling each event on its own would do. */
  method RunWriter<R>(io: nat -> WriteOutcome, debounce: nat, records: R, events: seq<Event<R>>) returns (t: Thread<R>)
    ensures t == AfterEvents(io, debounce, records, events)
  {
    hide *;
    var w := Writer(None, None, 0, Snapshot(records, 0), 0);
    var answers: seq<Answer<R>> := [];
    var i := 0;
    NothingYet(io, debounce, records, events[..i]);
    while i < |events|
      invariant 0 <= i <= |events|
      invariant AfterEvents(io, debounce, records, events[..i]) == Thread(w, answers, false)
      invariant w.pending.Some? <==> w.deadline.Some?
      decreases |events| - i
    {
      AfterOneMore(io, debounce, records, events, i);
      var event := events[i];
      Turn(io, debounce, w, answers, event);
      ghost var taken := i;
      i := i + 1;
      match event {
        case Disconnected =>
          if w.pending.Some? {
            var snapshot := w.pending.value;
            var (after, _) := Persist(io, w.(pending := None), snapshot);
            w := after;
          }
          t := Thread(w, answers, true);
          StoppedStays(io, debounce, records, events, i);
          return;
        case Empty =>
        case Expired(now) =>
          if w.deadline.Some? {
            ExpireShape(io, debounce, w, now);
            w := Expire(io, debounce, w, now);
          }
        case Received(Update(snapshot), now) =>
          w := w.(pending := Some(NewerSnapshot(w.pending, snapshot)));
          if w.deadline.None? {
            w := w.(deadline := Some(now + debounce));
          }
        case Received(Flush(snapshot, call), now) =>
          w, answers := FlushNow(io, debounce, w, answers, snapshot, call, now);
        case Received(Shutdown(snapshot, call), now) =>
          w, answers := ShutDownNow(io, debounce, w, answers, snapshot, call, now);
          t := Thread(w, answers, true);
          StoppedStays(io, debounce, records, events, i);
          return;
      }
      while w.pending.Some? && i < |events| && events[i].Received?
        invariant taken < i <= |events|
        invariant AfterEvents(io, debounce, records, events[..i]) == Thread(w, answers, false)
        invariant w.pending.Some? <==> w.deadline.Some?
      {
        AfterOneMore(io, debounce, records, events, i);
        Turn(io, debounce, w, answers, events[i]);
        var command, now := events[i].command, events[i].now;
        i := i + 1;
        match command {
          case Update(snapshot) =>
            w := w.(pending := Some(NewerSnapshot(w.pending, snapshot)));
          case Flush(snapshot, call) =>
            w, answers := FlushNow(io, debounce, w, answers, snapshot, call, now);
            break;
          case Shutdown(snapshot, call) =>
            w, answers := ShutDownNow(io, debounce, w, answers, snapshot, call, now);
            t := Thread(w, answers, true);
            StoppedStays(io, debounce, records, events, i);
            return;
        }
      }
    }
    assert events[..i] == events;
    t := Thread(w, answers, false);
  }

  lemma NothingYet<R>(io: nat -> WriteOutcome, debounce: nat, records: R, events: seq<Event<R>>)
    requires events == []
    ensures AfterEvents(io, debounce, records, events)
            == Thread(Writer(None, None, 0, Snapshot(records, 0), 0), [], false)
  {
  }

  /** One turn of the running thread for everything but a flush or shutdown. */
  lemma Turn<R>(io: nat -> WriteOutcome, debounce: nat, w: Writer<R>, answers: seq<Answer<R>>, e: Event<R>)
    ensures var after := OnEvent(io, debounce, Thread(w, answers, false), e);
            match e
            case Disconnected =>
              after == Thread(if w.pending.Some? then Persist(io, w.(pending := None), w.pending.value).0 else w,
                              answers, true)
            case Empty => after == Thread(w, answers, false)
            case Expired(now) =>
              after == Thread(if w.deadline.Some? then Expire(io, debounce, w, now) else w, answers, false)
            case Received(Update(snapshot), now) =>
              after == Thread(w.(pending := Some(NewerSnapshot(w.pending, snapshot)),
                                 deadline := if w.deadline.Some? then w.deadline else Some(now + debounce)),
                              answers, false)
            case Received(_, _) => after.stopped == e.command.Shutdown?
  {
    hide Persist, Expire, NewerSnapshot;
  }

  lemma ExpireShape<R>(io: nat -> WriteOutcome, debounce: nat, w: Writer<R>, now: nat)
    ensures var after := Expire(io, debounce, w, now);
            after.pending.Some? <==> after.deadline.Some?
  {
  }

  method FlushNow<R>(io: nat -> WriteOutcome, debounce: nat, w: Writer<R>, answers: seq<Answer<R>>,
                   given: Snapshot<R>, call: nat, now: nat)
    returns (after: Writer<R>, more: seq<Answer<R>>)
    ensures Thread(after, more, false)
            == OnEvent(io, debounce, Thread(w, answers, false), Received(Flush(given, call), now))
    ensures after.pending.Some? <==> after.deadline.Some?
  {
    var snapshot := NewerSnapshot(w.pending, given);
    var (persisted, reply) := Persist(io, w.(pending := None), snapshot);
    if reply.Failed? {
      after := persisted.(pending := Some(snapshot), deadline := Some(now + debounce));
    } else {
      after := persisted.(deadline := None);
    }
    more := answers + [Answer(call, given, reply, after.disk)];
  }

  method ShutDownNow<R>(io: nat -> WriteOutcome, debounce: nat, w: Writer<R>, answers: seq<Answer<R>>,
                      given: Snapshot<R>, call: nat, now: nat)
    returns (after: Writer<R>, more: seq<Answer<R>>)
    ensures Thread(after, more, true)
            == OnEvent(io, debounce, Thread(w, answers, false), Received(Shutdown(given, call), now))
  {
    hide Persist, PersistForShutdown;
    var reply;
    after, reply := PersistSnapshotForShutdown(io, w.(pending := None), NewerSnapshot(w.pending, given));
    more := answers + [Answer(call, given, reply, after.disk)];
  }

  lemma {:induction false} StoppedStays<R>(io: nat -> WriteOutcome, debounce: nat, records: R, events: seq<Event<R>>,
                                           i: nat)
    requires i <= |events| && AfterEvents(io, debounce, records, events[..i]).stopped
    ensures AfterEvents(io, debounce, records, events) == AfterEvents(io, debounce, records, events[..i])
    decreases |events| - i
  {
    if i == |events| {
      assert events[..i] == events;
    } else {
      AfterOneMore(io, debounce, records, events, i);
      StoppedStays(io, debounce, records, events, i + 1);
    }
  }

  // ---- every run ----------------------------------------------------------------

  /** The greatest version received so far. */
  function Newest<R>(events: seq<Event<R>>): nat
  {
    if events == [] then 0
    else
      var k := |events| - 1;
      Max(Newest(events[..k]), if events[k].Received? then events[k].command.snapshot.version else 0)
  }

  ghost predicate ThreadInv<R>(t: Thread<R>, newest: nat)
  {
    && (!t.stopped ==> Inv(t.w, newest))
    && (forall a :: a in t.answers && a.reply.Done? ==> a.asked.version <= a.disk.version <= t.w.disk.version)
  }

  lemma {:induction false} EventKeepsInv<R>(io: nat -> WriteOutcome, debounce: nat, t: Thread<R>, e: Event<R>,
                                            newest: nat)
    requires ThreadInv(t, newest)
    ensures var after := OnEvent(io, debounce, t, e);
            && ThreadInv(after, Max(newest, if e.Received? then e.command.snapshot.version else 0))
            && t.w.disk.version <= after.w.disk.version
  {
    hide Handle, Persist, Expire;
    if !t.stopped {
      match e
      case Received(command, now) => HandleKeepsInv(io, debounce, t.w, command, now, newest);
      case Expired(now) => if t.w.deadline.Some? { ExpireKeepsInv(io, debounce, t.w, now, newest); }
      case Disconnected => if t.w.pending.Some? { PersistNewest(io, t.w.(pending := None), t.w.pending.value); }
      case Empty =>
    }
  }

  /** Over any run, whatever order snapshots arrive in and whichever writes fail: the
      running writer has a deadline exactly when something is pending, every version
      it received is on disk or pending, and whoever was answered Ok finds on disk,
      then and for ever after, a version at least as new as the one asked for. */
  lemma {:induction false} RunKeepsInv<R>(io: nat -> WriteOutcome, debounce: nat, records: R, events: seq<Event<R>>)
    ensures ThreadInv(AfterEvents(io, debounce, records, events), Newest(events))
  {
    hide OnEvent, ThreadInv;
    if events == [] {
      LoadedInv(records);
    } else {
      var k := |events| - 1;
      RunKeepsInv(io, debounce, records, events[..k]);
      EventKeepsInv(io, debounce, AfterEvents(io, debounce, records, events[..k]), events[k], Newest(events[..k]));
    }
  }

  lemma LoadedInv<R>(records: R)
    ensures ThreadInv(Loaded(records), 0)
  {
  }

  /** Whatever came before: when the deadline expires, or the queue is closed, and the
      write succeeds, every version received so far is on disk. */
  lemma {:induction false} DeadlineReachesDisk<R>(io: nat -> WriteOutcome, debounce: nat, records: R,
                                                  events: seq<Event<R>>, e: Event<R>)
    requires e.Expired? || e.Disconnected?
    requires var t := AfterEvents(io, debounce, records, events); !t.stopped && io(t.w.writes).Written?
    ensures Newest(events) <= AfterEvents(io, debounce, records, events + [e]).w.disk.version
    ensures e.Expired? ==> AfterEvents(io, debounce, records, events + [e]).w.pending.None?
  {
    hide Expire, HangUp, Persist;
    RunKeepsInv(io, debounce, records, events);
    var t := AfterEvents(io, debounce, records, events);
    assert (events + [e])[..|events|] == events;
    if t.w.pending.Some? {
      match e
      case Expired(now) => ExpiryWrites(io, debounce, t.w, now, Newest(events));
      case Disconnected => HangUpWrites(io, t.w, Newest(events));
    } else {
      assert HangUp(io, t.w) == t.w by { hide *; NothingPending(io, t.w); }
    }
  }

  lemma NothingPending<R>(io: nat -> WriteOutcome, w: Writer<R>)
    requires w.pending.None?
    ensures HangUp(io, w) == w
  {
  }

  /** When every write succeeds, every flush and shutdown is answered Ok. */
  lemma {:induction false} GoodDiskAnswersOk<R>(io: nat -> WriteOutcome, debounce: nat, records: R,
                                                events: seq<Event<R>>)
    requires forall n: nat :: io(n).Written?
    ensures forall a :: a in AfterEvents(io, debounce, records, events).answers ==> a.reply.Done?
  {
    hide Handle, Expire, HangUp;
    if events != [] {
      var k := |events| - 1;
      GoodDiskAnswersOk(io, debounce, records, events[..k]);
      var t := AfterEvents(io, debounce, records, events[..k]);
      match events[k]
      case Received(Flush(given, call), now) => FlushAnswersWhen(io, debounce, t.w, given, call, now);
      case Received(Shutdown(given, call), now) => ShutdownAnswersWhen(io, debounce, t.w, given, call, now);
      case _ =>
    }
  }

  /** Every flush and shutdown that the running thread receives is answered, once. */
  lemma {:induction false} EachCallIsAnswered<R>(io: nat -> WriteOutcome, debounce: nat, t: Thread<R>,
                                                 command: Command<R>, now: nat)
    requires !t.stopped && !command.Update?
    ensures var after := OnEvent(io, debounce, t, Received(command, now));
            && |after.answers| == |t.answers| + 1 && after.answers[..|t.answers|] == t.answers
            && after.answers[|t.answers|].call == command.call
            && after.answers[|t.answers|].asked == command.snapshot
            && (after.stopped <==> command.Shutdown?)
  {
    hide Handle;
  }

  /** An update sets a deadline, and later ones do not put it off. */
  lemma UpdatesKeepDeadline<R>(io: nat -> WriteOutcome, debounce: nat, w: Writer<R>, given: Snapshot<R>, now: nat)
    ensures var after := Handle(io, debounce, w, Update(given), now).0;
            after.deadline == if w.deadline.Some? then w.deadline else Some(now + debounce)
  {
  }

  /** The version on disk never decreases. */
  lemma {:induction false} DiskNeverRegresses<R>(io: nat -> WriteOutcome, debounce: nat, records: R,
                                                 events: seq<Event<R>>, j: nat)
    requires j <= |events|
    ensures AfterEvents(io, debounce, records, events[..j]).w.disk.version
            <= AfterEvents(io, debounce, records, events).w.disk.version
    decreases |events|
  {
    hide OnEvent;
    if j == |events| {
      assert events[..j] == events;
    } else {
      var k := |events| - 1;
      DiskNeverRegresses(io, debounce, records, events[..k], j);
      assert events[..k][..j] == events[..j];
      RunKeepsInv(io, debounce, records, events[..k]);
      EventKeepsInv(io, debounce, AfterEvents(io, debounce, records, events[..k]), events[k], Newest(events[..k]));
    }
  }

  // ---- the callers --------------------------------------------------------------

  /** The store as its callers share it. `history[v]` is version v of the records;
      `inFlight` holds the commands whose snapshots were taken but not yet queued, and
      `calledAt[c]` is the version that was current when call c was made. */
  datatype Store<+R> = Store(history: seq<R>, calledAt: seq<nat>, inFlight: seq<Command<R>>, queue: seq<Command<R>>,
                             thread: Thread<R>)

  const META_QUEUE_CAPACITY: nat := 64

  datatype Action<+R> =
    | Mutate(records: R)
    | TakeForFlush
    | TakeForShutdown
    | Enqueue(i: nat)
    | Receive(now: nat)
    | TimeOut(now: nat)
    | Close

  function Current<R>(s: Store<R>): Snapshot<R>
    requires s.history != []
  {
    Snapshot(s.history[|s.history| - 1], |s.history| - 1)
  }

  /** One step: mutations and snapshots happen under the state lock, and the commands
      made from them may enter the queue in any order. */
  function Act<R>(io: nat -> WriteOutcome, debounce: nat, s: Store<R>, a: Action<R>): (after: Store<R>)
    requires s.history != []
    ensures after.history != []
  {
    match a
    case Mutate(records) =>
      var mutated := s.(history := s.history + [records]);
      mutated.(inFlight := s.inFlight + [Update(Current(mutated))])
    case TakeForFlush =>
      s.(inFlight := s.inFlight + [Flush(Current(s), |s.calledAt|)], calledAt := s.calledAt + [|s.history| - 1])
    case TakeForShutdown =>
      s.(inFlight := s.inFlight + [Shutdown(Current(s), |s.calledAt|)], calledAt := s.calledAt + [|s.history| - 1])
    case Enqueue(i) =>
      if i < |s.inFlight| && |s.queue| < META_QUEUE_CAPACITY then
        s.(queue := s.queue + [s.inFlight[i]], inFlight := s.inFlight[..i] + s.inFlight[i + 1..])
      else s
    case Receive(now) =>
      if s.queue != [] then
        s.(queue := s.queue[1..], thread := OnEvent(io, debounce, s.thread, Received(s.queue[0], now)))
      else s
    case TimeOut(now) => s.(thread := OnEvent(io, debounce, s.thread, Expired(now)))
    case Close => s.(thread := OnEvent(io, debounce, s.thread, Disconnected))
  }

  function AfterActions<R>(io: nat -> WriteOutcome, debounce: nat, records: R, actions: seq<Action<R>>): (s: Store<R>)
    ensures s.history != []
  {
    if actions == [] then Store([records], [], [], [], Loaded(records))
    else Act(io, debounce, AfterActions(io, debounce, records, actions[..|actions| - 1]), actions[|actions| - 1])
  }

  /** `snapshot` is a version of the history, records and all. */
  ghost predicate IsVersion<R>(history: seq<R>, snapshot: Snapshot<R>)
  {
    snapshot.version < |history| && history[snapshot.version] == snapshot.records
  }

  /** What a waiting call is given is no older than what was current when it was made. */
  ghost predicate Honours(calledAt: seq<nat>, call: nat, version: nat)
  {
    call < |calledAt| && calledAt[call] <= version
  }

  ghost predicate KnownCommand<R>(history: seq<R>, calledAt: seq<nat>, c: Command<R>)
  {
    IsVersion(history, c.snapshot) && (!c.Update? ==> Honours(calledAt, c.call, c.snapshot.version))
  }

  ghost predicate KnownAnswer<R>(history: seq<R>, calledAt: seq<nat>, a: Answer<R>)
  {
    IsVersion(history, a.asked) && IsVersion(history, a.disk) && Honours(calledAt, a.call, a.asked.version)
  }

  ghost predicate KnownThread<R>(history: seq<R>, calledAt: seq<nat>, t: Thread<R>)
  {
    && IsVersion(history, t.w.disk)
    && (t.w.pending.Some? ==> IsVersion(history, t.w.pending.value))
    && (forall a :: a in t.answers ==> KnownAnswer(history, calledAt, a))
    && (exists newest :: ThreadInv(t, newest))
  }

  ghost predicate StoreInv<R>(s: Store<R>)
  {
    && (forall c :: c in s.inFlight ==> KnownCommand(s.history, s.calledAt, c))
    && (forall c :: c in s.queue ==> KnownCommand(s.history, s.calledAt, c))
    && KnownThread(s.history, s.calledAt, s.thread)
  }

  lemma {:induction false} EventKnown<R>(io: nat -> WriteOutcome, debounce: nat, t: Thread<R>, e: Event<R>,
                                         history: seq<R>, calledAt: seq<nat>)
    requires KnownThread(history, calledAt, t)
    requires e.Received? ==> KnownCommand(history, calledAt, e.command)
    ensures KnownThread(history, calledAt, OnEvent(io, debounce, t, e))
  {
    hide Handle, Persist, Expire, ThreadInv, IsVersion, Honours;
    var newest :| ThreadInv(t, newest);
    EventKeepsInv(io, debounce, t, e, newest);
    if !t.stopped {
      RunningInv(t, newest);
      match e
      case Received(command, now) => HandleKeepsInv(io, debounce, t.w, command, now, newest);
      case Expired(now) => if t.w.deadline.Some? { ExpireKeepsInv(io, debounce, t.w, now, newest); }
      case Disconnected => if t.w.pending.Some? { PersistNewest(io, t.w.(pending := None), t.w.pending.value); }
      case Empty =>
    }
  }

  lemma RunningInv<R>(t: Thread<R>, newest: nat)
    requires ThreadInv(t, newest) && !t.stopped
    ensures Inv(t.w, newest)
  {
  }

  /** Growing the history or the list of calls leaves what is known known. */
  lemma {:induction false} KnownGrows<R>(s: Store<R>, history: seq<R>, calledAt: seq<nat>)
    requires StoreInv(s) && s.history <= history && s.calledAt <= calledAt
    ensures StoreInv(s.(history := history, calledAt := calledAt))
  {
    hide ThreadInv;
  }

  lemma {:induction false} ActKeepsInv<R>(io: nat -> WriteOutcome, debounce: nat, s: Store<R>, a: Action<R>)
    requires s.history != [] && StoreInv(s)
    ensures StoreInv(Act(io, debounce, s, a))
  {
    hide OnEvent, KnownThread;
    match a
    case Mutate(records) => KnownGrows(s, s.history + [records], s.calledAt);
    case TakeForFlush => KnownGrows(s, s.history, s.calledAt + [|s.history| - 1]);
    case TakeForShutdown => KnownGrows(s, s.history, s.calledAt + [|s.history| - 1]);
    case Receive(now) =>
      if s.queue != [] {
        assert s.queue[0] in s.queue;
        EventKnown(io, debounce, s.thread, Received(s.queue[0], now), s.history, s.calledAt);
      }
    case TimeOut(now) => EventKnown(io, debounce, s.thread, Expired(now), s.history, s.calledAt);
    case Close => EventKnown(io, debounce, s.thread, Disconnected, s.history, s.calledAt);
    case Enqueue(i) => if i < |s.inFlight| { assert s.inFlight[i] in s.inFlight; }
  }

  lemma {:induction false} StoreKeepsInv<R>(io: nat -> WriteOutcome, debounce: nat, records: R, actions: seq<Action<R>>)
    ensures StoreInv(AfterActions(io, debounce, records, actions))
  {
    hide Act, StoreInv;
    if actions == [] {
      FreshStore(io, debounce, records);
    } else {
      StoreKeepsInv(io, debounce, records, actions[..|actions| - 1]);
      ActKeepsInv(io, debounce, AfterActions(io, debounce, records, actions[..|actions| - 1]), actions[|actions| - 1]);
    }
  }

  lemma FreshStore<R>(io: nat -> WriteOutcome, debounce: nat, records: R)
    ensures StoreInv(AfterActions(io, debounce, records, []))
  {
    LoadedInv(records);
  }

  /** What was recorded of the history and of the calls stays. */
  ghost predicate Grows<R>(before: Store<R>, after: Store<R>)
  {
    before.history <= after.history && before.calledAt <= after.calledAt
  }

  lemma {:induction false} ActGrows<R>(io: nat -> WriteOutcome, debounce: nat, s: Store<R>, a: Action<R>)
    requires s.history != []
    ensures Grows(s, Act(io, debounce, s, a))
  {
    hide OnEvent;
  }

  lemma GrowsOn<R>(a: Store<R>, b: Store<R>, c: Store<R>)
    requires Grows(a, b) && Grows(b, c)
    ensures Grows(a, c)
  {
  }

  lemma {:induction false} HistoryStays<R>(io: nat -> WriteOutcome, debounce: nat, records: R, actions: seq<Action<R>>,
                                           i: nat)
    requires i <= |actions|
    ensures Grows(AfterActions(io, debounce, records, actions[..i]), AfterActions(io, debounce, records, actions))
  {
    hide Act;
    if i == |actions| {
      assert actions[..i] == actions;
    } else {
      var k := |actions| - 1;
      var s := AfterActions(io, debounce, records, actions[..k]);
      HistoryStays(io, debounce, records, actions[..k], i);
      assert actions[..k][..i] == actions[..i];
      ActGrows(io, debounce, s, actions[k]);
      GrowsOn(AfterActions(io, debounce, records, actions[..i]), s, AfterActions(io, debounce, records, actions));
    }
  }

  lemma {:induction false} CallIsRecorded<R>(io: nat -> WriteOutcome, debounce: nat, records: R,
                                             actions: seq<Action<R>>, i: nat)
    requires i < |actions| && (actions[i].TakeForFlush? || actions[i].TakeForShutdown?)
    ensures var before := AfterActions(io, debounce, records, actions[..i]);
            var s := AfterActions(io, debounce, records, actions);
            && |before.calledAt| < |s.calledAt|
            && s.calledAt[|before.calledAt|] == |before.history| - 1
  {
    HistoryStays(io, debounce, records, actions, i + 1);
    assert actions[..i + 1][..i] == actions[..i];
  }

  /** Whatever callers do and however their snapshots are reordered: when the flush or
      shutdown called at step i has been answered Ok, the file reloads to a version of
      the records that existed, at least as new as the one current at step i. */
  lemma {:induction false} FlushIsDurable<R>(io: nat -> WriteOutcome, debounce: nat, records: R,
                                             actions: seq<Action<R>>, i: nat, k: nat)
    requires i < |actions| && (actions[i].TakeForFlush? || actions[i].TakeForShutdown?)
    requires k < |AfterActions(io, debounce, records, actions).thread.answers|
    requires var answer := AfterActions(io, debounce, records, actions).thread.answers[k];
             answer.reply.Done? && answer.call == |AfterActions(io, debounce, records, actions[..i]).calledAt|
    ensures var before := AfterActions(io, debounce, records, actions[..i]);
            var s := AfterActions(io, debounce, records, actions);
            var file := s.thread.w.disk;
            && before.history <= s.history
            && |before.history| - 1 <= file.version < |s.history|
            && file.records == s.history[file.version]
  {
    hide AfterActions;
    StoreKeepsInv(io, debounce, records, actions);
    CallIsRecorded(io, debounce, records, actions, i);
    HistoryStays(io, debounce, records, actions, i);
    var s := AfterActions(io, debounce, records, actions);
    assert s.thread.answers[k] in s.thread.answers;
  }
}
