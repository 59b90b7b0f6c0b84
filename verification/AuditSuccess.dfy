/** When the audit log works: which failures of single calls its writer thread gets over,
    and what it then answers. */
module AuditSuccess {
  import opened Wrappers
  import opened Text
  import opened Tail
  import opened AuditDisk
  import opened AuditWriter
  import opened AuditRuns
  import opened AuditSnapshot
  import opened AuditTail

  // ---- one call, retried ------------------------------------------------------------

  /** The first call that succeeds. */
  function FirstDone(io: Script, tick: nat, n: nat): (t: nat)
    requires SucceedsWithin(io, tick, n)
    ensures tick <= t < tick + n && io(t).Done?
    decreases n
  {
    if io(tick).Done? then tick else FirstDone(io, tick + 1, n - 1)
  }

  lemma {:induction false} FlushRetried(io: Script, disk: Disk, tick: nat, max: nat, number: nat)
    requires 1 <= number <= max
    ensures var r := RetryFrom(FlushLog, max, (d, t) => CallAttempt(io, d, t), disk, tick, number);
            && (r.status.Ok? <==> SucceedsWithin(io, tick, max - number + 1))
            && (r.status.Ok? ==> r.tick == FirstDone(io, tick, max - number + 1) + 1)
    decreases max - number
  {
    if io(tick).Failed? && io(tick).transient && number < max {
      FlushRetried(io, disk, tick + 1, max, number + 1);
    }
  }

  lemma {:induction false} SyncRetried(io: Script, disk: Disk, tick: nat, max: nat, number: nat)
    requires 1 <= number <= max
    ensures RetryFrom(SyncLog, max, (d, t) => SyncAttempt(io, d, t), disk, tick, number).status.Ok?
            <==> SucceedsWithin(io, tick, max - number + 1)
    decreases max - number
  {
    if io(tick).Failed? && io(tick).transient && number < max {
      SyncRetried(io, disk, tick + 1, max, number + 1);
    }
  }

  lemma {:induction false} OpenRetried(io: Script, disk: Disk, tick: nat, max: nat, number: nat)
    requires 1 <= number <= max
    ensures RetryFrom(OpenLog, max, (d, t) => OpenAttempt(io, d, t), disk, tick, number).status.Ok?
            <==> SucceedsWithin(io, tick, max - number + 1)
    decreases max - number
  {
    if io(tick).Failed? && io(tick).transient && number < max {
      OpenRetried(io, disk, tick + 1, max, number + 1);
    }
  }

  // ---- what a command is answered -----------------------------------------------------

  /** The flush succeeds within its attempts, and then the sync within its own. */
  predicate FlushSucceeds(io: Script, tick: nat, max: nat)
  {
    SucceedsWithin(io, tick, max) && SucceedsWithin(io, FirstDone(io, tick, max) + 1, max)
  }

  lemma {:induction false} FlushOkWhen(cfg: Config, io: Script, w: Writer)
    requires w.open
    ensures FlushAndSync(cfg, io, w).1.Ok? <==> FlushSucceeds(io, w.tick, Attempts(cfg.maxAttempts))
  {
    hide RetryFrom, SucceedsWithin;
    FlushRetried(io, w.disk, w.tick, Attempts(cfg.maxAttempts), 1);
    var f := Retry(FlushLog, cfg.maxAttempts, (d, t) => CallAttempt(io, d, t), w.disk, w.tick);
    SyncRetried(io, w.disk, f.tick, Attempts(cfg.maxAttempts), 1);
  }

  /** A barrier, shutdown or export of an open log without a terminal error is answered Ok,
      and sets none, exactly when its flush and its sync succeed within their attempts;
      otherwise it is answered with the error it sets. */
  lemma {:induction false} AnsweredOkWhen(cfg: Config, env: Env, w: Writer, command: Command)
    requires w.open && w.terminal.None? && (IsBarrier(command) || command.Export?)
    ensures var (after, reply) := Step(cfg, env, w, command);
            if FlushSucceeds(env.io, w.tick, Attempts(cfg.maxAttempts)) then
              && after.terminal.None? && after.open
              && reply == (if command.Export? then Exported(Ok, ExportText(SnapshotFiles(after.disk))) else Flushed(Ok))
            else
              && after.terminal.Some?
              && reply == (if command.Export? then Exported(Err(after.terminal.value), [])
                           else Flushed(Err(after.terminal.value)))
  {
    hide FlushAndSync, FlushSucceeds, ExportText, SnapshotFiles;
    FlushOkWhen(cfg, env.io, w);
    FlushSyncs(cfg, env.io, w);
  }

  /** A periodic flush, whatever becomes of it, sets no error, and neither does a tail read
      whose flush and sync succeed. */
  lemma {:induction false} OthersSetNoError(cfg: Config, env: Env, w: Writer, command: Command)
    requires w.open && w.terminal.None?
    requires command.PeriodicFlush?
             || (command.Tail? && FlushSucceeds(env.io, w.tick, Attempts(cfg.maxAttempts)))
    ensures var after := Step(cfg, env, w, command).0;
            after.terminal.None? && after.open
  {
    hide FlushAndSync, FlushSucceeds, SnapshotFiles;
    FlushOkWhen(cfg, env.io, w);
    FlushSyncs(cfg, env.io, w);
  }

  /** The thread starts without an error exactly when the log can be opened within the
      attempts. */
  lemma {:induction false} StartsOkWhen(cfg: Config, env: Env, disk: Disk, tick: nat)
    ensures var w := Start(cfg, env, disk, tick);
            if SucceedsWithin(env.io, tick, Attempts(cfg.maxAttempts)) then w.open && w.terminal.None?
            else !w.open && w.terminal.Some?
  {
    hide RetryFrom, SucceedsWithin;
    OpenRetried(env.io, disk, tick, Attempts(cfg.maxAttempts), 1);
  }

  /** A tail read answers with the files of the log as it stands, active log first, and the
      limit it was asked for. So while the log is quiet, every line parses and no file is
      over the cap, its reader gets the last `limit` records, whatever became of the flush. */
  lemma {:induction false} TailIsLast<R>(cfg: Config, env: Env, w: Writer, limit: nat, parse: Bytes -> Option<R>,
                                         dirs: nat -> Directory, broken: nat -> bool)
    returns (snapshot: Snapshot)
    requires forall i :: dirs(i) == Names(Step(cfg, env, w, AuditWriter.Tail(limit)).0.disk) && !broken(i)
    requires var files := SnapshotFiles(Step(cfg, env, w, AuditWriter.Tail(limit)).0.disk);
             EveryLineParses(parse, files) && forall f :: 0 <= f < |files| ==> |files[f]| <= 4_194_304
    ensures var (after, reply) := Step(cfg, env, w, AuditWriter.Tail(limit));
            && SameBytes(w.disk, after.disk)
            && Open(dirs, broken) == Opened(snapshot)
            && reply == Tailed(Contents(after.disk, Files(snapshot.current, snapshot.archives)), limit)
            && Recent(parse, reply.files, reply.limit) == LastN(AllRecords(parse, reply.files), limit)
  {
    hide FlushWriter, Recent, AllRecords, EveryLineParses, Open, SameBytes;
    var (after, reply) := Step(cfg, env, w, AuditWriter.Tail(limit));
    snapshot := QuietSnapshot(after.disk, dirs, broken);
    RecentIsLast(parse, SnapshotFiles(after.disk), limit);
    OnlyRecordsChangeBytes(cfg, env, w, AuditWriter.Tail(limit));
  }

  // ---- failures the writer gets over ---------------------------------------------------

  /** From t on d calls fail transiently, and then n calls succeed. */
  ghost predicate Recovers(io: Script, t: nat, d: nat, n: nat)
  {
    && (forall k: nat | t <= k < t + d :: io(k).Failed? && io(k).transient)
    && (forall k: nat | t + d <= k < t + d + n :: io(k).Done?)
  }

  /** Fewer calls than there are attempts fail in a row, and after them as many succeed as
      a rotation needs; and a write that succeeds takes something. */
  ghost predicate Forgiving(cfg: Config, io: Script)
  {
    && (forall t: nat | io(t).Failed? ::
          exists d: nat :: 0 < d < Attempts(cfg.maxAttempts) && Recovers(io, t, d, cfg.Kept()))
    && (forall t: nat | io(t).Done? :: io(t).count > 0)
  }

  /** When no call fails, whatever the configuration. */
  lemma {:induction false} NoFailureForgiving(cfg: Config, io: Script)
    requires forall t: nat :: io(t).Done? && io(t).count > 0
    ensures Forgiving(cfg, io)
  {
  }

  lemma {:induction false} RecoverySucceeds(io: Script, t: nat, d: nat, n: nat, max: nat)
    requires Recovers(io, t, d, n) && n >= 1 && d < max
    ensures SucceedsWithin(io, t, max)
    decreases d
  {
    if d > 0 {
      assert io(t).Failed?;
      RecoverySucceeds(io, t + 1, d - 1, n, max - 1);
    } else {
      assert io(t).Done?;
    }
  }

  lemma {:induction false} ForgivenSucceeds(cfg: Config, io: Script, t: nat)
    requires Forgiving(cfg, io)
    ensures SucceedsWithin(io, t, Attempts(cfg.maxAttempts))
  {
    hide Recovers;
    if io(t).Failed? {
      var d: nat :| 0 < d < Attempts(cfg.maxAttempts) && Recovers(io, t, d, cfg.Kept());
      RecoverySucceeds(io, t, d, cfg.Kept(), Attempts(cfg.maxAttempts));
    }
  }

  lemma ForgivenFlush(cfg: Config, io: Script, t: nat)
    requires Forgiving(cfg, io)
    ensures FlushSucceeds(io, t, Attempts(cfg.maxAttempts))
  {
    hide Forgiving, SucceedsWithin;
    ForgivenSucceeds(cfg, io, t);
    ForgivenSucceeds(cfg, io, FirstDone(io, t, Attempts(cfg.maxAttempts)) + 1);
  }

  // ---- a rotation ---------------------------------------------------------------------------

  /** A pass that does not complete ends with a call that failed. */
  lemma {:induction false} RenamesEnd(io: Script, disk: Disk, tick: nat, g: nat) returns (u: nat)
    requires RenamesStopAt(io, tick, g) > 0
    ensures u >= tick && io(u).Failed?
    ensures RenameDown(io, disk, tick, g).last == io(u) && RenameDown(io, disk, tick, g).tick == u + 1
    decreases g
  {
    hide Rename;
    u := tick;
    if io(tick).Done? {
      u := RenamesEnd(io, Rename(disk, g), tick + 1, g - 1);
    }
  }

  lemma {:induction false} PassEnds(io: Script, retain: nat, disk: Disk, tick: nat) returns (u: nat)
    requires retain >= 1 && StopsAt(io, retain, tick) > 0
    ensures u >= tick && io(u).Failed?
    ensures RotateOnce(io, retain, disk, tick).last == io(u) && RotateOnce(io, retain, disk, tick).tick == u + 1
  {
    hide RenameDown, RenamesStopAt;
    u := tick;
    if io(tick).Done? && retain > 1 {
      u := RenamesEnd(io, Remove(disk, retain - 1), tick + 1, retain - 2);
    }
  }

  /** d calls fail, one pass each, and then a pass completes. */
  lemma {:induction false} RotationRecovers(cfg: Config, io: Script, disk: Disk, tick: nat, number: nat, d: nat)
    requires 1 <= number && number + d <= Attempts(cfg.maxAttempts) && Recovers(io, tick, d, cfg.Kept())
    ensures var attempt := (dd, t) => RotateOnce(io, cfg.Kept(), dd, t);
            RetryFrom(RotateFiles, Attempts(cfg.maxAttempts), attempt, disk, tick, number).status.Ok?
    decreases d
  {
    hide RotateOnce, StopsAt;
    RotateShifts(io, cfg.Kept(), disk, tick);
    if d == 0 {
      NoFailureNoStop(io, cfg.Kept(), tick);
    } else {
      assert io(tick).Failed? && io(tick).transient;
      var u := PassEnds(io, cfg.Kept(), disk, tick);
      FailsAtOnce(io, cfg.Kept(), disk, tick);
      RotationRecovers(cfg, io, disk, tick + 1, number + 1, d - 1);
    }
  }

  lemma FailsAtOnce(io: Script, retain: nat, disk: Disk, tick: nat)
    requires retain >= 1 && io(tick).Failed?
    ensures RotateOnce(io, retain, disk, tick) == Attempt(disk, tick + 1, io(tick))
  {
  }

  lemma {:induction false} RotationSucceeds(cfg: Config, io: Script, disk: Disk, tick: nat)
    requires Forgiving(cfg, io)
    ensures var attempt := (d, t) => RotateOnce(io, cfg.Kept(), d, t);
            Retry(RotateFiles, cfg.maxAttempts, attempt, disk, tick).status.Ok?
  {
    hide RotateOnce, StopsAt;
    RotateShifts(io, cfg.Kept(), disk, tick);
    if StopsAt(io, cfg.Kept(), tick) > 0 {
      var u := PassEnds(io, cfg.Kept(), disk, tick);
      var d: nat :| 0 < d < Attempts(cfg.maxAttempts) && Recovers(io, u, d, cfg.Kept());
      assert io(u).transient;
      assert Recovers(io, u + 1, d - 1, cfg.Kept());
      RotationRecovers(cfg, io, RotateOnce(io, cfg.Kept(), disk, tick).state, u + 1, 2, d - 1);
    }
  }

  // ---- a record ----------------------------------------------------------------------------

  lemma {:induction false} WriteRetried(io: Script, file: LogFile, bytes: Bytes, tick: nat, max: nat, number: nat)
    requires 1 <= number <= max && SucceedsWithin(io, tick, max - number + 1) && bytes != []
    requires forall t: nat | io(t).Done? :: io(t).count > 0
    ensures var r := RetryFrom(Append, max, (f, t) => WriteAttempt(io, f, bytes, t), file, tick, number);
            r.status.Ok? && |r.state.data| > |file.data|
    decreases max - number
  {
    if io(tick).Failed? {
      assert file.data + bytes[..0] == file.data;
      WriteRetried(io, file, bytes, tick + 1, max, number + 1);
    }
  }

  lemma {:induction false} WriteSucceeds(cfg: Config, io: Script, file: LogFile, bytes: Bytes, tick: nat)
    requires Forgiving(cfg, io)
    ensures WriteFrom(cfg, io, file, bytes, tick).status.Ok?
    decreases |bytes|
  {
    hide RetryFrom, SucceedsWithin;
    if bytes != [] {
      ForgivenSucceeds(cfg, io, tick);
      WriteRetried(io, file, bytes, tick, Attempts(cfg.maxAttempts), 1);
      WriteTakesPrefix(cfg, io, file, bytes, tick, 1);
      var r := Retry(Append, cfg.maxAttempts, (f, t) => WriteAttempt(io, f, bytes, t), file, tick);
      var written := |r.state.data| - |file.data|;
      WriteSucceeds(cfg, io, r.state, bytes[written..], r.tick);
    }
  }

  lemma {:induction false} RoomSucceeds(cfg: Config, env: Env, w: Writer, encoded: Bytes)
    requires Forgiving(cfg, env.io) && w.open
    ensures var (ready, status) := MakeRoom(cfg, env, w, encoded);
            status.Ok? && ready.open && ready.terminal == w.terminal
  {
    hide RetryFrom, Forgiving, FlushSucceeds, SucceedsWithin;
    if MustRotate(cfg, w, encoded) {
      ForgivenFlush(cfg, env.io, w.tick);
      FlushOkWhen(cfg, env.io, w);
      FlushSyncs(cfg, env.io, w);
      var closed := DropWriter(env.io, FlushAndSync(cfg, env.io, w).0);
      RotationSucceeds(cfg, env.io, closed.disk, closed.tick);
      var (rotated, rs) := RotateActiveWriter(cfg, env.io, w);
      ForgivenSucceeds(cfg, env.io, rotated.tick);
      OpenRetried(env.io, rotated.disk, rotated.tick, Attempts(cfg.maxAttempts), 1);
    }
  }

  lemma {:induction false} PersistSucceeds(cfg: Config, env: Env, w: Writer, encoded: Bytes)
    requires Forgiving(cfg, env.io) && w.open
    ensures var (after, status) := PersistRecord(cfg, env, w, encoded);
            status.Ok? && after.open && after.terminal == w.terminal
  {
    hide MakeRoom, WriteFrom, Forgiving;
    RoomSucceeds(cfg, env, w, encoded);
    var ready := MakeRoom(cfg, env, w, encoded).0;
    WriteSucceeds(cfg, env.io, if 0 in ready.disk then ready.disk[0] else LogFile([], 0), encoded, ready.tick);
  }

  // ---- whole runs -------------------------------------------------------------------------

  /** The answer of a command that met no error. */
  ghost predicate AnsweredOk(command: Command, after: Writer, reply: Reply)
  {
    match command
    case Record(_) => reply == NoReply
    case PeriodicFlush => reply == NoReply
    case Barrier => reply == Flushed(Ok)
    case Shutdown => reply == Flushed(Ok)
    case Export => reply == Exported(Ok, ExportText(SnapshotFiles(after.disk)))
    case Tail(limit) => reply == Tailed(SnapshotFiles(after.disk), limit)
  }

  lemma {:induction false} StepSucceeds(cfg: Config, env: Env, w: Writer, command: Command)
    requires Forgiving(cfg, env.io) && w.open && w.terminal.None?
    ensures var (after, reply) := Step(cfg, env, w, command);
            after.open && after.terminal.None? && AnsweredOk(command, after, reply)
  {
    hide PersistRecord, FlushWriter, FlushSucceeds, ExportText, SnapshotFiles, Forgiving;
    ForgivenFlush(cfg, env.io, w.tick);
    if command.Record? {
      PersistSucceeds(cfg, env, w, command.encoded);
    } else if command.PeriodicFlush? || command.Tail? {
      OthersSetNoError(cfg, env, w, command);
    } else {
      AnsweredOkWhen(cfg, env, w, command);
    }
  }

  lemma {:induction false} StartSucceeds(cfg: Config, env: Env, disk: Disk, tick: nat)
    requires Forgiving(cfg, env.io)
    ensures var w := Start(cfg, env, disk, tick);
            w.open && w.terminal.None?
  {
    hide RetryFrom, Forgiving, SucceedsWithin;
    ForgivenSucceeds(cfg, env.io, tick);
    OpenRetried(env.io, disk, tick, Attempts(cfg.maxAttempts), 1);
  }

  /** Over every run: as long as failures are transient, in shorter rows than there are
      attempts, and followed by as many successes as a rotation makes calls, no command
      meets an error, and each is answered accordingly. */
  lemma {:induction false} RunSucceeds(cfg: Config, env: Env, disk: Disk, tick: nat, commands: seq<Command>)
    requires Forgiving(cfg, env.io)
    ensures var start := Start(cfg, env, disk, tick);
            var after := Run(cfg, env, start, commands);
            && after.open && after.terminal.None?
            && (commands != [] ==> AnsweredOk(commands[|commands| - 1], after, LastReply(cfg, env, start, commands)))
  {
    hide Forgiving, Start, Step, AnsweredOk;
    if commands == [] {
      StartSucceeds(cfg, env, disk, tick);
    } else {
      var k := |commands| - 1;
      RunSucceeds(cfg, env, disk, tick, commands[..k]);
      StepSucceeds(cfg, env, Run(cfg, env, Start(cfg, env, disk, tick), commands[..k]), commands[k]);
    }
  }

  // ---- when no call fails ---------------------------------------------------------------------

  /** What the generations hold after one complete rotation and an opening. */
  lemma {:induction false} RotatesWithoutFailure(cfg: Config, env: Env, w: Writer, encoded: Bytes)
    requires forall t: nat :: env.io(t).Done?
    requires w.open && 0 in w.disk && MustRotate(cfg, w, encoded)
    ensures var (ready, status) := MakeRoom(cfg, env, w, encoded);
            && status.Ok? && ready.open && ready.terminal == w.terminal
            && 0 in ready.disk && ready.disk[0].data == [] && ready.currentBytes == 0
            && forall g: nat {:trigger Data(ready.disk, g)} ::
                 Data(ready.disk, g)
                 == if g == 0 then [] else if g < cfg.Kept() then Data(w.disk, g - 1) else Data(w.disk, g)
  {
    hide RetryFrom, Shifted, FlushAndSync, DropWriter;
    ClosesWithoutFailure(cfg, env.io, w);
    var closed := DropWriter(env.io, FlushAndSync(cfg, env.io, w).0);
    OnePassWithoutFailure(cfg, env.io, closed.disk, closed.tick);
    forall g: nat
      ensures Data(Shifted(closed.disk, cfg.Kept(), 0), g)
              == if g == 0 then [] else if g < cfg.Kept() then Data(w.disk, g - 1) else Data(w.disk, g)
    {
      ShiftedData(closed.disk, cfg.Kept(), 0, g);
    }
    var (rotated, rs) := RotateActiveWriter(cfg, env.io, w);
    assert rs.Ok? && rotated.disk == Shifted(closed.disk, cfg.Kept(), 0);
    ShiftedData(closed.disk, cfg.Kept(), 0, 0);
    OpensWithoutFailure(cfg, env, rotated);
    assert MakeRoom(cfg, env, w, encoded) == EnsureWriter(cfg, env, rotated) by {
      hide *;
      RoomAfterRotation(cfg, env, w, encoded);
    }
  }

  lemma RoomAfterRotation(cfg: Config, env: Env, w: Writer, encoded: Bytes)
    requires w.open && MustRotate(cfg, w, encoded) && RotateActiveWriter(cfg, env.io, w).1.Ok?
    ensures MakeRoom(cfg, env, w, encoded) == EnsureWriter(cfg, env, RotateActiveWriter(cfg, env.io, w).0)
  {
  }

  lemma {:induction false} ClosesWithoutFailure(cfg: Config, io: Script, w: Writer)
    requires forall t: nat :: io(t).Done?
    requires w.open && 0 in w.disk
    ensures var (flushed, status) := FlushAndSync(cfg, io, w);
            var closed := DropWriter(io, flushed);
            && status.Ok? && !closed.open && closed.terminal == w.terminal
            && forall g: nat :: Data(closed.disk, g) == Data(w.disk, g)
  {
  }

  lemma {:induction false} OnePassWithoutFailure(cfg: Config, io: Script, disk: Disk, tick: nat)
    requires forall t: nat :: io(t).Done?
    ensures var r := Retry(RotateFiles, cfg.maxAttempts, (d, t) => RotateOnce(io, cfg.Kept(), d, t), disk, tick);
            r.status.Ok? && r.state == Shifted(disk, cfg.Kept(), 0)
  {
    hide RotateOnce, Shifted;
    RotateShifts(io, cfg.Kept(), disk, tick);
    NoFailureNoStop(io, cfg.Kept(), tick);
  }

  lemma {:induction false} OpensWithoutFailure(cfg: Config, env: Env, w: Writer)
    requires forall t: nat :: env.io(t).Done?
    requires !w.open && Data(w.disk, 0) == []
    ensures var (after, status) := EnsureWriter(cfg, env, w);
            && status.Ok? && after.open && after.terminal == w.terminal
            && 0 in after.disk && after.disk[0].data == [] && after.currentBytes == 0
            && forall g: nat {:trigger Data(after.disk, g)} :: Data(after.disk, g) == Data(w.disk, g)
  {
  }

  /** With no failing call a record is appended to the active log: to the one that is there,
      if that is empty, or there is no size limit, or the record fits beside what is there;
      otherwise every retained generation moves up by one and the record starts a new log. */
  lemma {:induction false} RecordWithoutFailure(cfg: Config, env: Env, w: Writer, encoded: Bytes)
    requires forall t: nat :: env.io(t).Done? && env.io(t).count > 0
    requires w.open && w.terminal.None? && 0 in w.disk
    requires w.currentBytes == |w.disk[0].data| && |w.disk[0].data| + |encoded| <= U64_MAX
    ensures var after, active := Step(cfg, env, w, Record(encoded)).0, Data(w.disk, 0);
            && after.open && after.terminal.None? && 0 in after.disk
            && after.currentBytes == |after.disk[0].data|
            && if active == [] || cfg.maxFileBytes == 0 || |active| + |encoded| <= cfg.maxFileBytes then
                 forall g: nat {:trigger Data(after.disk, g)} ::
                   Data(after.disk, g) == if g == 0 then active + encoded else Data(w.disk, g)
               else
                 forall g: nat {:trigger Data(after.disk, g)} ::
                   Data(after.disk, g)
                   == if g == 0 then encoded else if g < cfg.Kept() then Data(w.disk, g - 1) else Data(w.disk, g)
  {
    hide RetryFrom, MakeRoom, WriteFrom, Forgiving, MustRotate, DropWriter;
    RotatesWhen(cfg, w, encoded);
    if MustRotate(cfg, w, encoded) {
      RotatesWithoutFailure(cfg, env, w, encoded);
    } else {
      RoomStays(cfg, env, w, encoded);
    }
    var ready := MakeRoom(cfg, env, w, encoded).0;
    NoFailureForgiving(cfg, env.io);
    WriteSucceeds(cfg, env.io, ready.disk[0], encoded, ready.tick);
    var k := WriteAppends(cfg, env.io, ready.disk[0], encoded, ready.tick);
    assert encoded[..k] == encoded && [] + encoded == encoded;
    var (after, status) := PersistRecord(cfg, env, w, encoded);
    assert status.Ok? && after.disk[0].data == ready.disk[0].data + encoded;
    assert forall g: nat {:trigger Data(after.disk, g)} ::
        Data(after.disk, g) == if g == 0 then ready.disk[0].data + encoded else Data(ready.disk, g);
  }

  lemma RotatesWhen(cfg: Config, w: Writer, encoded: Bytes)
    requires 0 in w.disk && w.currentBytes == |w.disk[0].data| && |w.disk[0].data| + |encoded| <= U64_MAX
    ensures MustRotate(cfg, w, encoded)
            <==> w.disk[0].data != [] && cfg.maxFileBytes > 0 && |w.disk[0].data| + |encoded| > cfg.maxFileBytes
  {
  }

  lemma RoomStays(cfg: Config, env: Env, w: Writer, encoded: Bytes)
    requires w.open && !MustRotate(cfg, w, encoded)
    ensures MakeRoom(cfg, env, w, encoded) == (w, Ok)
  {
  }

  /** The log in its simplest form: the texts of the retained generations, active log first. */
  function Logged(cfg: Config, texts: seq<Bytes>, encoded: Bytes): (next: seq<Bytes>)
    requires texts != []
    ensures |next| == |texts|
  {
    var active := texts[0];
    if active == [] || cfg.maxFileBytes == 0 || |active| + |encoded| <= cfg.maxFileBytes then
      texts[0 := active + encoded]
    else [encoded] + texts[..|texts| - 1]
  }

  function LoggedBy(cfg: Config, texts: seq<Bytes>, commands: seq<Command>): (after: seq<Bytes>)
    requires texts != []
    ensures |after| == |texts|
  {
    if commands == [] then texts
    else
      var k := |commands| - 1;
      var before := LoggedBy(cfg, texts, commands[..k]);
      if commands[k].Record? then Logged(cfg, before, commands[k].encoded) else before
  }

  ghost predicate HoldsTexts(disk: Disk, texts: seq<Bytes>)
  {
    0 in disk && forall g :: 0 <= g < |texts| ==> Data(disk, g) == texts[g]
  }

  /** The bytes of all records. */
  function Length(commands: seq<Command>): nat
  {
    if commands == [] then 0
    else
      var k := |commands| - 1;
      Length(commands[..k]) + if commands[k].Record? then |commands[k].encoded| else 0
  }

  lemma {:induction false} OtherWithoutFailure(cfg: Config, env: Env, w: Writer, command: Command)
    requires forall t: nat :: env.io(t).Done? && env.io(t).count > 0
    requires w.open && w.terminal.None? && 0 in w.disk && !command.Record?
    ensures var after := Step(cfg, env, w, command).0;
            && after.open && after.terminal.None? && 0 in after.disk && after.currentBytes == w.currentBytes
            && forall g: nat {:trigger Data(after.disk, g)} :: Data(after.disk, g) == Data(w.disk, g)
  {
    hide FlushAndSync, ExportText, SnapshotFiles;
    FlushesWithoutFailure(cfg, env.io, w);
  }

  lemma {:induction false} FlushesWithoutFailure(cfg: Config, io: Script, w: Writer)
    requires forall t: nat :: io(t).Done?
    requires w.open && 0 in w.disk
    ensures var (flushed, status) := FlushAndSync(cfg, io, w);
            && status.Ok? && flushed.open && flushed.terminal == w.terminal && 0 in flushed.disk
            && flushed.currentBytes == w.currentBytes
            && forall g: nat :: Data(flushed.disk, g) == Data(w.disk, g)
  {
  }

  lemma {:induction false} RecordHolds(cfg: Config, disk: Disk, after: Disk, texts: seq<Bytes>, encoded: Bytes)
    requires |texts| == cfg.Kept() && HoldsTexts(disk, texts) && 0 in after
    requires if texts[0] == [] || cfg.maxFileBytes == 0 || |texts[0]| + |encoded| <= cfg.maxFileBytes then
               forall g: nat {:trigger Data(after, g)} ::
                 Data(after, g) == if g == 0 then texts[0] + encoded else Data(disk, g)
             else
               forall g: nat {:trigger Data(after, g)} ::
                 Data(after, g)
                 == if g == 0 then encoded else if g < cfg.Kept() then Data(disk, g - 1) else Data(disk, g)
    ensures HoldsTexts(after, Logged(cfg, texts, encoded))
  {
    var next := Logged(cfg, texts, encoded);
    forall g: nat | g < |next| ensures Data(after, g) == next[g] {
      assert g > 0 ==> Data(disk, g) == texts[g] && Data(disk, g - 1) == texts[g - 1];
    }
  }

  /** With no failing call, over any run, the files hold what the simplest form says. */
  lemma {:induction false} RunWithoutFailure(cfg: Config, env: Env, w: Writer, commands: seq<Command>,
                                             texts: seq<Bytes>)
    requires forall t: nat :: env.io(t).Done? && env.io(t).count > 0
    requires w.open && w.terminal.None? && |texts| == cfg.Kept() && HoldsTexts(w.disk, texts)
    requires w.currentBytes == |texts[0]| && |texts[0]| + Length(commands) <= U64_MAX
    ensures var after := Run(cfg, env, w, commands);
            && after.open && after.terminal.None? && after.currentBytes == |LoggedBy(cfg, texts, commands)[0]|
            && HoldsTexts(after.disk, LoggedBy(cfg, texts, commands))
    ensures |LoggedBy(cfg, texts, commands)[0]| <= |texts[0]| + Length(commands)
    decreases |commands|
  {
    hide Step;
    if commands != [] {
      var k := |commands| - 1;
      RunWithoutFailure(cfg, env, w, commands[..k], texts);
      var before := Run(cfg, env, w, commands[..k]);
      if commands[k].Record? {
        RecordWithoutFailure(cfg, env, before, commands[k].encoded);
        assert Data(before.disk, 0) == LoggedBy(cfg, texts, commands[..k])[0];
        RecordHolds(cfg, before.disk, Run(cfg, env, w, commands).disk, LoggedBy(cfg, texts, commands[..k]),
                    commands[k].encoded);
      } else {
        OtherWithoutFailure(cfg, env, before, commands[k]);
      }
    }
  }

  /** So from the start of the writer on, if the length of the log can be read. */
  lemma {:induction false} LogWithoutFailure(cfg: Config, env: Env, disk: Disk, tick: nat, commands: seq<Command>)
    requires forall t: nat :: env.io(t).Done? && env.io(t).count > 0
    requires forall t: nat :: env.metadata(t)
    requires |Data(disk, 0)| + Length(commands) <= U64_MAX
    ensures HoldsTexts(Run(cfg, env, Start(cfg, env, disk, tick), commands).disk,
                       LoggedBy(cfg, seq(cfg.Kept(), g requires 0 <= g => Data(disk, g)), commands))
  {
    hide Run, LoggedBy, Length;
    var texts := seq(cfg.Kept(), g requires 0 <= g => Data(disk, g));
    RunWithoutFailure(cfg, env, Start(cfg, env, disk, tick), commands, texts);
  }
}
