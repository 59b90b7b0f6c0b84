/** The errors that the audit writer reports (crates/server/src/audit.rs): none is made up,
    each is one that some call returned. */
module AuditErrors {
  import opened Wrappers
  import opened Text
  import opened AuditDisk
  import opened AuditWriter

  ghost predicate FromScript(io: Script, o: Outcome) { exists t: nat :: io(t) == o }

  /** The error is the last failure of a call that was tried until it failed for good: with a
      failure that is not transient, or as often as allowed. Or a write took nothing. */
  ghost predicate IsReal(cfg: Config, io: Script, e: IoError)
  {
    match e
    case IoError(_, attempt, transient, cause) =>
      && FromScript(io, Failed(transient, cause))
      && 1 <= attempt <= AtLeast(cfg.maxAttempts, 1)
      && (transient ==> attempt == AtLeast(cfg.maxAttempts, 1))
    case WroteNothing => FromScript(io, Done(0))
  }

  ghost predicate RealStatus(cfg: Config, io: Script, status: Status) { status.Err? ==> IsReal(cfg, io, status.error) }

  ghost predicate RealTerminal(cfg: Config, io: Script, w: Writer)
  {
    w.terminal.Some? ==> IsReal(cfg, io, w.terminal.value)
  }

  /** Every failing attempt fails as some call did. */
  ghost predicate Reports<S(!new)>(io: Script, attempt: (S, nat) -> Attempt<S>)
  {
    forall s: S, t: nat :: attempt(s, t).last.Failed? ==> FromScript(io, attempt(s, t).last)
  }

  lemma {:induction false} RetryIsReal<S(!new)>(cfg: Config, io: Script, operation: Operation,
                                                attempt: (S, nat) -> Attempt<S>, state: S, tick: nat, number: nat)
    requires 1 <= number <= Attempts(cfg.maxAttempts) && Reports(io, attempt)
    ensures RealStatus(cfg, io, RetryFrom(operation, Attempts(cfg.maxAttempts), attempt, state, tick, number).status)
    decreases Attempts(cfg.maxAttempts) - number
  {
    hide FromScript;
    var a := attempt(state, tick);
    if a.last.Failed? && a.last.transient && number < Attempts(cfg.maxAttempts) {
      RetryIsReal(cfg, io, operation, attempt, a.state, a.tick, number + 1);
    }
  }

  lemma {:induction false} EnsureIsReal(cfg: Config, env: Env, w: Writer)
    ensures RealStatus(cfg, env.io, EnsureWriter(cfg, env, w).1) && EnsureWriter(cfg, env, w).0.terminal == w.terminal
  {
    hide RetryFrom, RealStatus;
    var attempt := (disk: Disk, t: nat) => OpenAttempt(env.io, disk, t);
    RetryIsReal(cfg, env.io, OpenLog, attempt, w.disk, w.tick, 1);
    assert RealStatus(cfg, env.io, Ok) by { OkIsReal(cfg, env.io); }
  }

  lemma OkIsReal(cfg: Config, io: Script)
    ensures RealStatus(cfg, io, Ok)
  {
  }

  lemma {:induction false} FlushIsReal(cfg: Config, io: Script, w: Writer)
    ensures RealStatus(cfg, io, FlushAndSync(cfg, io, w).1) && FlushAndSync(cfg, io, w).0.terminal == w.terminal
  {
    hide RetryFrom, RealStatus;
    OkIsReal(cfg, io);
    var flush := (d: Disk, t: nat) => CallAttempt(io, d, t);
    RetryIsReal(cfg, io, FlushLog, flush, w.disk, w.tick, 1);
    var tick := Retry(FlushLog, cfg.maxAttempts, flush, w.disk, w.tick).tick;
    RetryIsReal(cfg, io, SyncLog, (d, t) => SyncAttempt(io, d, t), w.disk, tick, 1);
  }

  lemma {:induction false} RenamesReport(io: Script, disk: Disk, tick: nat, g: nat)
    ensures FromScript(io, RenameDown(io, disk, tick, g).last)
    decreases g
  {
    if io(tick).Done? && g > 0 {
      RenamesReport(io, Rename(disk, g), tick + 1, g - 1);
    }
  }

  lemma {:induction false} RotationReports(io: Script, retain: nat)
    requires retain >= 1
    ensures Reports(io, (d, t) => RotateOnce(io, retain, d, t))
  {
    forall disk: Disk, tick: nat ensures FromScript(io, RotateOnce(io, retain, disk, tick).last) {
      if retain > 1 {
        RenamesReport(io, Remove(disk, retain - 1), tick + 1, retain - 2);
      }
    }
  }

  lemma {:induction false} RotateIsReal(cfg: Config, io: Script, w: Writer)
    ensures RealStatus(cfg, io, RotateActiveWriter(cfg, io, w).1)
    ensures RotateActiveWriter(cfg, io, w).0.terminal == w.terminal
  {
    hide RetryFrom, RealStatus, FlushAndSync;
    FlushIsReal(cfg, io, w);
    var closed := DropWriter(io, FlushAndSync(cfg, io, w).0);
    RotationReports(io, cfg.Kept());
    RetryIsReal(cfg, io, RotateFiles, (d, t) => RotateOnce(io, cfg.Kept(), d, t), closed.disk, closed.tick, 1);
  }

  /** A write that failed for good says why, and one that took nothing says that. */
  lemma {:induction false} WriteIsReal(cfg: Config, io: Script, file: LogFile, bytes: Bytes, tick: nat)
    ensures RealStatus(cfg, io, WriteFrom(cfg, io, file, bytes, tick).status)
    decreases |bytes|
  {
    hide RetryFrom, IsReal;
    OkIsReal(cfg, io);
    if bytes != [] {
      var attempt := (f: LogFile, t: nat) => WriteAttempt(io, f, bytes, t);
      RetryIsReal(cfg, io, Append, attempt, file, tick, 1);
      WriteTakesPrefix(cfg, io, file, bytes, tick, 1);
      var r := Retry(Append, cfg.maxAttempts, attempt, file, tick);
      var written := |r.state.data| - |file.data|;
      if r.status.Ok? && written == 0 {
        TookNothing(cfg, io, file, bytes, tick, 1);
      } else if r.status.Ok? {
        WriteIsReal(cfg, io, r.state, bytes[written..], r.tick);
      }
    }
  }

  lemma {:induction false} TookNothing(cfg: Config, io: Script, file: LogFile, bytes: Bytes, tick: nat, number: nat)
    requires bytes != [] && 1 <= number <= Attempts(cfg.maxAttempts)
    requires var r := RetryFrom(Append, Attempts(cfg.maxAttempts), (f, t) => WriteAttempt(io, f, bytes, t), file, tick,
                                number);
             r.status.Ok? && |r.state.data| == |file.data|
    ensures IsReal(cfg, io, WroteNothing)
    decreases Attempts(cfg.maxAttempts) - number
  {
    var a := WriteAttempt(io, file, bytes, tick);
    if io(tick).Failed? {
      assert a.state == file;
      TookNothing(cfg, io, file, bytes, tick + 1, number + 1);
    }
  }

  lemma {:induction false} RoomIsReal(cfg: Config, env: Env, w: Writer, encoded: Bytes)
    ensures RealStatus(cfg, env.io, MakeRoom(cfg, env, w, encoded).1)
    ensures MakeRoom(cfg, env, w, encoded).0.terminal == w.terminal
  {
    hide EnsureWriter, RotateActiveWriter, MustRotate, RealStatus;
    EnsureIsReal(cfg, env, w);
    var current := EnsureWriter(cfg, env, w).0;
    RotateIsReal(cfg, env.io, current);
    EnsureIsReal(cfg, env, RotateActiveWriter(cfg, env.io, current).0);
  }

  lemma {:induction false} PersistIsReal(cfg: Config, env: Env, w: Writer, encoded: Bytes)
    ensures RealStatus(cfg, env.io, PersistRecord(cfg, env, w, encoded).1)
    ensures PersistRecord(cfg, env, w, encoded).0.terminal == w.terminal
  {
    hide MakeRoom, WriteFrom, RealStatus;
    RoomIsReal(cfg, env, w, encoded);
    OkIsReal(cfg, env.io);
    var ready := MakeRoom(cfg, env, w, encoded).0;
    WriteIsReal(cfg, env.io, if 0 in ready.disk then ready.disk[0] else LogFile([], 0), encoded, ready.tick);
  }

  lemma {:induction false} StepIsReal(cfg: Config, env: Env, w: Writer, command: Command)
    requires RealTerminal(cfg, env.io, w)
    ensures RealTerminal(cfg, env.io, Step(cfg, env, w, command).0)
  {
    hide PersistRecord, FlushAndSync, IsReal;
    FlushIsReal(cfg, env.io, w);
    if command.Record? {
      PersistIsReal(cfg, env, w, command.encoded);
    }
  }

  /** Over any run, whatever fails in it: the error that poisons the log, and with it every
      error that is answered, is one that a call returned. */
  lemma {:induction false} ErrorIsReal(cfg: Config, env: Env, w: Writer, commands: seq<Command>)
    requires RealTerminal(cfg, env.io, w)
    ensures RealTerminal(cfg, env.io, Run(cfg, env, w, commands))
    decreases |commands|
  {
    hide Step, RealTerminal;
    if commands != [] {
      var k := |commands| - 1;
      ErrorIsReal(cfg, env, w, commands[..k]);
      StepIsReal(cfg, env, Run(cfg, env, w, commands[..k]), commands[k]);
    }
  }

  lemma {:induction false} AnswerIsReal(cfg: Config, env: Env, w: Writer, command: Command)
    requires RealTerminal(cfg, env.io, w)
    ensures match Step(cfg, env, w, command).1
            case Flushed(status) => RealStatus(cfg, env.io, status)
            case Exported(status, _) => RealStatus(cfg, env.io, status)
            case _ => true
  {
    hide PersistRecord, FlushAndSync, IsReal, ExportText, SnapshotFiles;
    FlushIsReal(cfg, env.io, w);
  }

  lemma {:induction false} StartIsReal(cfg: Config, env: Env, disk: Disk, tick: nat)
    ensures RealTerminal(cfg, env.io, Start(cfg, env, disk, tick))
  {
    hide RetryFrom, IsReal;
    RetryIsReal(cfg, env.io, OpenLog, (d, t) => OpenAttempt(env.io, d, t), disk, tick, 1);
  }

  /** So every error that a barrier, a shutdown or an export is answered with, from the start
      of the writer on, is one that a call returned. */
  lemma {:induction false} AnsweredErrorIsReal(cfg: Config, env: Env, disk: Disk, tick: nat, commands: seq<Command>)
    requires commands != []
    ensures match LastReply(cfg, env, Start(cfg, env, disk, tick), commands)
            case Flushed(status) => RealStatus(cfg, env.io, status)
            case Exported(status, _) => RealStatus(cfg, env.io, status)
            case _ => true
  {
    hide Step, Start, RealTerminal, RealStatus;
    var w, k := Start(cfg, env, disk, tick), |commands| - 1;
    StartIsReal(cfg, env, disk, tick);
    ErrorIsReal(cfg, env, w, commands[..k]);
    AnswerIsReal(cfg, env, Run(cfg, env, w, commands[..k]), commands[k]);
  }
}
