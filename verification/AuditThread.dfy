/** The writer thread in the form of crates/server/src/audit.rs: local variables that
    `run_writer` and its helpers update in place. Each method does what `AuditWriter`
    says of the thread's state. */
module AuditThread {
  import opened Wrappers
  import opened Text
  import opened AuditDisk
  import opened AuditWriter

  /** One turn of the loop: the wait for a command timed out, or a batch was drained and
      handled, with the periodic flush due after it or not. */
  datatype Turn = TimedOut | Drained(batch: seq<Command>, flushDue: bool)

  /** The commands of a batch up to its first shutdown. */
  function UpToShutdown(batch: seq<Command>): seq<Command>
  {
    if batch == [] || batch[0].Shutdown? then (if batch == [] then [] else [batch[0]])
    else [batch[0]] + UpToShutdown(batch[1..])
  }

  predicate Stops(batch: seq<Command>) { exists k :: 0 <= k < |batch| && batch[k].Shutdown? }

  /** The steps the thread takes, a periodic flush being one, until a shutdown ends it. */
  function Steps(turns: seq<Turn>): seq<Command>
  {
    if turns == [] then []
    else
      match turns[0]
      case TimedOut => [PeriodicFlush] + Steps(turns[1..])
      case Drained(batch, flushDue) =>
        if Stops(batch) then UpToShutdown(batch)
        else batch + (if flushDue then [PeriodicFlush] else []) + Steps(turns[1..])
  }

  lemma {:induction false} NoShutdownUpTo(batch: seq<Command>)
    ensures !Stops(batch) ==> UpToShutdown(batch) == batch
  {
    if batch != [] && !batch[0].Shutdown? {
      NoShutdownUpTo(batch[1..]);
      assert forall k :: 0 <= k < |batch[1..]| ==> batch[1..][k] == batch[k + 1];
    }
  }

  class WriterThread {
    const cfg: Config
    const env: Env
    var disk: Disk
    var open: bool
    var currentBytes: nat
    var terminalError: Option<IoError>
    var tick: nat

    function State(): Writer
      reads this
    {
      Writer(disk, open, currentBytes, terminalError, tick)
    }

    /** The thread opens the log; when it cannot, the error is terminal. */
    constructor (cfg: Config, env: Env, disk: Disk)
      ensures this.cfg == cfg && this.env == env && State() == Start(cfg, env, disk, 0)
    {
      this.cfg, this.env, this.disk := cfg, env, disk;
      open, currentBytes, terminalError, tick := false, 0, None, 0;
      new;
      var r := RetryIo(OpenLog, cfg.maxAttempts, (d, t) => OpenAttempt(env.io, d, t), disk, 0);
      this.disk, tick := r.state, r.tick;
      match r.status {
        case Ok => open := true;
        case Err(e) => terminalError := Some(e);
      }
      currentBytes := FileLength(env, this.disk, tick);
    }

    method EnsureWriter() returns (status: Status)
      modifies this
      ensures (State(), status) == AuditWriter.EnsureWriter(cfg, env, old(State()))
    {
      if open {
        return Ok;
      }
      var e := env;
      var r := RetryIo(OpenLog, cfg.maxAttempts, (d, t) => OpenAttempt(e.io, d, t), disk, tick);
      disk, tick, status := r.state, r.tick, r.status;
      if status.Ok? {
        open, currentBytes := true, FileLength(env, disk, tick);
      }
    }

    method FlushAndSync() returns (status: Status)
      modifies this
      ensures (State(), status) == AuditWriter.FlushAndSync(cfg, env.io, old(State()))
    {
      if !open {
        return Ok;
      }
      var e := env;
      var flushed := RetryIo(FlushLog, cfg.maxAttempts, (d, t) => CallAttempt(e.io, d, t), disk, tick);
      tick := flushed.tick;
      if flushed.status.Err? {
        return flushed.status;
      }
      var synced := RetryIo(SyncLog, cfg.maxAttempts, (d, t) => SyncAttempt(e.io, d, t), disk, tick);
      disk, tick, status := synced.state, synced.tick, synced.status;
    }

    method FlushWriter() returns (status: Status)
      modifies this
      ensures (State(), status) == AuditWriter.FlushWriter(cfg, env.io, old(State()))
    {
      status := FlushAndSync();
      if terminalError.Some? {
        status := Err(terminalError.value);
      }
    }

    /** Setting `writer` to none drops the handle. */
    method CloseWriter()
      modifies this
      ensures State() == DropWriter(env.io, old(State()))
    {
      if open {
        open := false;
        if 0 in disk {
          disk := disk[0 := Leftover(disk[0], env.io(tick))];
        }
        tick := tick + 1;
      }
    }

    method RotateActiveWriter() returns (status: Status)
      modifies this
      ensures (State(), status) == AuditWriter.RotateActiveWriter(cfg, env.io, old(State()))
    {
      hide AuditWriter.FlushAndSync, DropWriter;
      status := FlushAndSync();
      CloseWriter();
      currentBytes := 0;
      if status.Err? {
        return;
      }
      var e, c := env, cfg;
      var r := RetryIo(RotateFiles, cfg.maxAttempts, (d, t) => RotateOnce(e.io, c.Kept(), d, t), disk, tick);
      disk, tick, status := r.state, r.tick, r.status;
    }

    method PersistRecord(encoded: Bytes) returns (status: Status)
      modifies this
      ensures (State(), status) == AuditWriter.PersistRecord(cfg, env, old(State()), encoded)
    {
      hide AuditWriter.EnsureWriter, AuditWriter.RotateActiveWriter, WriteFrom;
      status := EnsureWriter();
      if status.Err? {
        return;
      }
      if currentBytes > 0 && cfg.maxFileBytes > 0 && SatAdd(currentBytes, |encoded|) > cfg.maxFileBytes {
        status := RotateActiveWriter();
        if status.Err? {
          return;
        }
        status := EnsureWriter();
        if status.Err? {
          return;
        }
      }
      var file := if 0 in disk then disk[0] else LogFile([], 0);
      var r := WriteRecord(cfg, env.io, file, encoded, tick);
      disk, tick, status := disk[0 := r.state], r.tick, r.status;
      if status.Ok? {
        currentBytes := SatAdd(currentBytes, |encoded|);
      }
    }

    method SetTerminalError(status: Status)
      modifies this`terminalError
      ensures State() == SetTerminal(old(State()), status)
    {
      if status.Err? && terminalError.None? {
        terminalError := Some(status.error);
      }
    }

    /** One command of a batch, with its answer. */
    method Handle(command: Command) returns (reply: Reply)
      modifies this
      ensures (State(), reply) == Step(cfg, env, old(State()), command)
    {
      hide AuditWriter.PersistRecord, AuditWriter.FlushWriter, DropWriter, SetTerminal, SnapshotFiles, ExportText;
      reply := NoReply;
      match command {
        case Record(encoded) =>
          var status := PersistRecord(encoded);
          if status.Err? {
            SetTerminalError(status);
            CloseWriter();
          }
        case Barrier =>
          var status := FlushWriter();
          SetTerminalError(status);
          reply := Flushed(status);
        case Export =>
          var status := FlushWriter();
          SetTerminalError(status);
          reply := Exported(status, if status.Err? then [] else ExportText(SnapshotFiles(disk)));
        case Tail(limit) =>
          var status := FlushWriter();
          SetTerminalError(status);
          reply := Tailed(SnapshotFiles(disk), limit);
        case PeriodicFlush =>
          if open {
            tick := tick + 1;
          }
        case Shutdown =>
          var status := FlushWriter();
          SetTerminalError(status);
          reply := Flushed(status);
      }
    }

    /** The commands of a batch in order; the first shutdown ends it, and the thread. */
    method RunBatch(batch: seq<Command>) returns (replies: seq<Reply>, stopped: bool)
      modifies this
      ensures State() == Run(cfg, env, old(State()), UpToShutdown(batch))
      ensures replies == Replies(cfg, env, old(State()), UpToShutdown(batch))
      ensures stopped <==> Stops(batch)
    {
      hide Step, Stops, UpToShutdown;
      replies, stopped := [], false;
      var k := 0;
      NoneStop();
      while k < |batch|
        invariant 0 <= k <= |batch| && !Stops(batch[..k])
        invariant UpToShutdown(batch) == batch[..k] + UpToShutdown(batch[k..])
        invariant State() == Run(cfg, env, old(State()), batch[..k])
        invariant replies == Replies(cfg, env, old(State()), batch[..k])
      {
        var reply := Handle(batch[k]);
        NextOfBatch(batch, k);
        OneMore(cfg, env, old(State()), batch, k);
        replies := replies + [reply];
        k := k + 1;
        if batch[k - 1].Shutdown? {
          stopped := true;
          assert batch[..k] + [] == batch[..k];
          return;
        }
      }
      assert batch[..k] == batch && batch[k..] == [] && batch + [] == batch;
    }

    /** `run_writer`'s loop: what it handles, one command after the other, are the steps of
        its turns, of which a shutdown is the last. */
    method RunWriter(turns: seq<Turn>) returns (stopped: bool)
      modifies this
      ensures State() == Run(cfg, env, old(State()), Steps(turns))
      ensures stopped ==> Steps(turns) != [] && Steps(turns)[|Steps(turns)| - 1].Shutdown?
      ensures !stopped ==> !Stops(Steps(turns))
    {
      hide Step, Stops, UpToShutdown, Run;
      stopped := false;
      ghost var done: seq<Command> := [];
      var k := 0;
      NoneStop();
      assert Run(cfg, env, State(), []) == State() by { RunNone(cfg, env, State()); }
      while k < |turns|
        invariant 0 <= k <= |turns| && !Stops(done)
        invariant Steps(turns) == done + Steps(turns[k..])
        invariant State() == Run(cfg, env, old(State()), done)
      {
        assert turns[k..][1..] == turns[k + 1..] && turns[k..][0] == turns[k];
        ghost var steps := TurnSteps(turns[k]);
        RunAppend(cfg, env, old(State()), done, steps);
        StepsOfTurn(turns[k..]);
        match turns[k] {
          case TimedOut =>
            var _ := Handle(PeriodicFlush);
            RunOne(cfg, env, Run(cfg, env, old(State()), done), PeriodicFlush);
          case Drained(batch, flushDue) =>
            ghost var before := State();
            var replies, ends := RunBatch(batch);
            if ends {
              LastIsShutdown(batch);
              stopped := true;
              return;
            }
            NoShutdownUpTo(batch);
            assert batch + [] == batch;
            if flushDue {
              ghost var w := State();
              var _ := Handle(PeriodicFlush);
              RunAppend(cfg, env, before, batch, [PeriodicFlush]);
              RunOne(cfg, env, w, PeriodicFlush);
            }
        }
        StopsAppend(done, steps);
        Regroup(done, steps, Steps(turns[k + 1..]));
        done := done + steps;
        k := k + 1;
      }
      assert done + [] == done;
    }
  }

  /** The steps of one turn. */
  function TurnSteps(turn: Turn): seq<Command>
  {
    match turn
    case TimedOut => [PeriodicFlush]
    case Drained(batch, flushDue) =>
      if Stops(batch) then UpToShutdown(batch) else batch + (if flushDue then [PeriodicFlush] else [])
  }

  function Replies(cfg: Config, env: Env, w: Writer, commands: seq<Command>): seq<Reply>
  {
    if commands == [] then []
    else Replies(cfg, env, w, commands[..|commands| - 1]) + [LastReply(cfg, env, w, commands)]
  }

  lemma {:induction false} StepsOfTurn(turns: seq<Turn>)
    requires turns != []
    ensures var batchStops := turns[0].Drained? && Stops(turns[0].batch);
            Steps(turns) == TurnSteps(turns[0]) + (if batchStops then [] else Steps(turns[1..]))
    ensures !(turns[0].Drained? && Stops(turns[0].batch)) ==> !Stops(TurnSteps(turns[0]))
  {
    assert TurnSteps(turns[0]) + [] == TurnSteps(turns[0]);
    if turns[0].Drained? && !Stops(turns[0].batch) {
      StopsAppend(turns[0].batch, if turns[0].flushDue then [PeriodicFlush] else []);
    }
  }

  lemma {:induction false} NoneStop()
    ensures !Stops([]) && UpToShutdown([]) == []
  {
  }

  lemma {:induction false} StopsAppend(a: seq<Command>, b: seq<Command>)
    requires !Stops(a) && !Stops(b)
    ensures !Stops(a + b)
  {
  }

  lemma {:induction false} LastIsShutdown(batch: seq<Command>)
    requires Stops(batch)
    ensures UpToShutdown(batch) != [] && UpToShutdown(batch)[|UpToShutdown(batch)| - 1].Shutdown?
  {
    if !batch[0].Shutdown? {
      var k :| 0 <= k < |batch| && batch[k].Shutdown?;
      assert batch[1..][k - 1].Shutdown?;
      LastIsShutdown(batch[1..]);
    }
  }

  lemma {:induction false} RunNone(cfg: Config, env: Env, w: Writer)
    ensures Run(cfg, env, w, []) == w
  {
  }

  lemma {:induction false} RunOne(cfg: Config, env: Env, w: Writer, command: Command)
    ensures Run(cfg, env, w, [command]) == Step(cfg, env, w, command).0
  {
    hide Step;
    assert [command][..0] == [];
  }

  lemma {:induction false} OneMore(cfg: Config, env: Env, w: Writer, batch: seq<Command>, k: nat)
    requires k < |batch|
    ensures var step := Step(cfg, env, Run(cfg, env, w, batch[..k]), batch[k]);
            && Run(cfg, env, w, batch[..k + 1]) == step.0
            && Replies(cfg, env, w, batch[..k + 1]) == Replies(cfg, env, w, batch[..k]) + [step.1]
  {
    hide Step;
    assert batch[..k + 1][..k] == batch[..k];
  }

  lemma {:induction false} NextOfBatch(batch: seq<Command>, k: nat)
    requires k < |batch| && !Stops(batch[..k])
    ensures batch[..k] + UpToShutdown(batch[k..])
         == batch[..k + 1] + (if batch[k].Shutdown? then [] else UpToShutdown(batch[k + 1..]))
    ensures batch[k].Shutdown? ==> Stops(batch)
    ensures !batch[k].Shutdown? ==> !Stops(batch[..k + 1])
  {
    hide Stops, UpToShutdown;
    assert batch[k..] == [batch[k]] + batch[k + 1..];
    assert batch[..k + 1] == batch[..k] + [batch[k]];
    UpToFirst(batch[k], batch[k + 1..]);
    var later := if batch[k].Shutdown? then [] else UpToShutdown(batch[k + 1..]);
    Regroup(batch[..k], [batch[k]], later);
    StopsAtOne(batch, k);
  }

  lemma {:induction false} UpToFirst(first: Command, rest: seq<Command>)
    ensures UpToShutdown([first] + rest) == [first] + (if first.Shutdown? then [] else UpToShutdown(rest))
  {
    assert ([first] + rest)[1..] == rest;
  }

  lemma {:induction false} StopsAtOne(batch: seq<Command>, k: nat)
    requires k < |batch| && !Stops(batch[..k])
    ensures batch[k].Shutdown? ==> Stops(batch)
    ensures !batch[k].Shutdown? ==> !Stops(batch[..k + 1])
  {
    assert forall j :: 0 <= j < k ==> batch[..k + 1][j] == batch[..k][j];
  }
}
