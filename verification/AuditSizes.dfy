/** How much room the audit log takes: the active log, and all retained files. */
module AuditSizes {
  import opened Text
  import opened AuditDisk
  import opened AuditWriter
  import opened AuditRuns

  /** No file outgrows `bound`, and the length the writer works with is the real one. */
  predicate Sized(w: Writer, bound: nat)
  {
    && Bounded(w.disk, bound)
    && (w.open ==> 0 in w.disk && w.currentBytes == SatAdd(|w.disk[0].data|, 0))
  }

  /** One full log fits in `bound`. */
  predicate Limited(cfg: Config, bound: nat)
  {
    0 < cfg.maxFileBytes < U64_MAX && cfg.maxFileBytes <= bound
  }

  /** A query that fails counts the log as empty, so it is only wrong about one that is not. */
  predicate LengthKnown(env: Env, disk: Disk, tick: nat) { env.metadata(tick) || Data(disk, 0) == [] }

  /** If opening the log succeeds, its length is known. */
  predicate OpensKnown(cfg: Config, env: Env, disk: Disk, tick: nat)
  {
    var r := Retry(OpenLog, cfg.maxAttempts, (d, t) => OpenAttempt(env.io, d, t), disk, tick);
    r.status.Ok? ==> LengthKnown(env, r.state, r.tick)
  }

  /** So it is whenever a record finds the log closed. */
  predicate QueriesWork(cfg: Config, env: Env, w: Writer, commands: seq<Command>)
  {
    commands == [] ||
    var k := |commands| - 1;
    var mid := Run(cfg, env, w, commands[..k]);
    && QueriesWork(cfg, env, w, commands[..k])
    && (commands[k].Record? && !mid.open ==> OpensKnown(cfg, env, mid.disk, mid.tick))
  }

  lemma {:induction false} RotationBounded(cfg: Config, io: Script, disk: Disk, tick: nat, number: nat, bound: nat)
    requires 1 <= number <= Attempts(cfg.maxAttempts)
    requires Bounded(disk, bound)
    ensures Bounded(RetryFrom(RotateFiles, Attempts(cfg.maxAttempts),
                              (d, t) => RotateOnce(io, cfg.Kept(), d, t), disk, tick, number).state, bound)
    decreases Attempts(cfg.maxAttempts) - number
  {
    hide RotateOnce;
    RotateShifts(io, cfg.Kept(), disk, tick);
    var a := RotateOnce(io, cfg.Kept(), disk, tick);
    if a.last.Failed? && a.last.transient && number < Attempts(cfg.maxAttempts) {
      RotationBounded(cfg, io, a.state, a.tick, number + 1, bound);
    }
  }

  lemma {:induction false} RotationEmpties(cfg: Config, io: Script, disk: Disk, tick: nat, number: nat)
    requires 1 <= number <= Attempts(cfg.maxAttempts)
    ensures var r := RetryFrom(RotateFiles, Attempts(cfg.maxAttempts),
                               (d, t) => RotateOnce(io, cfg.Kept(), d, t), disk, tick, number);
            r.status.Ok? ==> 0 !in r.state
    decreases Attempts(cfg.maxAttempts) - number
  {
    hide RotateOnce;
    RotateShifts(io, cfg.Kept(), disk, tick);
    var a := RotateOnce(io, cfg.Kept(), disk, tick);
    if a.last.Failed? && a.last.transient && number < Attempts(cfg.maxAttempts) {
      RotationEmpties(cfg, io, a.state, a.tick, number + 1);
    }
  }

  lemma EnsureSized(cfg: Config, env: Env, w: Writer, bound: nat)
    requires Sized(w, bound) && (!w.open ==> OpensKnown(cfg, env, w.disk, w.tick))
    ensures var (after, status) := EnsureWriter(cfg, env, w);
            && Sized(after, bound)
            && (status.Ok? ==> after.open && Data(after.disk, 0) == Data(w.disk, 0))
            && (w.open ==> after == w)
  {
    hide RetryFrom;
    RetriedOpen(Attempts(cfg.maxAttempts), env.io, w.disk, w.tick, 1);
  }

  lemma RotateSized(cfg: Config, env: Env, w: Writer, bound: nat)
    requires Sized(w, bound)
    ensures var (after, status) := RotateActiveWriter(cfg, env.io, w);
            && Sized(after, bound)
            && (status.Ok? ==> !after.open && 0 !in after.disk)
  {
    hide RetryFrom;
    FlushSyncs(cfg, env.io, w);
    var (flushed, status) := FlushAndSync(cfg, env.io, w);
    var closed := DropWriter(env.io, flushed);
    RotationBounded(cfg, env.io, closed.disk, closed.tick, 1, bound);
    RotationEmpties(cfg, env.io, closed.disk, closed.tick, 1);
  }

  /** After every successful persist the active log is at most `max_file_bytes` long
      or holds that one record alone; a failing one leaves no file over the bound. */
  lemma PersistSized(cfg: Config, env: Env, w: Writer, encoded: Bytes, bound: nat)
    requires Sized(w, bound) && Limited(cfg, bound) && |encoded| <= bound
    requires !w.open ==> OpensKnown(cfg, env, w.disk, w.tick)
    ensures var (after, status) := PersistRecord(cfg, env, w, encoded);
            && Bounded(after.disk, bound)
            && (status.Ok? ==> Sized(after, bound))
            && (status.Ok? ==> |after.disk[0].data| <= cfg.maxFileBytes || after.disk[0].data == encoded)
  {
    hide RotateActiveWriter, EnsureWriter, WriteFrom;
    EnsureSized(cfg, env, w, bound);
    var (current, opening) := EnsureWriter(cfg, env, w);
    if opening.Ok? && MustRotate(cfg, current, encoded) {
      RotateSized(cfg, env, current, bound);
      var (rotated, rotation) := RotateActiveWriter(cfg, env.io, current);
      if rotation.Ok? {
        RetriedOpen(Attempts(cfg.maxAttempts), env.io, rotated.disk, rotated.tick, 1);
        EnsureSized(cfg, env, rotated, bound);
      }
    }
    var (ready, status) := MakeRoom(cfg, env, w, encoded);
    if status.Ok? {
      assert |ready.disk[0].data| + |encoded| <= cfg.maxFileBytes || ready.disk[0].data == [];
      var k := WriteAppends(cfg, env.io, ready.disk[0], encoded, ready.tick);
    }
  }

  lemma StepSized(cfg: Config, env: Env, w: Writer, command: Command, bound: nat)
    requires Sized(w, bound) && Limited(cfg, bound)
    requires command.Record? ==> |command.encoded| <= bound
    requires command.Record? && !w.open ==> OpensKnown(cfg, env, w.disk, w.tick)
    ensures Sized(Step(cfg, env, w, command).0, bound)
  {
    hide PersistRecord, FlushAndSync;
    if command.Record? {
      PersistSized(cfg, env, w, command.encoded, bound);
      var (after, status) := PersistRecord(cfg, env, w, command.encoded);
      assert status.Ok? ==> Step(cfg, env, w, command).0 == after;
      assert status.Err? ==> Step(cfg, env, w, command).0 == DropWriter(env.io, SetTerminal(after, status));
    } else {
      FlushSyncs(cfg, env.io, w);
    }
  }

  /** The log never takes more than `retain_files` times the larger of the size limit
      and the longest record, failures included, when it starts within that. */
  lemma {:induction false} RunSized(cfg: Config, env: Env, disk: Disk, tick: nat, commands: seq<Command>, bound: nat)
    requires Bounded(disk, bound) && Limited(cfg, bound) && OpensKnown(cfg, env, disk, tick)
    requires QueriesWork(cfg, env, Start(cfg, env, disk, tick), commands)
    requires forall c :: c in commands && c.Record? ==> |c.encoded| <= bound
    ensures var w := Run(cfg, env, Start(cfg, env, disk, tick), commands);
            Sized(w, bound) && |Newer(w.disk, cfg.Kept() - 1)| <= cfg.Kept() * bound
  {
    hide RetryFrom, Step;
    if commands == [] {
      RetriedOpen(Attempts(cfg.maxAttempts), env.io, disk, tick, 1);
    } else {
      var k := |commands| - 1;
      RunSized(cfg, env, disk, tick, commands[..k], bound);
      StepSized(cfg, env, Run(cfg, env, Start(cfg, env, disk, tick), commands[..k]), commands[k], bound);
    }
    var w := Run(cfg, env, Start(cfg, env, disk, tick), commands);
    NewerBounded(w.disk, bound, cfg.Kept() - 1);
  }

  // ---- when the length of the log is not known --------------------------------------

  lemma {:induction false} NoFailure(cfg: Config, env: Env, w: Writer, encoded: Bytes, n: nat)
    requires forall t: nat :: env.io(t) == Done(n)
    requires w.open && MustRotate(cfg, w, encoded)
    ensures var (ready, status) := MakeRoom(cfg, env, w, encoded);
            status.Ok? && Data(ready.disk, 0) == []
  {
    hide RotateOnce, Shifted;
    var (flushed, fs) := FlushAndSync(cfg, env.io, w);
    var closed := DropWriter(env.io, flushed);
    RotateShifts(env.io, cfg.Kept(), closed.disk, closed.tick);
    NoFailureNoStop(env.io, cfg.Kept(), closed.tick);
    NoneAtStop(closed.disk, cfg.Kept(), 0);
  }

  /** The bound needs the query when the log is opened: with no other failure, the first
      record keeps the active log within the limit exactly when the length of what was
      there was read, or leaves room for the record. */
  lemma {:induction false} FirstRecordFitsWhen(cfg: Config, env: Env, disk: Disk, tick: nat, encoded: Bytes, n: nat)
    requires forall t: nat :: env.io(t) == Done(n)
    requires 0 < |encoded| <= n && |encoded| <= cfg.maxFileBytes < U64_MAX
    ensures |Data(Run(cfg, env, Start(cfg, env, disk, tick), [Record(encoded)]).disk, 0)| <= cfg.maxFileBytes
            <==> env.metadata(tick + 1) || |Data(disk, 0)| + |encoded| <= cfg.maxFileBytes
  {
    hide RetryFrom, MakeRoom, WriteFrom;
    var w := Start(cfg, env, disk, tick);
    OpensAtOnce(cfg, env, disk, tick, n);
    assert [Record(encoded)][..0] == [];
    assert Run(cfg, env, w, []) == w;
    var (ready, status) := MakeRoom(cfg, env, w, encoded);
    if MustRotate(cfg, w, encoded) {
      NoFailure(cfg, env, w, encoded, n);
    } else {
      assert MakeRoom(cfg, env, w, encoded) == (w, Ok) by { hide *; StaysOpen(cfg, env, w, encoded); }
    }
    var file := if 0 in ready.disk then ready.disk[0] else LogFile([], 0);
    WritesAtOnce(cfg, env, file, encoded, ready.tick, n);
    var (after, written) := PersistRecord(cfg, env, w, encoded);
    assert Data(after.disk, 0) == file.data + encoded;
    assert Run(cfg, env, w, [Record(encoded)]) == Step(cfg, env, w, Record(encoded)).0;
  }

  lemma StaysOpen(cfg: Config, env: Env, w: Writer, encoded: Bytes)
    requires w.open && !MustRotate(cfg, w, encoded)
    ensures MakeRoom(cfg, env, w, encoded) == (w, Ok)
  {
  }

  lemma OpensAtOnce(cfg: Config, env: Env, disk: Disk, tick: nat, n: nat)
    requires forall t: nat :: env.io(t) == Done(n)
    ensures var w := Start(cfg, env, disk, tick);
            && w.open && w.terminal.None? && Data(w.disk, 0) == Data(disk, 0)
            && w.currentBytes == if env.metadata(tick + 1) then SatAdd(|Data(disk, 0)|, 0) else 0
  {
  }

  lemma {:induction false} WritesAtOnce(cfg: Config, env: Env, file: LogFile, bytes: Bytes, tick: nat, n: nat)
    requires forall t: nat :: env.io(t) == Done(n)
    requires 0 < |bytes| <= n
    ensures var r := WriteFrom(cfg, env.io, file, bytes, tick);
            r.status.Ok? && r.state.data == file.data + bytes
  {
    var r := Retry(Append, cfg.maxAttempts, (f, t) => WriteAttempt(env.io, f, bytes, t), file, tick);
    assert bytes[..|bytes|] == bytes;
    assert r.state.data == file.data + bytes;
    assert WriteFrom(cfg, env.io, r.state, bytes[|bytes|..], r.tick) == Retried(r.state, r.tick, Ok);
  }

  /** Each pass of a rotation drops at most the oldest retained file. */
  lemma PassDropsOnlyOldest(io: Script, retain: nat, disk: Disk, tick: nat)
    requires retain >= 1 && Within(disk, retain)
    ensures var after := RotateOnce(io, retain, disk, tick).state;
            || Newer(after, retain - 1) == Newer(disk, retain - 1)
            || Newer(after, retain - 1) == (if retain == 1 then [] else Newer(disk, retain - 2))
  {
    hide RotateOnce, Shifted;
    RotateShifts(io, retain, disk, tick);
    var from := StopsAt(io, retain, tick);
    if from < retain {
      NewerShifted(disk, retain, from, retain - 1);
    }
  }
}
