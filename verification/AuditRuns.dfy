/** What the audit log promises over whole runs of its writer thread. */
module AuditRuns {
  import opened Wrappers
  import opened Text
  import opened AuditDisk
  import opened AuditWriter

  // ---- what holds until the first failure ---------------------------------------

  /** The files hold a newest part of the history within the retained generations.
      With `tidy`, every file also ends its last line. */
  ghost predicate Stored(retain: nat, disk: Disk, history: seq<Bytes>, tidy: bool)
  {
    && Within(disk, retain)
    && Contiguous(disk, history)
    && (tidy ==> forall g :: g in disk ==> EndsLine(disk[g].data))
  }

  predicate Synced(file: LogFile) { file.synced == |file.data| }

  predicate ArchivesSynced(disk: Disk) { forall g :: g in disk && g > 0 ==> Synced(disk[g]) }

  predicate AllSynced(disk: Disk) { forall g :: g in disk ==> Synced(disk[g]) }

  /** With no terminal error the writer holds the log open: this is why a closed
      writer never lets a barrier succeed. */
  ghost predicate Healthy(cfg: Config, w: Writer, history: seq<Bytes>, tidy: bool)
  {
    w.terminal.None? ==>
      && w.open && 0 in w.disk
      && Stored(cfg.Kept(), w.disk, history, tidy)
      && ArchivesSynced(w.disk)
      && w.disk[0].synced <= |w.disk[0].data|
  }

  // ---- each part of a step ------------------------------------------------------

  lemma ShiftedStored(disk: Disk, retain: nat, from: nat, history: seq<Bytes>, tidy: bool)
    requires Stored(retain, disk, history, tidy) && AllSynced(disk) && from < retain
    ensures Stored(retain, Shifted(disk, retain, from), history, tidy) && AllSynced(Shifted(disk, retain, from))
  {
    ShiftedContiguous(disk, retain, from, history);
  }

  ghost predicate StoredAndSynced(retain: nat, disk: Disk, history: seq<Bytes>, tidy: bool)
  {
    Stored(retain, disk, history, tidy) && AllSynced(disk)
  }

  lemma RotationStored(cfg: Config, io: Script, disk: Disk, tick: nat, history: seq<Bytes>, tidy: bool)
    requires StoredAndSynced(cfg.Kept(), disk, history, tidy)
    ensures StoredAndSynced(cfg.Kept(), RotateOnce(io, cfg.Kept(), disk, tick).state, history, tidy)
  {
    hide Shifted, RotateOnce, Stored, AllSynced;
    RotateShifts(io, cfg.Kept(), disk, tick);
    var from := StopsAt(io, cfg.Kept(), tick);
    if from < cfg.Kept() {
      ShiftedStored(disk, cfg.Kept(), from, history, tidy);
    }
  }

  /** A rotation retried any number of times keeps the files a newest part of the
      history; when it succeeds the active log is gone, moved up exactly once however many
      passes it took. */
  lemma {:induction false} RetriedRotation(cfg: Config, io: Script, disk: Disk, tick: nat, number: nat,
                                           history: seq<Bytes>, tidy: bool)
    requires 1 <= number <= Attempts(cfg.maxAttempts)
    requires StoredAndSynced(cfg.Kept(), disk, history, tidy)
    ensures var max := Attempts(cfg.maxAttempts);
            var r := RetryFrom(RotateFiles, max, (d, t) => RotateOnce(io, cfg.Kept(), d, t), disk, tick, number);
            && StoredAndSynced(cfg.Kept(), r.state, history, tidy)
            && (r.status.Ok? ==> 0 !in r.state && RotatedTo(io, cfg.Kept(), max, disk, tick, number, 0) == 1)
    decreases Attempts(cfg.maxAttempts) - number
  {
    hide StoredAndSynced, RotateOnce, RotatedTo;
    var max := Attempts(cfg.maxAttempts);
    var a := RotateOnce(io, cfg.Kept(), disk, tick);
    RotationStored(cfg, io, disk, tick, history, tidy);
    RotateShifts(io, cfg.Kept(), disk, tick);
    RotatedStep(io, cfg.Kept(), max, disk, tick, number, 0);
    if a.last.Failed? && a.last.transient && number < max {
      RetriedRotation(cfg, io, a.state, a.tick, number + 1, history, tidy);
    } else if a.last.Done? {
      assert 0 !in a.state by { hide *; NoneAtStop(disk, cfg.Kept(), 0); }
    }
  }

  /** Whatever fails in a rotation and is tried again, what the generations up to h hold
      after it is what those up to g held, for the last g it moved no further than to h:
      nothing is lost but what was moved out of the retained generations. */
  lemma {:induction false} RotationReads(cfg: Config, io: Script, disk: Disk, tick: nat, number: nat, g: int, h: nat)
    requires 1 <= number <= Attempts(cfg.maxAttempts) && Within(disk, cfg.Kept()) && g >= -1 && h < cfg.Kept()
    requires g >= 0 ==> RotatedTo(io, cfg.Kept(), Attempts(cfg.maxAttempts), disk, tick, number, g) <= h
    requires h < RotatedTo(io, cfg.Kept(), Attempts(cfg.maxAttempts), disk, tick, number, g + 1)
    ensures var attempt := (d, t) => RotateOnce(io, cfg.Kept(), d, t);
            Newer(RetryFrom(RotateFiles, Attempts(cfg.maxAttempts), attempt, disk, tick, number).state, h)
            == ReadsTo(disk, g)
    decreases Attempts(cfg.maxAttempts) - number
  {
    hide RotateOnce, Newer, RotatedTo, PassTo;
    var max := Attempts(cfg.maxAttempts);
    var a := RotateOnce(io, cfg.Kept(), disk, tick);
    if g >= 0 { RotatedStep(io, cfg.Kept(), max, disk, tick, number, g); }
    RotatedStep(io, cfg.Kept(), max, disk, tick, number, g + 1);
    if a.last.Failed? && a.last.transient && number < max {
      PassWithin(io, cfg.Kept(), disk, tick);
      var x: int := if g >= 0 then PassTo(io, cfg.Kept(), tick, g) else -1;
      PassGrows(io, cfg.Kept(), tick, g);
      var y := PassTo(io, cfg.Kept(), tick, g + 1);
      var m := BetweenMoved(io, cfg.Kept(), max, a.state, a.tick, number + 1, x, y, h);
      RotationReads(cfg, io, a.state, a.tick, number + 1, m, h);
      if m >= 0 {
        PassReads(io, cfg.Kept(), disk, tick, g, m);
      } else {
        assert g == -1;
      }
    } else {
      PassReads(io, cfg.Kept(), disk, tick, g, h);
    }
  }

  lemma PassGrows(io: Script, retain: nat, tick: nat, g: int)
    requires retain >= 1 && g >= -1
    ensures PassTo(io, retain, tick, g + 1) > if g >= 0 then PassTo(io, retain, tick, g) else -1
  {
    hide StopsAt;
  }

  lemma NoneAtStop(disk: Disk, retain: nat, from: nat)
    ensures from !in Shifted(disk, retain, from)
  {
  }

  /** The first pass, and then those that follow it. */
  lemma RotatedStep(io: Script, retain: nat, max: nat, disk: Disk, tick: nat, number: nat, g: nat)
    requires retain >= 1 && 1 <= number <= max
    ensures var a := RotateOnce(io, retain, disk, tick);
            var next := PassTo(io, retain, tick, g);
            && RotatedTo(io, retain, max, disk, tick, number, g)
               == (if a.last.Failed? && a.last.transient && number < max
                   then RotatedTo(io, retain, max, a.state, a.tick, number + 1, next) else next)
            && RotatedTo(io, retain, max, disk, tick, number, g) >= next
  {
    hide RotateOnce, PassTo;
  }

  lemma SameData(a: Disk, b: Disk, history: seq<Bytes>)
    requires Contiguous(a, history)
    requires forall j: nat :: Data(a, j) == Data(b, j)
    ensures Contiguous(b, history)
  {
    forall g: nat ensures IsNewestPart(Newer(b, g), history) {
      NewerSame(a, b, g);
      assert IsNewestPart(Newer(a, g), history);
    }
  }

  /** Opening leaves the disk alone but for an empty active log where there was none. */
  lemma {:induction false} RetriedOpen(max: nat, io: Script, disk: Disk, tick: nat, number: nat)
    requires 1 <= number <= max
    ensures var r := RetryFrom(OpenLog, max, (d, t) => OpenAttempt(io, d, t), disk, tick, number);
            && (r.status.Ok? ==> r.state == if 0 in disk then disk else disk[0 := LogFile([], 0)])
            && (r.status.Err? ==> r.state == disk)
    decreases max - number
  {
    if io(tick).Failed? && io(tick).transient && number < max {
      RetriedOpen(max, io, disk, tick + 1, number + 1);
    }
  }

  lemma {:induction false} RetriedSync(max: nat, io: Script, disk: Disk, tick: nat, number: nat)
    requires 1 <= number <= max
    ensures var r := RetryFrom(SyncLog, max, (d, t) => SyncAttempt(io, d, t), disk, tick, number);
            r.state == if r.status.Ok? then MarkSynced(disk) else disk
    decreases max - number
  {
    if io(tick).Failed? && io(tick).transient && number < max {
      RetriedSync(max, io, disk, tick + 1, number + 1);
    }
  }

  /** `FlushAndSync` changes no byte; when it succeeds the active log is durable. */
  lemma FlushSyncs(cfg: Config, io: Script, w: Writer)
    ensures var (after, status) := FlushAndSync(cfg, io, w);
            && after.(disk := w.disk, tick := w.tick) == w
            && after.disk == (if w.open && status.Ok? then MarkSynced(w.disk) else w.disk)
  {
    hide RetryFrom;
    if w.open {
      var f := Retry(FlushLog, cfg.maxAttempts, (d, t) => CallAttempt(io, d, t), w.disk, w.tick);
      RetriedSync(Attempts(cfg.maxAttempts), io, w.disk, f.tick, 1);
    }
  }

  lemma MarkedStored(retain: nat, disk: Disk, history: seq<Bytes>, tidy: bool)
    requires Stored(retain, disk, history, tidy) && ArchivesSynced(disk)
    ensures Stored(retain, MarkSynced(disk), history, tidy) && AllSynced(MarkSynced(disk))
  {
    SameData(disk, MarkSynced(disk), history);
  }

  lemma OpenedStored(retain: nat, disk: Disk, history: seq<Bytes>, tidy: bool)
    requires Stored(retain, disk, history, tidy) && retain >= 1 && 0 !in disk
    ensures Stored(retain, disk[0 := LogFile([], 0)], history, tidy)
  {
    SameData(disk, disk[0 := LogFile([], 0)], history);
  }

  /** Where making room for a record leaves what generation g of an open log named. */
  function RoomTo(cfg: Config, env: Env, w: Writer, encoded: Bytes, g: nat): (h: nat)
    ensures h >= g
  {
    if !MustRotate(cfg, w, encoded) then g
    else
      var closed := DropWriter(env.io, FlushAndSync(cfg, env.io, w).0);
      RotatedTo(env.io, cfg.Kept(), Attempts(cfg.maxAttempts), closed.disk, closed.tick, 1, g)
  }

  /** The passes of that rotation that get past their first call. */
  function RoomPasses(cfg: Config, env: Env, w: Writer, encoded: Bytes): nat
  {
    if !MustRotate(cfg, w, encoded) then 0
    else
      var closed := DropWriter(env.io, FlushAndSync(cfg, env.io, w).0);
      RotationPasses(env.io, cfg.Kept(), Attempts(cfg.maxAttempts), closed.disk, closed.tick, 1)
  }

  /** Making room for a record, when it succeeds, leaves an open log of a healthy
      writer, empty if it rotated and otherwise as it was. */
  lemma RoomIsHealthy(cfg: Config, env: Env, w: Writer, encoded: Bytes, history: seq<Bytes>, tidy: bool)
    requires w.terminal.None? && Healthy(cfg, w, history, tidy)
    ensures var (ready, status) := MakeRoom(cfg, env, w, encoded);
            && ready.terminal.None?
            && (status.Ok? ==> Healthy(cfg, ready, history, tidy))
            && (status.Ok? && MustRotate(cfg, w, encoded) ==> ready.disk[0].data == [])
            && (status.Ok? && MustRotate(cfg, w, encoded) ==> RoomTo(cfg, env, w, encoded, 0) == 1)
            && (status.Ok? && !MustRotate(cfg, w, encoded) ==> ready == w)
  {
    hide RetryFrom, Stored, RotatedTo;
    if MustRotate(cfg, w, encoded) {
      var (flushed, fs) := FlushAndSync(cfg, env.io, w);
      FlushSyncs(cfg, env.io, w);
      if fs.Ok? {
        MarkedStored(cfg.Kept(), w.disk, history, tidy);
        var closed := DropWriter(env.io, flushed);
        assert closed.disk == flushed.disk;
        RetriedRotation(cfg, env.io, closed.disk, closed.tick, 1, history, tidy);
        var (rotated, rs) := RotateActiveWriter(cfg, env.io, w);
        if rs.Ok? {
          RetriedOpen(Attempts(cfg.maxAttempts), env.io, rotated.disk, rotated.tick, 1);
          OpenedStored(cfg.Kept(), rotated.disk, history, tidy);
        }
      }
    }
  }

  /** Then what the generations up to h hold is what those up to g held, for the last g
      that was moved no further than to h. */
  lemma {:induction false} RoomReads(cfg: Config, env: Env, w: Writer, encoded: Bytes, history: seq<Bytes>,
                                     g: int, h: nat)
    requires w.terminal.None? && Healthy(cfg, w, history, false) && MakeRoom(cfg, env, w, encoded).1.Ok?
    requires g >= -1 && h < cfg.Kept()
    requires (g >= 0 ==> RoomTo(cfg, env, w, encoded, g) <= h) && h < RoomTo(cfg, env, w, encoded, g + 1)
    ensures Newer(MakeRoom(cfg, env, w, encoded).0.disk, h) == ReadsTo(w.disk, g)
  {
    hide RetryFrom, Contiguous, Newer, RotatedTo;
    if MustRotate(cfg, w, encoded) {
      var (flushed, fs) := FlushAndSync(cfg, env.io, w);
      FlushSyncs(cfg, env.io, w);
      var closed := DropWriter(env.io, flushed);
      assert closed.disk == flushed.disk;
      RotationReads(cfg, env.io, closed.disk, closed.tick, 1, g, h);
      var (rotated, rs) := RotateActiveWriter(cfg, env.io, w);
      RetriedOpen(Attempts(cfg.maxAttempts), env.io, rotated.disk, rotated.tick, 1);
      NewerSame(rotated.disk, MakeRoom(cfg, env, w, encoded).0.disk, h);
      if g >= 0 { NewerSame(w.disk, closed.disk, g); }
    }
  }

  /** A persisted record becomes the newest entry of the history, whole. */
  lemma PersistIsHealthy(cfg: Config, env: Env, w: Writer, encoded: Bytes, history: seq<Bytes>, tidy: bool)
    requires w.terminal.None? && Healthy(cfg, w, history, tidy)
    requires tidy ==> EndsLine(encoded)
    ensures var (after, status) := PersistRecord(cfg, env, w, encoded);
            && after.terminal.None?
            && (status.Ok? ==>
                  && Healthy(cfg, after, history + [encoded], tidy)
                  && after.disk[0].data == (if MustRotate(cfg, w, encoded) then [] else w.disk[0].data) + encoded
                  && (MustRotate(cfg, w, encoded) ==> RoomTo(cfg, env, w, encoded, 0) == 1))
  {
    hide MakeRoom, WriteFrom, Newer, RoomTo;
    RoomIsHealthy(cfg, env, w, encoded, history, tidy);
    var (ready, status) := MakeRoom(cfg, env, w, encoded);
    if status.Ok? {
      var k := WriteAppends(cfg, env.io, ready.disk[0], encoded, ready.tick);
      var r := WriteFrom(cfg, env.io, ready.disk[0], encoded, ready.tick);
      if r.status.Ok? {
        var written := ready.disk[0 := r.state];
        assert encoded[..|encoded|] == encoded;
        AppendContiguous(ready.disk, written, history, encoded);
        if tidy {
          EndsLineAppend(ready.disk[0].data, encoded);
        }
      }
    }
  }

  /** It is appended to what the generations hold; and those up to h hold what those up to
      g held, for the last g that was moved no further than to h. */
  lemma {:induction false} PersistReads(cfg: Config, env: Env, w: Writer, encoded: Bytes, history: seq<Bytes>,
                                        g: int, h: nat)
    requires w.terminal.None? && Healthy(cfg, w, history, false) && PersistRecord(cfg, env, w, encoded).1.Ok?
    requires g >= -1 && h < cfg.Kept()
    requires (g >= 0 ==> RoomTo(cfg, env, w, encoded, g) <= h) && h < RoomTo(cfg, env, w, encoded, g + 1)
    ensures Newer(PersistRecord(cfg, env, w, encoded).0.disk, h) == ReadsTo(w.disk, g) + encoded
  {
    hide MakeRoom, WriteFrom, Newer, RoomTo;
    RoomIsHealthy(cfg, env, w, encoded, history, false);
    RoomReads(cfg, env, w, encoded, history, g, h);
    var (ready, status) := MakeRoom(cfg, env, w, encoded);
    var k := WriteAppends(cfg, env.io, ready.disk[0], encoded, ready.tick);
    assert encoded[..|encoded|] == encoded;
    NewerAppend(ready.disk, PersistRecord(cfg, env, w, encoded).0.disk, encoded, h);
  }

  lemma EndsLineAppend(a: Bytes, b: Bytes)
    requires EndsLine(b)
    ensures EndsLine(a) ==> EndsLine(a + b)
  {
  }

  // ---- whole runs -----------------------------------------------------------------

  function Entry(command: Command): seq<Bytes> { if command.Record? then [command.encoded] else [] }

  /** The records among `commands`, in order. */
  function Records(commands: seq<Command>): seq<Bytes>
  {
    if commands == [] then []
    else
      var k := |commands| - 1;
      Records(commands[..k]) + Entry(commands[k])
  }

  predicate TidyRecords(commands: seq<Command>)
  {
    forall c :: c in commands && c.Record? ==> EndsLine(c.encoded)
  }

  lemma StartIsHealthy(cfg: Config, env: Env, disk: Disk, tick: nat, history: seq<Bytes>, tidy: bool)
    requires Stored(cfg.Kept(), disk, history, tidy) && AllSynced(disk)
    ensures Healthy(cfg, Start(cfg, env, disk, tick), history, tidy)
  {
    hide RetryFrom;
    RetriedOpen(Attempts(cfg.maxAttempts), env.io, disk, tick, 1);
    if 0 !in disk {
      OpenedStored(cfg.Kept(), disk, history, tidy);
    }
  }

  /** The bytes a command adds to the log. */
  function Added(command: Command): Bytes { if command.Record? then command.encoded else [] }

  function StepTo(cfg: Config, env: Env, w: Writer, command: Command, g: nat): (h: nat)
    ensures h >= g
  {
    if command.Record? then RoomTo(cfg, env, w, command.encoded, g) else g
  }

  /** Where all rotations of a run leave what generation g named at its start; it is gone
      when that is not among the retained ones. */
  function RunTo(cfg: Config, env: Env, w: Writer, commands: seq<Command>, g: nat): (h: nat)
    ensures h >= g
  {
    if commands == [] then g
    else
      var k := |commands| - 1;
      StepTo(cfg, env, Run(cfg, env, w, commands[..k]), commands[k], RunTo(cfg, env, w, commands[..k], g))
  }

  predicate Rotates(cfg: Config, w: Writer, command: Command)
  {
    command.Record? && MustRotate(cfg, w, command.encoded)
  }

  function StepPasses(cfg: Config, env: Env, w: Writer, command: Command): nat
  {
    if command.Record? then RoomPasses(cfg, env, w, command.encoded) else 0
  }

  /** The passes of all rotations of a run that get past their first call. */
  function RunPasses(cfg: Config, env: Env, w: Writer, commands: seq<Command>): nat
  {
    if commands == [] then 0
    else
      var k := |commands| - 1;
      RunPasses(cfg, env, w, commands[..k]) + StepPasses(cfg, env, Run(cfg, env, w, commands[..k]), commands[k])
  }

  function RunRotations(cfg: Config, env: Env, w: Writer, commands: seq<Command>): nat
  {
    if commands == [] then 0
    else
      var k := |commands| - 1;
      RunRotations(cfg, env, w, commands[..k])
      + (if Rotates(cfg, Run(cfg, env, w, commands[..k]), commands[k]) then 1 else 0)
  }

  /** Every rotation of the run takes one pass, but for passes that fail at once. */
  predicate Smooth(cfg: Config, env: Env, w: Writer, commands: seq<Command>)
  {
    commands == [] ||
    var k := |commands| - 1;
    var mid := Run(cfg, env, w, commands[..k]);
    && Smooth(cfg, env, w, commands[..k])
    && (Rotates(cfg, mid, commands[k]) ==> StepPasses(cfg, env, mid, commands[k]) == 1)
  }

  /** Barriers, exports, tail reads and flushes change no byte of any generation. */
  lemma OnlyRecordsChangeBytes(cfg: Config, env: Env, w: Writer, command: Command)
    requires !command.Record?
    ensures SameBytes(w.disk, Step(cfg, env, w, command).0.disk)
  {
    hide FlushAndSync;
    FlushSyncs(cfg, env.io, w);
  }

  lemma StepIsHealthy(cfg: Config, env: Env, w: Writer, command: Command, history: seq<Bytes>, tidy: bool)
    requires Healthy(cfg, w, history, tidy)
    requires tidy && command.Record? ==> EndsLine(command.encoded)
    ensures var after := Step(cfg, env, w, command).0;
            && Healthy(cfg, after, history + Entry(command), tidy)
            && (after.terminal.None? && Rotates(cfg, w, command) ==> StepTo(cfg, env, w, command, 0) == 1)
  {
    hide PersistRecord, FlushAndSync, Stored, RoomTo;
    if w.terminal.Some? {
      TerminalStays(cfg, env, w, command);
    } else if command.Record? {
      PersistIsHealthy(cfg, env, w, command.encoded, history, tidy);
      var (after, status) := PersistRecord(cfg, env, w, command.encoded);
      assert status.Ok? ==> Step(cfg, env, w, command).0 == after;
      assert status.Err? ==> Step(cfg, env, w, command).0.terminal.Some?;
    } else {
      assert history + Entry(command) == history;
      FlushSyncs(cfg, env.io, w);
      MarkedStored(cfg.Kept(), w.disk, history, tidy);
    }
  }

  lemma {:induction false} StepReads(cfg: Config, env: Env, w: Writer, command: Command, history: seq<Bytes>,
                                     g: int, h: nat)
    requires Healthy(cfg, w, history, false) && Step(cfg, env, w, command).0.terminal.None?
    requires g >= -1 && h < cfg.Kept()
    requires (g >= 0 ==> StepTo(cfg, env, w, command, g) <= h) && h < StepTo(cfg, env, w, command, g + 1)
    ensures Newer(Step(cfg, env, w, command).0.disk, h) == ReadsTo(w.disk, g) + Added(command)
  {
    hide PersistRecord, FlushWriter, Newer, RoomTo, Healthy;
    TerminalStays(cfg, env, w, command);
    if command.Record? {
      PersistReads(cfg, env, w, command.encoded, history, g, h);
      var (after, status) := PersistRecord(cfg, env, w, command.encoded);
      assert status.Ok? ==> Step(cfg, env, w, command).0 == after;
      assert status.Err? ==> Step(cfg, env, w, command).0.terminal.Some?;
    } else {
      OnlyRecordsChangeBytes(cfg, env, w, command);
      NewerSame(w.disk, Step(cfg, env, w, command).0.disk, h);
      assert Newer(w.disk, h) + [] == Newer(w.disk, h);
    }
  }

  lemma PersistKeepsTerminal(cfg: Config, env: Env, w: Writer, encoded: Bytes)
    ensures PersistRecord(cfg, env, w, encoded).0.terminal == w.terminal
  {
    hide RetryFrom, WriteFrom;
  }

  lemma TerminalStays(cfg: Config, env: Env, w: Writer, command: Command)
    ensures w.terminal.Some? ==> Step(cfg, env, w, command).0.terminal == w.terminal
  {
    hide PersistRecord, FlushAndSync;
    FlushSyncs(cfg, env.io, w);
    if command.Record? {
      PersistKeepsTerminal(cfg, env, w, command.encoded);
    }
  }

  /** Until the first error the log is open, and what the files hold is a newest part of
      the history. */
  lemma {:induction false} RunIsHealthy(cfg: Config, env: Env, w: Writer, commands: seq<Command>, history: seq<Bytes>,
                                        tidy: bool)
    requires Healthy(cfg, w, history, tidy)
    requires tidy ==> TidyRecords(commands)
    ensures Healthy(cfg, Run(cfg, env, w, commands), history + Records(commands), tidy)
  {
    hide Healthy, Step;
    if commands == [] {
      assert history + [] == history;
    } else {
      var k := |commands| - 1;
      RunIsHealthy(cfg, env, w, commands[..k], history, tidy);
      StepIsHealthy(cfg, env, Run(cfg, env, w, commands[..k]), commands[k], history + Records(commands[..k]), tidy);
      assert history + Records(commands)
          == history + Records(commands[..k]) + Entry(commands[k]);
    }
  }

  /** The last of the generations a, ..., b - 1 that a step moves no further than to h. */
  lemma {:induction false} BetweenSteps(cfg: Config, env: Env, w: Writer, command: Command, a: int, b: nat, h: nat)
    returns (m: int)
    requires -1 <= a < b && (a >= 0 ==> StepTo(cfg, env, w, command, a) <= h) && h < StepTo(cfg, env, w, command, b)
    ensures a <= m < b && (m >= 0 ==> StepTo(cfg, env, w, command, m) <= h) && h < StepTo(cfg, env, w, command, m + 1)
    decreases b - a
  {
    hide StepTo;
    if a == b - 1 {
      m := a;
    } else if StepTo(cfg, env, w, command, b - 1) <= h {
      m := b - 1;
    } else {
      m := BetweenSteps(cfg, env, w, command, a, b - 1, h);
    }
  }

  /** Without an error, what the generations up to h hold after a run is what those up to
      g held before it, for the last g that the rotations moved no further than to h, and
      every record of the run after that, byte for byte. */
  lemma {:induction false} RunReads(cfg: Config, env: Env, w: Writer, commands: seq<Command>, history: seq<Bytes>,
                                    g: nat, h: nat)
    requires Healthy(cfg, w, history, false) && Run(cfg, env, w, commands).terminal.None?
    requires RunTo(cfg, env, w, commands, g) <= h < RunTo(cfg, env, w, commands, g + 1) && h < cfg.Kept()
    ensures Newer(Run(cfg, env, w, commands).disk, h) == Newer(w.disk, g) + Concat(Records(commands))
  {
    hide Healthy, Step, Newer, StepTo;
    if commands == [] {
      assert Newer(w.disk, g) + [] == Newer(w.disk, g);
    } else {
      var k := |commands| - 1;
      var mid := Run(cfg, env, w, commands[..k]);
      TerminalStays(cfg, env, mid, commands[k]);
      RunIsHealthy(cfg, env, w, commands[..k], history, false);
      RunGrows(cfg, env, w, commands[..k], g);
      var m := BetweenSteps(cfg, env, mid, commands[k], RunTo(cfg, env, w, commands[..k], g),
                            RunTo(cfg, env, w, commands[..k], g + 1), h);
      RunReads(cfg, env, w, commands[..k], history, g, m);
      StepReads(cfg, env, mid, commands[k], history + Records(commands[..k]), m, h);
      AddedIsConcat(Records(commands[..k]), commands[k]);
      Regroup(Newer(w.disk, g), Concat(Records(commands[..k])), Added(commands[k]));
    }
  }

  /** Of what was there before, nothing is left in the generations up to h once the
      rotations have moved the active log past them. */
  lemma {:induction false} RunGone(cfg: Config, env: Env, w: Writer, commands: seq<Command>, history: seq<Bytes>,
                                   h: nat)
    requires Healthy(cfg, w, history, false) && Run(cfg, env, w, commands).terminal.None?
    requires h < RunTo(cfg, env, w, commands, 0) && h < cfg.Kept()
    ensures EndsWith(Concat(Records(commands)), Newer(Run(cfg, env, w, commands).disk, h))
  {
    hide Healthy, Step, Newer, StepTo, EndsWith;
    var k := |commands| - 1;
    var mid := Run(cfg, env, w, commands[..k]);
    TerminalStays(cfg, env, mid, commands[k]);
    RunIsHealthy(cfg, env, w, commands[..k], history, false);
    StepGrows(cfg, env, mid, commands[k], -1);
    AddedIsConcat(Records(commands[..k]), commands[k]);
    if RunTo(cfg, env, w, commands[..k], 0) == 0 {
      StepReads(cfg, env, mid, commands[k], history + Records(commands[..k]), -1, h);
      EndsWithSuffix(Concat(Records(commands[..k])), Added(commands[k]));
      assert [] + Added(commands[k]) == Added(commands[k]);
    } else {
      var m := BetweenSteps(cfg, env, mid, commands[k], -1, RunTo(cfg, env, w, commands[..k], 0), h);
      StepReads(cfg, env, mid, commands[k], history + Records(commands[..k]), m, h);
      if m >= 0 {
        RunGone(cfg, env, w, commands[..k], history, m);
        EndsWithMore(Concat(Records(commands[..k])), Newer(mid.disk, m), Added(commands[k]));
      } else {
        EndsWithSuffix(Concat(Records(commands[..k])), Added(commands[k]));
        assert [] + Added(commands[k]) == Added(commands[k]);
      }
    }
  }

  /** A later generation stays a later one. */
  lemma {:induction false} RunGrows(cfg: Config, env: Env, w: Writer, commands: seq<Command>, g: nat)
    ensures RunTo(cfg, env, w, commands, g) < RunTo(cfg, env, w, commands, g + 1)
  {
    hide Run, StepTo;
    if commands != [] {
      var k := |commands| - 1;
      RunGrows(cfg, env, w, commands[..k], g);
      StepsGrow(cfg, env, Run(cfg, env, w, commands[..k]), commands[k],
                RunTo(cfg, env, w, commands[..k], g), RunTo(cfg, env, w, commands[..k], g + 1));
    }
  }

  lemma {:induction false} StepsGrow(cfg: Config, env: Env, w: Writer, command: Command, a: nat, b: nat)
    requires a < b
    ensures StepTo(cfg, env, w, command, a) < StepTo(cfg, env, w, command, b)
    decreases b
  {
    hide StepTo;
    StepGrows(cfg, env, w, command, b - 1);
    if a < b - 1 {
      StepsGrow(cfg, env, w, command, a, b - 1);
    }
  }

  lemma {:induction false} StepGrows(cfg: Config, env: Env, w: Writer, command: Command, g: int)
    requires g >= -1
    ensures StepTo(cfg, env, w, command, g + 1) > if g >= 0 then StepTo(cfg, env, w, command, g) else -1
  {
    hide RotatedTo, FlushAndSync;
    if g >= 0 && Rotates(cfg, w, command) {
      var closed := DropWriter(env.io, FlushAndSync(cfg, env.io, w).0);
      RotationGrows(env.io, cfg.Kept(), Attempts(cfg.maxAttempts), closed.disk, closed.tick, 1, g, g + 1);
    }
  }

  lemma {:induction false} RotationGrows(io: Script, retain: nat, max: nat, disk: Disk, tick: nat, number: nat,
                                         a: nat, b: nat)
    requires retain >= 1 && 1 <= number <= max && a < b
    ensures RotatedTo(io, retain, max, disk, tick, number, a) < RotatedTo(io, retain, max, disk, tick, number, b)
    decreases max - number
  {
    hide RotateOnce, StopsAt;
    var r := RotateOnce(io, retain, disk, tick);
    if r.last.Failed? && r.last.transient && number < max {
      RotationGrows(io, retain, max, r.state, r.tick, number + 1,
                    PassTo(io, retain, tick, a), PassTo(io, retain, tick, b));
    }
  }

  lemma {:induction false} AddedIsConcat(records: seq<Bytes>, command: Command)
    ensures Concat(records + Entry(command)) == Concat(records) + Added(command)
  {
    ConcatAppend(records, Entry(command));
    assert Entry(command) != [] ==> Entry(command)[1..] == [];
    assert Added(command) + [] == Added(command);
  }

  /** A pass moves a generation by at most one, so the passes of a run bound how far. */
  lemma {:induction false} RunToBound(cfg: Config, env: Env, w: Writer, commands: seq<Command>, g: nat)
    ensures RunTo(cfg, env, w, commands, g) <= g + RunPasses(cfg, env, w, commands)
  {
    hide Run, RotatedTo, RotationPasses, FlushAndSync;
    if commands != [] {
      var k := |commands| - 1;
      var mid := Run(cfg, env, w, commands[..k]);
      RunToBound(cfg, env, w, commands[..k], g);
      if Rotates(cfg, mid, commands[k]) {
        var closed := DropWriter(env.io, FlushAndSync(cfg, env.io, mid).0);
        MovedByPasses(env.io, cfg.Kept(), Attempts(cfg.maxAttempts), closed.disk, closed.tick, 1,
                      RunTo(cfg, env, w, commands[..k], g));
      }
    }
  }

  /** The first rotation after it moves the active log to generation 1, whatever fails in
      it and is tried again. */
  lemma {:induction false} FirstRotationMovesOnce(cfg: Config, env: Env, w: Writer, commands: seq<Command>,
                                                  history: seq<Bytes>)
    requires Healthy(cfg, w, history, false) && Run(cfg, env, w, commands).terminal.None?
    requires RunRotations(cfg, env, w, commands) <= 1
    ensures RunTo(cfg, env, w, commands, 0) == RunRotations(cfg, env, w, commands)
  {
    hide Healthy, Step, RoomTo, MustRotate;
    if commands != [] {
      var k := |commands| - 1;
      var mid := Run(cfg, env, w, commands[..k]);
      TerminalStays(cfg, env, mid, commands[k]);
      FirstRotationMovesOnce(cfg, env, w, commands[..k], history);
      RunIsHealthy(cfg, env, w, commands[..k], history, false);
      StepIsHealthy(cfg, env, mid, commands[k], history + Records(commands[..k]), false);
      if !Rotates(cfg, mid, commands[k]) {
        StaysInPlace(cfg, env, mid, commands[k], RunTo(cfg, env, w, commands[..k], 0));
      }
    }
  }

  lemma StaysInPlace(cfg: Config, env: Env, w: Writer, command: Command, g: nat)
    requires !Rotates(cfg, w, command)
    ensures StepTo(cfg, env, w, command, g) == g && StepPasses(cfg, env, w, command) == 0
  {
  }

  /** Smooth rotations take as many passes as there are rotations. */
  lemma {:induction false} SmoothPasses(cfg: Config, env: Env, w: Writer, commands: seq<Command>)
    requires Smooth(cfg, env, w, commands)
    ensures RunPasses(cfg, env, w, commands) == RunRotations(cfg, env, w, commands)
  {
    hide Run, StepPasses, Rotates;
    if commands != [] {
      var k := |commands| - 1;
      var mid := Run(cfg, env, w, commands[..k]);
      SmoothPasses(cfg, env, w, commands[..k]);
      if !Rotates(cfg, mid, commands[k]) {
        StaysInPlace(cfg, env, mid, commands[k], 0);
      }
    }
  }

  /** When no call fails every rotation is smooth. */
  lemma {:induction false} NoFailureIsSmooth(cfg: Config, env: Env, w: Writer, commands: seq<Command>)
    requires forall t: nat :: env.io(t).Done?
    ensures Smooth(cfg, env, w, commands)
  {
    hide Run, RotationPasses, FlushAndSync;
    if commands != [] {
      var k := |commands| - 1;
      var mid := Run(cfg, env, w, commands[..k]);
      NoFailureIsSmooth(cfg, env, w, commands[..k]);
      var closed := DropWriter(env.io, FlushAndSync(cfg, env.io, mid).0);
      NoFailureOnePass(env.io, cfg.Kept(), Attempts(cfg.maxAttempts), closed.disk, closed.tick);
    }
  }

  /** Without a size limit nothing rotates. */
  lemma {:induction false} NoLimitNoPasses(cfg: Config, env: Env, w: Writer, commands: seq<Command>)
    requires cfg.maxFileBytes == 0
    ensures RunPasses(cfg, env, w, commands) == 0
  {
    hide Run;
    if commands != [] {
      NoLimitNoPasses(cfg, env, w, commands[..|commands| - 1]);
    }
  }

  /** As long as no error was met the active log ends with the newest record, whatever
      barriers, exports and rotations came before or after it. */
  lemma {:induction false} NewestRecordKept(cfg: Config, env: Env, w: Writer, commands: seq<Command>,
                                            history: seq<Bytes>)
    requires Healthy(cfg, w, history, false)
    requires Run(cfg, env, w, commands).terminal.None? && Records(commands) != []
    ensures EndsWith(Data(Run(cfg, env, w, commands).disk, 0), Records(commands)[|Records(commands)| - 1])
  {
    hide Healthy, Step;
    var k := |commands| - 1;
    var mid := Run(cfg, env, w, commands[..k]);
    TerminalStays(cfg, env, mid, commands[k]);
    RunIsHealthy(cfg, env, w, commands[..k], history, false);
    if commands[k].Record? {
      StepEndsWith(cfg, env, mid, commands[k], history + Records(commands[..k]));
    } else {
      assert Records(commands) == Records(commands[..k]);
      NewestRecordKept(cfg, env, w, commands[..k], history);
      OnlyRecordsChangeBytes(cfg, env, mid, commands[k]);
    }
  }

  lemma StepEndsWith(cfg: Config, env: Env, w: Writer, command: Command, history: seq<Bytes>)
    requires Healthy(cfg, w, history, false) && w.terminal.None?
    requires Step(cfg, env, w, command).0.terminal.None? && command.Record?
    ensures EndsWith(Data(Step(cfg, env, w, command).0.disk, 0), command.encoded)
  {
    hide PersistRecord, Stored;
    PersistIsHealthy(cfg, env, w, command.encoded, history, false);
    var (after, status) := PersistRecord(cfg, env, w, command.encoded);
    assert status.Ok? ==> Step(cfg, env, w, command).0 == after;
    assert status.Err? ==> Step(cfg, env, w, command).0.terminal.Some?;
    EndsWithSuffix(if MustRotate(cfg, w, command.encoded) then [] else w.disk[0].data, command.encoded);
  }

  lemma {:induction false} RecordsAppend(a: seq<Command>, b: seq<Command>)
    ensures Records(a + b) == Records(a) + Records(b)
  {
    if b == [] {
      assert a + b == a;
    } else {
      var k := |b| - 1;
      assert (a + b)[..|a + b| - 1] == a + b[..k];
      RecordsAppend(a, b[..k]);
    }
  }

  /** A record, and all that came after it, is in the log exactly as long as the rotations
      since have not moved the log that took it out of the retained generations; and that
      log and the newer ones read as they did, with every record since after that. */
  lemma {:induction false} KeptSince(cfg: Config, env: Env, w: Writer, commands: seq<Command>, i: nat,
                                     history: seq<Bytes>)
    requires Healthy(cfg, w, history, false) && i < |commands| && commands[i].Record?
    requires Run(cfg, env, w, commands).terminal.None?
    ensures var mid, since := Run(cfg, env, w, commands[..i + 1]), commands[i + 1..];
            var h, after := RunTo(cfg, env, mid, since, 0), Run(cfg, env, w, commands).disk;
            && (h < cfg.Kept() ==> Newer(after, h) == Data(mid.disk, 0) + Concat(Records(since)))
            && (h < cfg.Kept() ==> EndsWith(Newer(after, h), Concat(Records(commands[i..]))))
            && (h < cfg.Kept() ==> EndsWith(Newer(after, cfg.Kept() - 1), Concat(Records(commands[i..]))))
            && (h >= cfg.Kept() && commands[i].encoded != [] ==>
                  !EndsWith(Newer(after, cfg.Kept() - 1), Concat(Records(commands[i..]))))
  {
    hide Healthy, Step, Run, Records, RunTo, EndsWith, Newer;
    var before, since, record := commands[..i + 1], commands[i + 1..], commands[i].encoded;
    assert commands == before + since && commands[i..] == [commands[i]] + since;
    RunAppend(cfg, env, w, before, since);
    RecordsAppend(before, since);
    var mid, after := Run(cfg, env, w, before), Run(cfg, env, w, commands);
    RunIsHealthy(cfg, env, w, before, history, false);
    RecordEndsLog(cfg, env, w, commands, i, history);
    FirstRecord(commands[i], since);
    var h, later := RunTo(cfg, env, mid, since, 0), Concat(Records(since));
    if h < cfg.Kept() {
      RunGrows(cfg, env, mid, since, 0);
      RunReads(cfg, env, mid, since, history + Records(before), 0, h);
      ReadsActive(mid.disk);
      EndsWithMore(Newer(mid.disk, 0), record, later);
      NewerEndsWith(after.disk, h, cfg.Kept() - 1);
      EndsWithThen(Newer(after.disk, cfg.Kept() - 1), Newer(after.disk, h), record + later);
    } else if record != [] {
      RunGone(cfg, env, mid, since, history + Records(before), cfg.Kept() - 1);
      NotAtEnd(Newer(after.disk, cfg.Kept() - 1), later, record);
    }
  }

  lemma NotAtEnd(text: Bytes, later: Bytes, record: Bytes)
    requires EndsWith(later, text) && record != []
    ensures !EndsWith(text, record + later)
  {
  }

  lemma ReadsActive(disk: Disk)
    ensures Newer(disk, 0) == Data(disk, 0)
  {
  }

  /** When a record has been taken, the active log ends with it. */
  lemma {:induction false} RecordEndsLog(cfg: Config, env: Env, w: Writer, commands: seq<Command>, i: nat,
                                         history: seq<Bytes>)
    requires Healthy(cfg, w, history, false) && i < |commands| && commands[i].Record?
    requires Run(cfg, env, w, commands).terminal.None?
    ensures var mid := Run(cfg, env, w, commands[..i + 1]);
            mid.terminal.None? && EndsWith(Data(mid.disk, 0), commands[i].encoded)
  {
    hide Healthy, Step, Run, Records, EndsWith;
    var before, since := commands[..i + 1], commands[i + 1..];
    assert commands == before + since;
    RunAppend(cfg, env, w, before, since);
    RecordsAppend(before, since);
    MidTerminal(cfg, env, Run(cfg, env, w, before), since);
    RecordIsLast(commands[..i], commands[i]);
    assert commands[..i] + [commands[i]] == before;
    NewestRecordKept(cfg, env, w, before, history);
  }

  lemma {:induction false} RecordIsLast(before: seq<Command>, command: Command)
    requires command.Record?
    ensures Records(before + [command]) == Records(before) + [command.encoded]
  {
    assert (before + [command])[..|before|] == before;
  }

  lemma {:induction false} FirstRecord(command: Command, since: seq<Command>)
    requires command.Record?
    ensures Concat(Records([command] + since)) == command.encoded + Concat(Records(since))
  {
    RecordsAppend([command], since);
    RecordIsLast([], command);
    assert [] + [command] == [command];
    assert ([command.encoded] + Records(since))[1..] == Records(since);
  }

  lemma {:induction false} MidTerminal(cfg: Config, env: Env, w: Writer, commands: seq<Command>)
    ensures w.terminal.Some? ==> Run(cfg, env, w, commands).terminal == w.terminal
  {
    hide Step;
    if commands != [] {
      var k := |commands| - 1;
      MidTerminal(cfg, env, w, commands[..k]);
      TerminalStays(cfg, env, Run(cfg, env, w, commands[..k]), commands[k]);
    }
  }

  predicate IsBarrier(command: Command) { command.Barrier? || command.Shutdown? }

  /** A barrier or shutdown answers with the error the writer has met, its own flush
      included, and with Ok exactly when it has met none. */
  lemma BarrierReportsTerminal(cfg: Config, env: Env, w: Writer, command: Command)
    requires IsBarrier(command)
    ensures var (after, reply) := Step(cfg, env, w, command);
            reply == Flushed(if after.terminal.Some? then Err(after.terminal.value) else Ok)
  {
    hide FlushAndSync;
    FlushSyncs(cfg, env.io, w);
  }

  /** What the log holds after a run without errors from `disk`. The generations up to any
      h hold what those up to g held, for the last g that was moved no further than to h,
      and every record after that; that is everything if nothing rotated. The newest record is at the end of the
      active log, and every record is there, with all that came after it, as `HoldsSince`
      says. */
  ghost predicate Holds(cfg: Config, env: Env, disk: Disk, tick: nat, commands: seq<Command>)
  {
    var start := Start(cfg, env, disk, tick);
    var after, records := Run(cfg, env, start, commands).disk, Records(commands);
    && (forall g: nat, h: nat | h < cfg.Kept() :: HoldsFrom(cfg, env, disk, tick, commands, g, h))
    && (RunPasses(cfg, env, start, commands) == 0 ==> HoldsAll(disk, after, records))
    && (cfg.maxFileBytes == 0 ==> HoldsAll(disk, after, records))
    && (records != [] ==> EndsWith(Data(after, 0), records[|records| - 1]))
    && (forall i: nat | i < |commands| && commands[i].Record? :: HoldsSince(cfg, env, start, commands, i))
  }

  ghost predicate HoldsFrom(cfg: Config, env: Env, disk: Disk, tick: nat, commands: seq<Command>, g: nat, h: nat)
  {
    var start := Start(cfg, env, disk, tick);
    RunTo(cfg, env, start, commands, g) <= h < RunTo(cfg, env, start, commands, g + 1) ==>
      Newer(Run(cfg, env, start, commands).disk, h) == Newer(disk, g) + Concat(Records(commands))
  }

  ghost predicate HoldsAll(before: Disk, after: Disk, records: seq<Bytes>)
  {
    forall g: nat :: Newer(after, g) == Newer(before, g) + Concat(records)
  }

  /** Record i, unless it is empty, is in the log with all that came after it exactly when
      the log that took it was not moved out of the retained generations. So it is while
      the passes since are fewer than those; it survives one smooth rotation less than
      that; and the first one after it in any case, if more than one file is retained. */
  ghost predicate HoldsSince(cfg: Config, env: Env, start: Writer, commands: seq<Command>, i: nat)
    requires i < |commands| && commands[i].Record?
  {
    var mid, since := Run(cfg, env, start, commands[..i + 1]), commands[i + 1..];
    var kept := EndsWith(Newer(Run(cfg, env, start, commands).disk, cfg.Kept() - 1), Concat(Records(commands[i..])));
    && (RunTo(cfg, env, mid, since, 0) < cfg.Kept() ==> kept)
    && (kept && commands[i].encoded != [] ==> RunTo(cfg, env, mid, since, 0) < cfg.Kept())
    && (RunPasses(cfg, env, mid, since) < cfg.Kept() ==> kept)
    && (Smooth(cfg, env, mid, since) && RunRotations(cfg, env, mid, since) < cfg.Kept() ==> kept)
    && (RunRotations(cfg, env, mid, since) <= 1 < cfg.Kept() ==> kept)
  }

  lemma StartSameBytes(cfg: Config, env: Env, disk: Disk, tick: nat)
    ensures SameBytes(disk, Start(cfg, env, disk, tick).disk)
  {
    hide RetryFrom;
    RetriedOpen(Attempts(cfg.maxAttempts), env.io, disk, tick, 1);
  }

  lemma {:induction false} RecordHolds(cfg: Config, env: Env, start: Writer, commands: seq<Command>, i: nat,
                                       initial: seq<Bytes>)
    requires Healthy(cfg, start, initial, false) && i < |commands| && commands[i].Record?
    requires Run(cfg, env, start, commands).terminal.None?
    ensures HoldsSince(cfg, env, start, commands, i)
  {
    hide Healthy, Run, RunTo, RunPasses, RunRotations, Records, EndsWith, Smooth;
    var before, since := commands[..i + 1], commands[i + 1..];
    var mid := Run(cfg, env, start, before);
    assert commands == before + since;
    RunAppend(cfg, env, start, before, since);
    RecordsAppend(before, since);
    RunIsHealthy(cfg, env, start, before, initial, false);
    RunToBound(cfg, env, mid, since, 0);
    if Smooth(cfg, env, mid, since) {
      SmoothPasses(cfg, env, mid, since);
    }
    if RunRotations(cfg, env, mid, since) <= 1 {
      FirstRotationMovesOnce(cfg, env, mid, since, initial + Records(before));
    }
    KeptSince(cfg, env, start, commands, i, initial);
  }

  lemma {:induction false} NewerWithin(disk: Disk, retain: nat, g: nat)
    requires retain >= 1 && Within(disk, retain) && g >= retain
    ensures Newer(disk, g) == Newer(disk, retain - 1)
  {
    if g > retain {
      NewerWithin(disk, retain, g - 1);
    }
  }

  /** With no pass of any rotation, all that was there is still there. */
  lemma {:induction false} NothingDropped(cfg: Config, env: Env, disk: Disk, tick: nat, commands: seq<Command>,
                                          initial: seq<Bytes>, g: nat)
    requires Stored(cfg.Kept(), disk, initial, false) && AllSynced(disk)
    requires Run(cfg, env, Start(cfg, env, disk, tick), commands).terminal.None?
    requires RunPasses(cfg, env, Start(cfg, env, disk, tick), commands) == 0
    ensures Newer(Run(cfg, env, Start(cfg, env, disk, tick), commands).disk, g)
            == Newer(disk, g) + Concat(Records(commands))
  {
    hide Start, Run, RunPasses, RunTo, Records, AllSynced, Newer, Contiguous;
    var start := Start(cfg, env, disk, tick);
    var after := Run(cfg, env, start, commands);
    StartIsHealthy(cfg, env, disk, tick, initial, false);
    StartSameBytes(cfg, env, disk, tick);
    RunIsHealthy(cfg, env, start, commands, initial, false);
    var h := if g < cfg.Kept() then g else cfg.Kept() - 1;
    RunToBound(cfg, env, start, commands, h);
    RunGrows(cfg, env, start, commands, h);
    RunReads(cfg, env, start, commands, initial, h, h);
    NewerSame(disk, start.disk, h);
    if g >= cfg.Kept() {
      NewerWithin(disk, cfg.Kept(), g);
      NewerWithin(after.disk, cfg.Kept(), g);
    }
  }

  lemma RunReadsFrom(cfg: Config, env: Env, disk: Disk, tick: nat, commands: seq<Command>, initial: seq<Bytes>,
                     g: nat, h: nat)
    requires Healthy(cfg, Start(cfg, env, disk, tick), initial, false) && h < cfg.Kept()
    requires Run(cfg, env, Start(cfg, env, disk, tick), commands).terminal.None?
    ensures HoldsFrom(cfg, env, disk, tick, commands, g, h)
  {
    hide Start, Run, RunTo, Records, Healthy, Newer;
    var start := Start(cfg, env, disk, tick);
    StartSameBytes(cfg, env, disk, tick);
    NewerSame(disk, start.disk, g);
    if RunTo(cfg, env, start, commands, g) <= h < RunTo(cfg, env, start, commands, g + 1) {
      RunReads(cfg, env, start, commands, initial, g, h);
    }
  }

  lemma RunHolds(cfg: Config, env: Env, disk: Disk, tick: nat, commands: seq<Command>, initial: seq<Bytes>)
    requires Stored(cfg.Kept(), disk, initial, false) && AllSynced(disk)
    requires Run(cfg, env, Start(cfg, env, disk, tick), commands).terminal.None?
    ensures Holds(cfg, env, disk, tick, commands)
  {
    hide Start, Run, RunPasses, RunTo, Records, Stored, AllSynced, Healthy, EndsWith, HoldsSince, HoldsFrom;
    var start := Start(cfg, env, disk, tick);
    StartIsHealthy(cfg, env, disk, tick, initial, false);
    StartSameBytes(cfg, env, disk, tick);
    RunIsHealthy(cfg, env, start, commands, initial, false);
    forall g: nat, h: nat | h < cfg.Kept() ensures HoldsFrom(cfg, env, disk, tick, commands, g, h) {
      RunReadsFrom(cfg, env, disk, tick, commands, initial, g, h);
    }
    if cfg.maxFileBytes == 0 {
      NoLimitNoPasses(cfg, env, start, commands);
    }
    if RunPasses(cfg, env, start, commands) == 0 {
      forall g: nat
        ensures Newer(Run(cfg, env, start, commands).disk, g) == Newer(disk, g) + Concat(Records(commands))
      {
        NothingDropped(cfg, env, disk, tick, commands, initial, g);
      }
    }
    if Records(commands) != [] {
      NewestRecordKept(cfg, env, start, commands, initial);
    }
    forall i: nat | i < |commands| && commands[i].Record? ensures HoldsSince(cfg, env, start, commands, i) {
      RecordHolds(cfg, env, start, commands, i, initial);
    }
  }

  /** `flush` and `shutdown` are durable barriers: if the last command is answered Ok,
      then every retained file is synced in full; read oldest to newest they are a
      contiguous newest part of the initial log followed by every record before it; and
      they hold all of that but what rotations had to drop. */
  lemma BarrierIsDurable(cfg: Config, env: Env, disk: Disk, tick: nat, commands: seq<Command>, initial: seq<Bytes>)
    requires Stored(cfg.Kept(), disk, initial, false) && AllSynced(disk)
    requires commands != [] && IsBarrier(commands[|commands| - 1])
    requires LastReply(cfg, env, Start(cfg, env, disk, tick), commands) == Flushed(Ok)
    ensures var w := Run(cfg, env, Start(cfg, env, disk, tick), commands);
            && AllSynced(w.disk)
            && Within(w.disk, cfg.Kept())
            && Contiguous(w.disk, initial + Records(commands))
    ensures Holds(cfg, env, disk, tick, commands)
  {
    hide Step, Stored, Holds, RunTo;
    var start, k := Start(cfg, env, disk, tick), |commands| - 1;
    var before := Run(cfg, env, start, commands[..k]);
    StartIsHealthy(cfg, env, disk, tick, initial, false);
    RunIsHealthy(cfg, env, start, commands, initial, false);
    RunIsHealthy(cfg, env, start, commands[..k], initial, false);
    BarrierReportsTerminal(cfg, env, before, commands[k]);
    TerminalStays(cfg, env, before, commands[k]);
    BarrierSyncs(cfg, env, before, commands[k]);
    StoredParts(cfg, Run(cfg, env, start, commands).disk, initial + Records(commands));
    RunHolds(cfg, env, disk, tick, commands, initial);
  }

  lemma StoredParts(cfg: Config, disk: Disk, history: seq<Bytes>)
    requires Stored(cfg.Kept(), disk, history, false)
    ensures Within(disk, cfg.Kept()) && Contiguous(disk, history)
  {
  }

  lemma BarrierSyncs(cfg: Config, env: Env, w: Writer, command: Command)
    requires IsBarrier(command) && w.open && ArchivesSynced(w.disk)
    requires Step(cfg, env, w, command).1 == Flushed(Ok)
    ensures AllSynced(Step(cfg, env, w, command).0.disk)
  {
    hide FlushAndSync;
    FlushSyncs(cfg, env.io, w);
  }

  /** The first error is the last word: once a command has failed, every later
      barrier, shutdown and export answers with that same error. */
  lemma {:induction false} FirstErrorIsSticky(cfg: Config, env: Env, w: Writer, commands: seq<Command>, e: IoError)
    requires w.terminal == Some(e)
    ensures Run(cfg, env, w, commands).terminal == Some(e)
    ensures commands != [] && IsBarrier(commands[|commands| - 1]) ==>
      LastReply(cfg, env, w, commands) == Flushed(Err(e))
    ensures commands != [] && commands[|commands| - 1].Export? ==>
      LastReply(cfg, env, w, commands) == Exported(Err(e), [])
  {
    hide FlushAndSync, PersistRecord;
    if commands != [] {
      var k := |commands| - 1;
      FirstErrorIsSticky(cfg, env, w, commands[..k], e);
      TerminalStays(cfg, env, Run(cfg, env, w, commands[..k]), commands[k]);
      FlushSyncs(cfg, env.io, Run(cfg, env, w, commands[..k]));
    }
  }
}
