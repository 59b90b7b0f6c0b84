/** What an export of the audit log returns, and when that is all the log retains. */
module AuditExport {
  import opened Wrappers
  import opened Text
  import opened AuditDisk
  import opened AuditWriter
  import opened AuditRuns

  /** The last of the archives g, g + 1, ... before the first that is missing. */
  function Top(disk: Disk, g: nat, last: nat): (top: nat)
    requires g >= 1
    ensures top >= g - 1
    decreases last + 1 - g
  {
    if g > last || g !in disk then g - 1 else Top(disk, g + 1, last)
  }

  lemma {:induction false} ExportCons(file: Bytes, rest: seq<Bytes>)
    requires EndsLine(file)
    ensures ExportText([file] + rest) == ExportText(rest) + file
  {
    assert ([file] + rest)[1..] == rest;
  }

  lemma NewerStep(disk: Disk, g: nat)
    requires g > 0 && g in disk
    ensures Newer(disk, g) == disk[g].data + Newer(disk, g - 1)
  {
  }

  lemma ArchivesStep(disk: Disk, g: nat, last: nat)
    requires g >= 1
    ensures if g <= last && g in disk
            then Archives(disk, g, last) == [disk[g].data] + Archives(disk, g + 1, last)
                 && Top(disk, g, last) == Top(disk, g + 1, last)
            else Archives(disk, g, last) == [] && Top(disk, g, last) == g - 1
  {
  }

  lemma {:induction false} ExportIsNewer(disk: Disk, g: nat, last: nat)
    requires g >= 1
    requires forall j :: j in disk ==> EndsLine(disk[j].data)
    ensures ExportText(Archives(disk, g, last)) + Newer(disk, g - 1) == Newer(disk, Top(disk, g, last))
    decreases last + 1 - g
  {
    hide EndsLine, Terminated, Concat, Newer, Archives, Top;
    ArchivesStep(disk, g, last);
    if g <= last && g in disk {
      ExportIsNewer(disk, g + 1, last);
      var rest := Archives(disk, g + 1, last);
      ExportCons(disk[g].data, rest);
      NewerStep(disk, g);
      Regroup(ExportText(rest), disk[g].data, Newer(disk, g - 1));
    } else {
      assert [] + Newer(disk, g - 1) == Newer(disk, g - 1);
    }
  }

  lemma SnapshotExport(disk: Disk)
    requires 0 in disk && forall j :: j in disk ==> EndsLine(disk[j].data)
    ensures ExportText(SnapshotFiles(disk)) == Newer(disk, Top(disk, 1, LAST_ARCHIVE))
  {
    hide Archives, Top;
    ExportIsNewer(disk, 1, LAST_ARCHIVE);
    var archives := Archives(disk, 1, LAST_ARCHIVE);
    assert ([disk[0].data] + archives)[1..] == archives;
  }

  // ---- files that do not end their last line ---------------------------------------

  predicate EndsInReturn(text: Bytes) { text != [] && text[|text| - 1] == CR }

  /** A file that does not end its last line gets one line feed, and no other file any; the
      lines stay the same exactly when that does not complete a "\r\n". */
  lemma {:induction false} TerminatedLines(text: Bytes)
    ensures Terminated(text) == if text == [] || text[|text| - 1] == LF then text else text + [LF]
    ensures EndsLine(Terminated(text))
    ensures Lines(Terminated(text)) == Lines(text) <==> !EndsInReturn(text)
  {
    hide Lines, Written;
    if text != [] && text[|text| - 1] != LF {
      var crlf, rest := WrittenFromLines(text);
      var front := Written(Lines(text)[..|crlf|], crlf);
      FrontEndsLine(Lines(text)[..|crlf|], crlf);
      assert rest != [] by { assert rest == [] ==> text == front; }
      assert text[|text| - 1] == rest[|rest| - 1];
      assert text + [LF] == front + (rest + [LF]);
      LinesAppend(front, rest + [LF]);
      LinesAppend(front, rest);
      UnterminatedLine(rest);
      LastTerminated(rest);
    }
  }

  lemma {:induction false} FrontEndsLine(lines: seq<Bytes>, crlf: seq<bool>)
    requires |lines| == |crlf|
    ensures EndsLine(Written(lines, crlf))
  {
    if lines != [] {
      FrontEndsLine(lines[1..], crlf[1..]);
    }
  }

  lemma {:induction false} LinesAppend(a: Bytes, b: Bytes)
    requires EndsLine(a)
    ensures Lines(a + b) == Lines(a) + Lines(b)
  {
    hide RawLines, ChompAll;
    RawLinesAppend(a, b);
    ChompAllAppend(RawLines(a), RawLines(b));
  }

  lemma {:induction false} LastTerminated(rest: Bytes)
    requires rest != [] && NoLF(rest)
    ensures Lines(rest + [LF]) == [if EndsInReturn(rest) then rest[..|rest| - 1] else rest]
  {
    hide Lines;
    UnterminatedLine([]);
    if EndsInReturn(rest) {
      var x := rest[..|rest| - 1];
      assert forall k :: 0 <= k < |x| ==> x[k] == rest[k];
      TerminatedLine(x, true, []);
      assert x + [CR, LF] + [] == rest + [LF];
    } else {
      TerminatedLine(rest, false, []);
      assert rest + [LF] + [] == rest + [LF];
    }
  }

  /** All lines of the files, which are listed newest first, from the oldest on. */
  function OldestLines(files: seq<Bytes>): seq<Bytes>
  {
    if files == [] then [] else OldestLines(files[1..]) + Lines(files[0])
  }

  /** So an export holds the lines of all its files one after the other, none run together
      with the next, as long as no file ends in a carriage return. */
  lemma {:induction false} ExportLines(files: seq<Bytes>)
    requires forall f :: 0 <= f < |files| ==> !EndsInReturn(files[f])
    ensures EndsLine(ExportText(files)) && Lines(ExportText(files)) == OldestLines(files)
  {
    hide Lines, Terminated;
    if files == [] {
      UnterminatedLine([]);
    } else {
      ExportLines(files[1..]);
      TerminatedLines(files[0]);
      LinesAppend(ExportText(files[1..]), Terminated(files[0]));
    }
  }

  // ---- when the export is the whole log ------------------------------------------

  /** The archives follow one another from the active log on. */
  ghost predicate NoGap(disk: Disk) { forall g :: g in disk && g > 0 ==> g - 1 in disk }

  lemma {:induction false} NewerLonger(disk: Disk, g: nat, h: nat)
    requires g <= h
    ensures |Newer(disk, g)| <= |Newer(disk, h)|
    ensures Newer(disk, g) == Newer(disk, h) <==> forall j | g < j <= h :: Data(disk, j) == []
    decreases h
  {
    hide Data;
    if g < h {
      NewerLonger(disk, g, h - 1);
      assert |Newer(disk, h)| == |Data(disk, h)| + |Newer(disk, h - 1)|;
      if Data(disk, h) == [] {
        assert Newer(disk, h) == Newer(disk, h - 1);
      }
    }
  }

  lemma {:induction false} TopNames(disk: Disk, g: nat, last: nat, j: nat)
    requires g >= 1
    ensures g <= j <= Top(disk, g, last) ==> j in disk
    ensures Top(disk, g, last) < last ==> Top(disk, g, last) + 1 !in disk
    decreases last + 1 - g
  {
    if g <= last && g in disk && j != g {
      TopNames(disk, g + 1, last, j);
    } else if g <= last && g in disk {
      TopNames(disk, g + 1, last, g + 1);
    }
  }

  lemma {:induction false} TopWithin(disk: Disk, retain: nat)
    requires Within(disk, retain) && retain >= 1
    ensures Top(disk, 1, LAST_ARCHIVE) < retain
  {
    hide Top;
    TopNames(disk, 1, LAST_ARCHIVE, Top(disk, 1, LAST_ARCHIVE));
  }

  /** Without a gap there is nothing above the archives that are found. */
  lemma {:induction false} NoGapTop(disk: Disk, retain: nat, j: nat)
    requires NoGap(disk) && Within(disk, retain) && retain <= LAST_ARCHIVE + 1
    requires j > Top(disk, 1, LAST_ARCHIVE)
    ensures j !in disk
    decreases j
  {
    hide Top;
    var top := Top(disk, 1, LAST_ARCHIVE);
    TopNames(disk, 1, LAST_ARCHIVE, j);
    if j > top + 1 {
      NoGapTop(disk, retain, j - 1);
    }
  }

  /** A rotation that takes one pass, but for passes that fail at once, moves all
      generations up by one. */
  lemma {:induction false} OnePassShifts(cfg: Config, io: Script, disk: Disk, tick: nat, number: nat)
    requires 1 <= number <= Attempts(cfg.maxAttempts)
    ensures var max := Attempts(cfg.maxAttempts);
            var r := RetryFrom(RotateFiles, max, (d, t) => RotateOnce(io, cfg.Kept(), d, t), disk, tick, number);
            && (r.status.Ok? ==> RotationPasses(io, cfg.Kept(), max, disk, tick, number) >= 1)
            && (r.status.Ok? && RotationPasses(io, cfg.Kept(), max, disk, tick, number) == 1 ==>
                  r.state == Shifted(disk, cfg.Kept(), 0))
    decreases Attempts(cfg.maxAttempts) - number
  {
    hide RotateOnce, Shifted;
    var max := Attempts(cfg.maxAttempts);
    RotateShifts(io, cfg.Kept(), disk, tick);
    var a := RotateOnce(io, cfg.Kept(), disk, tick);
    if a.last.Failed? && a.last.transient && number < max {
      OnePassShifts(cfg, io, a.state, a.tick, number + 1);
    }
  }

  lemma ShiftedNoGap(disk: Disk, retain: nat, file: LogFile)
    requires NoGap(disk) && Within(disk, retain)
    ensures NoGap(Shifted(disk, retain, 0)[0 := file])
  {
    var after := Shifted(disk, retain, 0)[0 := file];
    forall g | g in after && g > 0 ensures g - 1 in after {
      if g > 1 {
        assert g - 1 in disk && g - 2 in disk;
      }
    }
  }

  /** What names the generations have depends on rotations alone. */
  lemma {:induction false} PersistNoGap(cfg: Config, env: Env, w: Writer, encoded: Bytes, history: seq<Bytes>)
    requires Healthy(cfg, w, history, false) && w.terminal.None? && PersistRecord(cfg, env, w, encoded).1.Ok?
    requires NoGap(w.disk) && (MustRotate(cfg, w, encoded) ==> RoomPasses(cfg, env, w, encoded) == 1)
    ensures NoGap(PersistRecord(cfg, env, w, encoded).0.disk)
  {
    hide RetryFrom, Contiguous, RotationPasses, Shifted, WriteFrom;
    if MustRotate(cfg, w, encoded) {
      var (flushed, fs) := FlushAndSync(cfg, env.io, w);
      FlushSyncs(cfg, env.io, w);
      var closed := DropWriter(env.io, flushed);
      OnePassShifts(cfg, env.io, closed.disk, closed.tick, 1);
      var (rotated, rs) := RotateActiveWriter(cfg, env.io, w);
      RetriedOpen(Attempts(cfg.maxAttempts), env.io, rotated.disk, rotated.tick, 1);
      var after := PersistRecord(cfg, env, w, encoded).0;
      assert rotated.disk == Shifted(closed.disk, cfg.Kept(), 0);
      NoneAtStop(closed.disk, cfg.Kept(), 0);
      assert MakeRoom(cfg, env, w, encoded).0.disk == rotated.disk[0 := LogFile([], 0)];
      assert after.disk == rotated.disk[0 := after.disk[0]];
      assert NoGap(closed.disk) && Within(closed.disk, cfg.Kept());
      ShiftedNoGap(closed.disk, cfg.Kept(), after.disk[0]);
    }
  }

  lemma {:induction false} RunNoGap(cfg: Config, env: Env, w: Writer, commands: seq<Command>, history: seq<Bytes>)
    requires Healthy(cfg, w, history, false) && Run(cfg, env, w, commands).terminal.None?
    requires NoGap(w.disk) && Smooth(cfg, env, w, commands)
    ensures NoGap(Run(cfg, env, w, commands).disk)
  {
    hide Healthy, PersistRecord, FlushWriter, RoomPasses, MustRotate;
    if commands != [] {
      var k := |commands| - 1;
      var mid := Run(cfg, env, w, commands[..k]);
      TerminalStays(cfg, env, mid, commands[k]);
      RunNoGap(cfg, env, w, commands[..k], history);
      RunIsHealthy(cfg, env, w, commands[..k], history, false);
      if commands[k].Record? {
        var (after, status) := PersistRecord(cfg, env, mid, commands[k].encoded);
        FailedPersistIsTerminal(cfg, env, mid, commands[k]);
        PersistNoGap(cfg, env, mid, commands[k].encoded, history + Records(commands[..k]));
      } else {
        FlushNames(cfg, env, mid, commands[k]);
      }
    }
  }

  lemma FailedPersistIsTerminal(cfg: Config, env: Env, w: Writer, command: Command)
    requires command.Record?
    ensures var (after, status) := PersistRecord(cfg, env, w, command.encoded);
            if status.Ok? then Step(cfg, env, w, command).0 == after
            else Step(cfg, env, w, command).0.terminal.Some?
  {
    hide PersistRecord;
    var (after, status) := PersistRecord(cfg, env, w, command.encoded);
    assert status.Err? ==> Step(cfg, env, w, command).0 == DropWriter(env.io, SetTerminal(after, status));
  }

  lemma FlushNames(cfg: Config, env: Env, w: Writer, command: Command)
    requires !command.Record?
    ensures Step(cfg, env, w, command).0.disk.Keys == w.disk.Keys
  {
    hide FlushAndSync;
    FlushSyncs(cfg, env.io, w);
  }

  // ---- the answer ------------------------------------------------------------------

  /** An export that is answered Ok is the text of the active log and the archives up to
      the first that is missing: a contiguous newest part of the initial log followed by
      every record admitted before it, cut between records, that ends with the newest. */
  lemma ExportIsContiguous(cfg: Config, env: Env, disk: Disk, tick: nat, commands: seq<Command>, initial: seq<Bytes>,
                           text: Bytes)
    requires Stored(cfg.Kept(), disk, initial, true) && AllSynced(disk) && TidyRecords(commands)
    requires commands != [] && commands[|commands| - 1].Export?
    requires LastReply(cfg, env, Start(cfg, env, disk, tick), commands) == Exported(Ok, text)
    ensures var w := Run(cfg, env, Start(cfg, env, disk, tick), commands);
            && text == Newer(w.disk, Top(w.disk, 1, LAST_ARCHIVE))
            && IsNewestPart(text, initial + Records(commands))
            && (Records(commands) != [] ==> EndsWith(text, Records(commands)[|Records(commands)| - 1]))
    ensures Holds(cfg, env, disk, tick, commands)
  {
    hide Run, Records, Holds, RunTo, EndsWith, Top;
    var start, k := Start(cfg, env, disk, tick), |commands| - 1;
    assert commands[..k + 1] == commands;
    StartIsHealthy(cfg, env, disk, tick, initial, true);
    RunIsHealthy(cfg, env, start, commands, initial, true);
    var w := Run(cfg, env, start, commands);
    ExportAnswer(cfg, env, start, commands);
    SnapshotExport(w.disk);
    RunHolds(cfg, env, disk, tick, commands, initial);
    if Records(commands) != [] {
      ExportEndsWith(cfg, env, disk, tick, commands, w.disk);
    }
  }

  /** It is the whole retained log exactly when no archive above the first missing one
      holds anything; so it is when the log started without a gap and all rotations since
      were smooth. */
  lemma {:induction false} ExportIsWholeWhen(cfg: Config, env: Env, disk: Disk, tick: nat, commands: seq<Command>,
                                             initial: seq<Bytes>, text: Bytes)
    requires Stored(cfg.Kept(), disk, initial, true) && AllSynced(disk) && TidyRecords(commands)
    requires commands != [] && commands[|commands| - 1].Export?
    requires LastReply(cfg, env, Start(cfg, env, disk, tick), commands) == Exported(Ok, text)
    ensures var w := Run(cfg, env, Start(cfg, env, disk, tick), commands);
            text == Newer(w.disk, cfg.Kept() - 1)
            <==> forall g | Top(w.disk, 1, LAST_ARCHIVE) < g < cfg.Kept() :: Data(w.disk, g) == []
    ensures NoGap(disk) && Smooth(cfg, env, Start(cfg, env, disk, tick), commands) && cfg.Kept() <= LAST_ARCHIVE + 1 ==>
      text == Newer(Run(cfg, env, Start(cfg, env, disk, tick), commands).disk, cfg.Kept() - 1)
  {
    hide Run, Start, Records, Holds, EndsWith, Smooth, NoGap, Top, Healthy, Stored, AllSynced, TidyRecords, Data, Newer;
    hide IsNewestPart, Within, ExportText, SnapshotFiles, LastReply;
    var start := Start(cfg, env, disk, tick);
    ExportIsContiguous(cfg, env, disk, tick, commands, initial, text);
    ExportAnswer(cfg, env, start, commands);
    StartIsHealthy(cfg, env, disk, tick, initial, true);
    HealthyIsWithin(cfg, env, start, commands, initial);
    var w := Run(cfg, env, start, commands);
    TopWithin(w.disk, cfg.Kept());
    NewerLonger(w.disk, Top(w.disk, 1, LAST_ARCHIVE), cfg.Kept() - 1);
    if NoGap(disk) && Smooth(cfg, env, start, commands) && cfg.Kept() <= LAST_ARCHIVE + 1 {
      StartNoGap(cfg, env, disk, tick);
      RunNoGap(cfg, env, start, commands, initial);
      NoGapWhole(w.disk, cfg.Kept());
    }
  }

  lemma {:induction false} NoGapWhole(disk: Disk, retain: nat)
    requires NoGap(disk) && Within(disk, retain) && 1 <= retain <= LAST_ARCHIVE + 1
    ensures Newer(disk, Top(disk, 1, LAST_ARCHIVE)) == Newer(disk, retain - 1)
  {
    hide NoGap, Top, Newer, Within;
    var top := Top(disk, 1, LAST_ARCHIVE);
    TopWithin(disk, retain);
    NewerLonger(disk, top, retain - 1);
    forall g | top < g < retain ensures Data(disk, g) == [] {
      NoGapTop(disk, retain, g);
    }
  }

  lemma HealthyIsWithin(cfg: Config, env: Env, w: Writer, commands: seq<Command>, history: seq<Bytes>)
    requires Healthy(cfg, w, history, true) && TidyRecords(commands)
    ensures Healthy(cfg, w, history, false)
    ensures Run(cfg, env, w, commands).terminal.None? ==> Within(Run(cfg, env, w, commands).disk, cfg.Kept())
  {
    hide Run, Records;
    RunIsHealthy(cfg, env, w, commands, history, true);
  }

  lemma StartNoGap(cfg: Config, env: Env, disk: Disk, tick: nat)
    requires NoGap(disk)
    ensures NoGap(Start(cfg, env, disk, tick).disk)
  {
    hide RetryFrom;
    RetriedOpen(Attempts(cfg.maxAttempts), env.io, disk, tick, 1);
  }

  lemma {:induction false} ExportEndsWith(cfg: Config, env: Env, disk: Disk, tick: nat, commands: seq<Command>,
                                          after: Disk)
    requires Holds(cfg, env, disk, tick, commands) && Records(commands) != []
    requires after == Run(cfg, env, Start(cfg, env, disk, tick), commands).disk
    ensures EndsWith(Newer(after, Top(after, 1, LAST_ARCHIVE)), Records(commands)[|Records(commands)| - 1])
  {
    hide Run, Records, EndsWith, Start, RunPasses, RunTo, HoldsAll, HoldsSince, HoldsFrom;
    var newest := Records(commands)[|Records(commands)| - 1];
    NewerEndsWith(after, 0, Top(after, 1, LAST_ARCHIVE));
    EndsWithThen(Newer(after, Top(after, 1, LAST_ARCHIVE)), Newer(after, 0), newest);
  }

  lemma ExportAnswer(cfg: Config, env: Env, start: Writer, commands: seq<Command>)
    requires commands != [] && commands[|commands| - 1].Export?
    ensures var w := Run(cfg, env, start, commands);
            LastReply(cfg, env, start, commands)
            == if w.terminal.Some? then Exported(Err(w.terminal.value), [])
               else Exported(Ok, ExportText(SnapshotFiles(w.disk)))
  {
    hide FlushAndSync, ExportText, SnapshotFiles;
    FlushSyncs(cfg, env.io, Run(cfg, env, start, commands[..|commands| - 1]));
  }

  /** A rotation that is tried again can leave a gap: with four retained files and one
      transient failure, of the last rename of the first pass, the second pass leaves
      generation 2 without a file, and an export does not reach "b" above it. */
  lemma {:induction false} GapHidesArchive(cfg: Config, io: Script, a: LogFile, b: LogFile, c: LogFile)
    requires cfg.Kept() == 4 && Attempts(cfg.maxAttempts) == 2
    requires io(3) == Failed(true, 0) && forall t: nat | t != 3 :: io(t) == Done(0)
    ensures var disk: Disk := map[0 := a, 1 := b, 2 := c];
            var r := RetryFrom(RotateFiles, 2, (d, t) => RotateOnce(io, cfg.Kept(), d, t), disk, 0, 1);
            r.status.Ok? && r.state == map[1 := a, 3 := b]
    ensures Top(map[1 := a, 3 := b], 1, LAST_ARCHIVE) == 1
  {
    var disk: Disk := map[0 := a, 1 := b, 2 := c];
    StoppedPass(io, a, b, c);
    WholePass(io, a, b, c);
    assert Top(map[1 := a, 3 := b], 2, LAST_ARCHIVE) == 1;
  }

  lemma {:induction false} StoppedPass(io: Script, a: LogFile, b: LogFile, c: LogFile)
    requires io(3) == Failed(true, 0) && forall t: nat | t != 3 :: io(t) == Done(0)
    ensures RotateOnce(io, 4, map[0 := a, 1 := b, 2 := c], 0)
            == Attempt(map[0 := a, 2 := b, 3 := c], 4, Failed(true, 0))
  {
    var disk: Disk := map[0 := a, 1 := b, 2 := c];
    assert Remove(disk, 3) == disk;
    var moved: Disk := map[0 := a, 1 := b, 3 := c];
    assert Rename(disk, 2) == moved;
    assert RenameDown(io, disk, 1, 2) == RenameDown(io, moved, 2, 1);
    assert Rename(moved, 1) == map[0 := a, 2 := b, 3 := c];
    assert RenameDown(io, moved, 2, 1) == RenameDown(io, map[0 := a, 2 := b, 3 := c], 3, 0);
  }

  lemma {:induction false} WholePass(io: Script, a: LogFile, b: LogFile, c: LogFile)
    requires forall t: nat | t != 3 :: io(t) == Done(0)
    ensures var r := RotateOnce(io, 4, map[0 := a, 2 := b, 3 := c], 4);
            r.state == map[1 := a, 3 := b] && r.last == Done(0)
  {
    var start: Disk, disk: Disk := map[0 := a, 2 := b, 3 := c], map[0 := a, 2 := b];
    assert Remove(start, 3) == disk;
    assert io(4) == Done(0) && io(5) == Done(0) && io(6) == Done(0) && io(7) == Done(0);
    assert Rename(disk, 2) == map[0 := a, 3 := b];
    assert RenameDown(io, disk, 5, 2) == RenameDown(io, map[0 := a, 3 := b], 6, 1);
    assert RenameDown(io, map[0 := a, 3 := b], 6, 1) == RenameDown(io, map[0 := a, 3 := b], 7, 0);
    assert Rename<LogFile>(map[0 := a, 3 := b], 0) == map[1 := a, 3 := b];
  }
}
