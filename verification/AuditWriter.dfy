/** The audit writer thread of crates/server/src/audit.rs: the values `run_writer`
    keeps in its local variables and passes on by mutable reference. */
module AuditWriter {
  import opened Wrappers
  import opened Text
  import opened AuditDisk

  const U64_MAX: nat := 0xFFFF_FFFF_FFFF_FFFF

  datatype Config = Config(maxAttempts: nat, maxFileBytes: nat, retainFiles: nat)
  {
    function Kept(): (n: nat) ensures n >= 1 { Retain(retainFiles) }
  }

  /** `io` scripts the calls that can fail; `metadata` says which length queries work. */
  datatype Env = Env(io: Script, metadata: nat -> bool)

  datatype Writer = Writer(disk: Disk, open: bool, currentBytes: nat, terminal: Option<IoError>, tick: nat)

  datatype Command =
    | Record(encoded: Bytes)
    | Barrier
    | Export
    | Tail(limit: nat)
    | PeriodicFlush
    | Shutdown

  /** A tail read answers with the files it reads, newest first. */
  datatype Reply =
    | NoReply
    | Flushed(status: Status)
    | Exported(status: Status, text: Bytes)
    | Tailed(files: seq<Bytes>, limit: nat)

  // ---- the open log -----------------------------------------------------------

  function FileLength(env: Env, disk: Disk, tick: nat): nat
  {
    if env.metadata(tick) then SatAdd(|Data(disk, 0)|, 0) else 0
  }

  /** Opening for append creates the file when it is missing. */
  function OpenAttempt(io: Script, disk: Disk, tick: nat): Attempt<Disk>
  {
    Attempt(if io(tick).Done? && 0 !in disk then disk[0 := LogFile([], 0)] else disk, tick + 1, io(tick))
  }

  function EnsureWriter(cfg: Config, env: Env, w: Writer): (Writer, Status)
  {
    if w.open then (w, Ok)
    else
      var r := Retry(OpenLog, cfg.maxAttempts, (disk, t) => OpenAttempt(env.io, disk, t), w.disk, w.tick);
      if r.status.Err? then (w.(disk := r.state, tick := r.tick), r.status)
      else (w.(disk := r.state, tick := r.tick, open := true, currentBytes := FileLength(env, r.state, r.tick)), Ok)
  }

  /** A call to `write` accepts a prefix of what it is given, possibly nothing. */
  function WriteAttempt(io: Script, file: LogFile, bytes: Bytes, tick: nat): Attempt<LogFile>
  {
    var taken := match io(tick) case Done(n) => (if n < |bytes| then n else |bytes|) case Failed(_, _) => 0;
    Attempt(file.(data := file.data + bytes[..taken]), tick + 1, io(tick))
  }

  function WriteFrom(cfg: Config, io: Script, file: LogFile, bytes: Bytes, tick: nat): Retried<LogFile>
    decreases |bytes|
  {
    if bytes == [] then Retried(file, tick, Ok)
    else
      var r := Retry(Append, cfg.maxAttempts, (f, t) => WriteAttempt(io, f, bytes, t), file, tick);
      if r.status.Err? then r
      else
        var written := |r.state.data| - |file.data|;
        if written <= 0 || written > |bytes| then Retried(r.state, r.tick, Err(WroteNothing))
        else WriteFrom(cfg, io, r.state, bytes[written..], r.tick)
  }

  /** `write_record`. */
  method WriteRecord(cfg: Config, io: Script, start: LogFile, encoded: Bytes, tick: nat)
    returns (r: Retried<LogFile>)
    ensures r == WriteFrom(cfg, io, start, encoded, tick)
  {
    var file, now, offset := start, tick, 0;
    while offset < |encoded|
      invariant 0 <= offset <= |encoded|
      invariant WriteFrom(cfg, io, start, encoded, tick) == WriteFrom(cfg, io, file, encoded[offset..], now)
    {
      var rest := encoded[offset..];
      var a := RetryIo(Append, cfg.maxAttempts, (f, t) => WriteAttempt(io, f, rest, t), file, now);
      if a.status.Err? {
        return a;
      }
      var written := |a.state.data| - |file.data|;
      if written <= 0 || written > |rest| {
        return Retried(a.state, a.tick, Err(WroteNothing));
      }
      assert encoded[offset..][written..] == encoded[offset + written..];
      file, now, offset := a.state, a.tick, offset + written;
    }
    r := Retried(file, now, Ok);
  }

  /** A retried write call takes a prefix of the bytes, whatever its outcome. */
  lemma {:induction false} WriteTakesPrefix(cfg: Config, io: Script, file: LogFile, bytes: Bytes, tick: nat,
                                            number: nat)
    requires 1 <= number <= Attempts(cfg.maxAttempts)
    ensures var attempt := (f, t) => WriteAttempt(io, f, bytes, t);
            var r := RetryFrom(Append, Attempts(cfg.maxAttempts), attempt, file, tick, number);
            && r.state.synced == file.synced
            && file.data <= r.state.data <= file.data + bytes
            && (r.status.Err? ==> r.state == file)
    decreases Attempts(cfg.maxAttempts) - number
  {
    var attempt := (f, t) => WriteAttempt(io, f, bytes, t);
    var a := attempt(file, tick);
    if a.last.Failed? {
      assert file.data + bytes[..0] == file.data;
      if a.last.transient && number < Attempts(cfg.maxAttempts) {
        WriteTakesPrefix(cfg, io, file, bytes, tick + 1, number + 1);
      }
    }
  }

  /** For every pattern of short writes and retries: success appends the record in
      full, and failure leaves a proper prefix of it. */
  lemma {:induction false} WriteAppends(cfg: Config, io: Script, file: LogFile, bytes: Bytes, tick: nat)
    returns (k: nat)
    ensures var r := WriteFrom(cfg, io, file, bytes, tick);
            && k <= |bytes|
            && r.state == file.(data := file.data + bytes[..k])
            && (r.status.Ok? <==> k == |bytes|)
    decreases |bytes|
  {
    hide RetryFrom;
    if bytes == [] {
      k := 0;
      assert file.data + bytes[..0] == file.data;
    } else {
      WriteTakesPrefix(cfg, io, file, bytes, tick, 1);
      var r := Retry(Append, cfg.maxAttempts, (f, t) => WriteAttempt(io, f, bytes, t), file, tick);
      var written := |r.state.data| - |file.data|;
      assert r.state.data == file.data + bytes[..written];
      k := written;
      if r.status.Ok? && written > 0 {
        var j := WriteAppends(cfg, io, r.state, bytes[written..], r.tick);
        assert file.data + bytes[..written] + bytes[written..][..j] == file.data + bytes[..written + j];
        k := written + j;
      }
    }
  }

  // ---- flushing, rotating, persisting -----------------------------------------

  function CallAttempt<S>(io: Script, state: S, tick: nat): Attempt<S> { Attempt(state, tick + 1, io(tick)) }

  /** `sync_data` makes everything written so far durable. */
  function SyncAttempt(io: Script, disk: Disk, tick: nat): Attempt<Disk>
  {
    Attempt(if io(tick).Done? then MarkSynced(disk) else disk, tick + 1, io(tick))
  }

  function MarkSynced(disk: Disk): Disk
  {
    if 0 in disk then disk[0 := LogFile(disk[0].data, |disk[0].data|)] else disk
  }

  /** The flush and sync of `flush_writer`, before it looks at the terminal error. */
  function FlushAndSync(cfg: Config, io: Script, w: Writer): (Writer, Status)
  {
    if !w.open then (w, Ok)
    else
      var f := Retry(FlushLog, cfg.maxAttempts, (d, t) => CallAttempt(io, d, t), w.disk, w.tick);
      if f.status.Err? then (w.(tick := f.tick), f.status)
      else
        var s := Retry(SyncLog, cfg.maxAttempts, (d, t) => SyncAttempt(io, d, t), w.disk, f.tick);
        (w.(disk := s.state, tick := s.tick), s.status)
  }

  /** `flush_writer`: an earlier terminal error is what it reports. */
  function FlushWriter(cfg: Config, io: Script, w: Writer): (Writer, Status)
  {
    var (after, status) := FlushAndSync(cfg, io, w);
    (after, if w.terminal.Some? then Err(w.terminal.value) else status)
  }

  /** Dropping the handle writes out some of what was not yet synced. */
  function DropWriter(io: Script, w: Writer): Writer
  {
    if !w.open then w
    else w.(open := false, tick := w.tick + 1,
            disk := if 0 in w.disk then w.disk[0 := Leftover(w.disk[0], io(w.tick))] else w.disk)
  }

  function Leftover(file: LogFile, o: Outcome): LogFile
  {
    var n := match o case Done(k) => k case Failed(_, _) => 0;
    var kept := if n < file.synced then file.synced else n;
    if kept < |file.data| then file.(data := file.data[..kept]) else file
  }

  /** `rotate_active_writer`. */
  function RotateActiveWriter(cfg: Config, io: Script, w: Writer): (Writer, Status)
  {
    var (flushed, status) := FlushAndSync(cfg, io, w);
    var closed := DropWriter(io, flushed).(currentBytes := 0);
    if status.Err? then (closed, status)
    else
      var attempt := (d, t) => RotateOnce(io, cfg.Kept(), d, t);
      var r := Retry(RotateFiles, cfg.maxAttempts, attempt, closed.disk, closed.tick);
      (closed.(disk := r.state, tick := r.tick), r.status)
  }

  function SatAdd(a: nat, b: nat): nat { if a + b > U64_MAX then U64_MAX else a + b }

  predicate MustRotate(cfg: Config, w: Writer, encoded: Bytes)
  {
    w.currentBytes > 0 && cfg.maxFileBytes > 0 && SatAdd(w.currentBytes, |encoded|) > cfg.maxFileBytes
  }

  /** `ensure_writer`, and when the record does not fit, a rotation and a new log. */
  function MakeRoom(cfg: Config, env: Env, w: Writer, encoded: Bytes): (Writer, Status)
  {
    var (current, status) := EnsureWriter(cfg, env, w);
    if status.Err? || !MustRotate(cfg, current, encoded) then (current, status)
    else
      var (rotated, rotation) := RotateActiveWriter(cfg, env.io, current);
      if rotation.Err? then (rotated, rotation) else EnsureWriter(cfg, env, rotated)
  }

  /** `persist_record`. */
  function PersistRecord(cfg: Config, env: Env, w: Writer, encoded: Bytes): (Writer, Status)
  {
    var (ready, status) := MakeRoom(cfg, env, w, encoded);
    if status.Err? then (ready, status)
    else
      var r := WriteFrom(cfg, env.io, if 0 in ready.disk then ready.disk[0] else LogFile([], 0), encoded, ready.tick);
      var wrote := ready.(disk := ready.disk[0 := r.state], tick := r.tick);
      if r.status.Err? then (wrote, r.status)
      else (wrote.(currentBytes := SatAdd(ready.currentBytes, |encoded|)), Ok)
  }

  /** `set_terminal_error`: the first error stays. */
  function SetTerminal(w: Writer, status: Status): Writer
  {
    if status.Err? && w.terminal.None? then w.(terminal := Some(status.error)) else w
  }

  // ---- reading the log back ---------------------------------------------------

  /** Archives g, g + 1, ... up to the first that is missing, newest first. */
  function Archives(disk: Disk, g: nat, last: nat): seq<Bytes>
    decreases last + 1 - g
  {
    if g > last || g !in disk then [] else [disk[g].data] + Archives(disk, g + 1, last)
  }

  function SnapshotFiles(disk: Disk): seq<Bytes>
  {
    (if 0 in disk then [disk[0].data] else []) + Archives(disk, 1, LAST_ARCHIVE)
  }

  /** `append_exported_jsonl`: a file that does not end its last line gets a line feed. */
  function Terminated(text: Bytes): Bytes { if EndsLine(text) then text else text + [LF] }

  /** `export_jsonl_path` for files listed newest first. */
  function ExportText(files: seq<Bytes>): Bytes
  {
    if files == [] then [] else ExportText(files[1..]) + Terminated(files[0])
  }

  // ---- run_writer -------------------------------------------------------------

  /** One command of `run_writer`'s loop. */
  function Step(cfg: Config, env: Env, w: Writer, command: Command): (Writer, Reply)
  {
    match command
    case Record(encoded) =>
      var (after, status) := PersistRecord(cfg, env, w, encoded);
      if status.Err? then (DropWriter(env.io, SetTerminal(after, status)), NoReply) else (after, NoReply)
    case Barrier =>
      var (after, status) := FlushWriter(cfg, env.io, w);
      (SetTerminal(after, status), Flushed(status))
    case Export =>
      var (after, status) := FlushWriter(cfg, env.io, w);
      (SetTerminal(after, status), Exported(status, if status.Err? then [] else ExportText(SnapshotFiles(after.disk))))
    case Tail(limit) =>
      var (after, status) := FlushWriter(cfg, env.io, w);
      (SetTerminal(after, status), Tailed(SnapshotFiles(after.disk), limit))
    case PeriodicFlush =>
      (if w.open then w.(tick := w.tick + 1) else w, NoReply)
    case Shutdown =>
      var (after, status) := FlushWriter(cfg, env.io, w);
      (SetTerminal(after, status), Flushed(status))
  }

  /** `run_writer` before its loop. */
  function Start(cfg: Config, env: Env, disk: Disk, tick: nat): Writer
  {
    var r := Retry(OpenLog, cfg.maxAttempts, (d, t) => OpenAttempt(env.io, d, t), disk, tick);
    var length := FileLength(env, r.state, r.tick);
    match r.status
    case Ok => Writer(r.state, true, length, None, r.tick)
    case Err(e) => Writer(r.state, false, length, Some(e), r.tick)
  }

  /** The writer after every command of `commands`. */
  function Run(cfg: Config, env: Env, w: Writer, commands: seq<Command>): Writer
  {
    if commands == [] then w
    else
      var k := |commands| - 1;
      Step(cfg, env, Run(cfg, env, w, commands[..k]), commands[k]).0
  }

  lemma {:induction false} RunAppend(cfg: Config, env: Env, w: Writer, a: seq<Command>, b: seq<Command>)
    ensures Run(cfg, env, w, a + b) == Run(cfg, env, Run(cfg, env, w, a), b)
  {
    hide Step;
    if b == [] {
      assert a + b == a;
    } else {
      var k := |b| - 1;
      assert (a + b)[..|a + b| - 1] == a + b[..k];
      RunAppend(cfg, env, w, a, b[..k]);
    }
  }

  /** The answer the last command of `commands` gets. */
  function LastReply(cfg: Config, env: Env, w: Writer, commands: seq<Command>): Reply
    requires commands != []
  {
    var k := |commands| - 1;
    Step(cfg, env, Run(cfg, env, w, commands[..k]), commands[k]).1
  }
}
