/** The files of one audit log: generation 0 is the active log, generation g > 0 the
    archive `<path>.g` (crates/server/src/audit.rs). Every I/O call takes its outcome
    from a script, so what holds for all scripts holds for every pattern of failures. */
module AuditDisk {
  import opened Wrappers
  import opened Text

  /** `synced` bytes of `data` are known to have reached the disk. */
  datatype LogFile = LogFile(data: Bytes, synced: nat)
  type Disk = map<nat, LogFile>

  /** Archives are looked for up to this generation. */
  const LAST_ARCHIVE: nat := 1024

  /** One call's outcome; `count` is only read by writes. A transient failure is one
      of Interrupted, WouldBlock and TimedOut. */
  datatype Outcome = Done(count: nat) | Failed(transient: bool, cause: int)
  type Script = nat -> Outcome

  datatype Operation = OpenLog | Append | FlushLog | SyncLog | RotateFiles
  datatype IoError =
    | IoError(operation: Operation, attempt: nat, transient: bool, cause: int)
    | WroteNothing
  datatype Status = Ok | Err(error: IoError)

  // ---- retry_io ---------------------------------------------------------------

  /** The state one attempt leaves behind, and how its last call went. */
  datatype Attempt<S> = Attempt(state: S, tick: nat, last: Outcome)
  datatype Retried<S> = Retried(state: S, tick: nat, status: Status)

  function RetryFrom<S>(operation: Operation, maxAttempts: nat, attempt: (S, nat) -> Attempt<S>,
                        state: S, tick: nat, number: nat): Retried<S>
    requires 1 <= number <= maxAttempts
    decreases maxAttempts - number
  {
    var a := attempt(state, tick);
    match a.last
    case Done(_) => Retried(a.state, a.tick, Ok)
    case Failed(transient, cause) =>
      if transient && number < maxAttempts then
        RetryFrom(operation, maxAttempts, attempt, a.state, a.tick, number + 1)
      else
        Retried(a.state, a.tick, Err(IoError(operation, number, transient, cause)))
  }

  /** `max_attempts.max(1)` */
  function Attempts(maxAttempts: nat): (n: nat)
    ensures n >= 1 && n >= maxAttempts && (n == 1 || n == maxAttempts)
  {
    if maxAttempts == 0 then 1 else maxAttempts
  }

  function Retry<S>(operation: Operation, maxAttempts: nat, attempt: (S, nat) -> Attempt<S>,
                    state: S, tick: nat): Retried<S>
  {
    RetryFrom(operation, Attempts(maxAttempts), attempt, state, tick, 1)
  }

  /** `retry_io`: the closure it takes is `attempt`, passing on the state it changes. */
  method RetryIo<S>(operation: Operation, maxAttempts: nat, attempt: (S, nat) -> Attempt<S>, start: S, tick: nat)
    returns (r: Retried<S>)
    ensures r == Retry(operation, maxAttempts, attempt, start, tick)
  {
    var bound := Attempts(maxAttempts);
    var state, now := start, tick;
    var number := 1;
    while true
      invariant 1 <= number <= bound
      invariant Retry(operation, maxAttempts, attempt, start, tick)
                == RetryFrom(operation, bound, attempt, state, now, number)
      decreases bound - number
    {
      var a := attempt(state, now);
      state, now := a.state, a.tick;
      match a.last
      case Done(_) => return Retried(state, now, Ok);
      case Failed(transient, cause) =>
        if !(transient && number < bound) {
          return Retried(state, now, Err(IoError(operation, number, transient, cause)));
        }
        number := number + 1;
    }
  }

  /** The outcomes from `tick` on bring success within n attempts: one call succeeds
      and every call before it fails transiently. */
  predicate SucceedsWithin(io: Script, tick: nat, n: nat)
    decreases n
  {
    && n > 0
    && match io(tick)
       case Done(_) => true
       case Failed(transient, _) => transient && SucceedsWithin(io, tick + 1, n - 1)
  }

  /** An operation whose failing attempts change nothing succeeds exactly when the
      script brings success within the attempts allowed, and then as if at once. Otherwise
      it reports the failure that ended it: the first that is not transient, or the last
      one allowed. */
  lemma {:induction false} RetryExact<S>(operation: Operation, maxAttempts: nat, attempt: (S, nat) -> Attempt<S>,
                                         io: Script, state: S, tick: nat, number: nat)
    requires 1 <= number <= maxAttempts
    requires forall t: nat :: attempt(state, t).tick == t + 1 && attempt(state, t).last == io(t)
    requires forall t: nat :: io(t).Failed? ==> attempt(state, t).state == state
    ensures var r := RetryFrom(operation, maxAttempts, attempt, state, tick, number);
            && (r.status.Ok? <==> SucceedsWithin(io, tick, maxAttempts - number + 1))
            && (r.status.Err? ==>
                  var e := r.status.error;
                  && r.state == state && e.IoError? && e.operation == operation
                  && number <= e.attempt <= maxAttempts && (e.transient ==> e.attempt == maxAttempts)
                  && io(tick + e.attempt - number) == Failed(e.transient, e.cause)
                  && forall t :: tick <= t < tick + e.attempt - number ==> io(t).Failed? && io(t).transient)
            && (r.status.Ok? ==> exists t: nat :: t >= tick && io(t).Done? && r.state == attempt(state, t).state)
    decreases maxAttempts - number
  {
    var a := attempt(state, tick);
    if a.last.Failed? && a.last.transient && number < maxAttempts {
      RetryExact(operation, maxAttempts, attempt, io, state, tick + 1, number + 1);
    }
  }

  // ---- rotate_log_files -------------------------------------------------------

  /** A missing file counts as removed. */
  function Remove<V>(disk: map<nat, V>, g: nat): map<nat, V> { disk - {g} }

  /** Renames generation g to g + 1, over whatever is there; a missing file is skipped. */
  function Rename<V>(disk: map<nat, V>, g: nat): map<nat, V>
  {
    if g in disk then (disk - {g})[g + 1 := disk[g]] else disk
  }

  /** The renames g, g - 1, ..., 0, up to the first that fails. */
  function RenameDown(io: Script, disk: Disk, tick: nat, g: nat): Attempt<Disk>
    decreases g
  {
    if io(tick).Failed? then Attempt(disk, tick + 1, io(tick))
    else if g == 0 then Attempt(Rename(disk, g), tick + 1, io(tick))
    else RenameDown(io, Rename(disk, g), tick + 1, g - 1)
  }

  /** `retain_files.max(1)` */
  function Retain(retainFiles: nat): (n: nat)
    ensures n >= 1 && n >= retainFiles && (n == 1 || n == retainFiles)
  {
    if retainFiles == 0 then 1 else retainFiles
  }

  /** One pass of `rotate_log_files`. */
  function RotateOnce(io: Script, retain: nat, disk: Disk, tick: nat): Attempt<Disk>
    requires retain >= 1
  {
    if retain == 1 then
      Attempt(if io(tick).Failed? then disk else Remove(disk, 0), tick + 1, io(tick))
    else if io(tick).Failed? then Attempt(disk, tick + 1, io(tick))
    else RenameDown(io, Remove(disk, retain - 1), tick + 1, retain - 2)
  }

  method RotateLogFiles(io: Script, retainFiles: nat, start: Disk, tick: nat) returns (r: Attempt<Disk>)
    ensures r == RotateOnce(io, Retain(retainFiles), start, tick)
  {
    var disk, now := start, tick;
    var retain := Retain(retainFiles);
    if retain == 1 {
      if io(now).Done? {
        disk := Remove(disk, 0);
      }
      return Attempt(disk, now + 1, io(now));
    }
    if io(now).Failed? {
      return Attempt(disk, now + 1, io(now));
    }
    disk, now := Remove(disk, retain - 1), now + 1;
    var generation := retain - 2;
    while generation >= 1
      invariant 0 <= generation <= retain - 2
      invariant RotateOnce(io, retain, start, tick) == RenameDown(io, disk, now, generation)
    {
      if io(now).Failed? {
        return Attempt(disk, now + 1, io(now));
      }
      disk, now := Rename(disk, generation), now + 1;
      generation := generation - 1;
    }
    if io(now).Failed? {
      return Attempt(disk, now + 1, io(now));
    }
    return Attempt(Rename(disk, 0), now + 1, io(now));
  }

  /** The layout once generations g and up have moved: below g nothing has changed, g
      is vacant, and up to the last retained one each holds what its predecessor held. */
  function Shifted<V>(disk: map<nat, V>, retain: nat, g: nat): map<nat, V>
  {
    map j: nat | j in Slots(disk) && (if g < j < retain then j - 1 in disk else j != g && j in disk)
      :: if g < j < retain then disk[j - 1] else disk[j]
  }

  function Slots<V>(disk: map<nat, V>): set<nat> { disk.Keys + set j | j in disk.Keys :: j + 1 }

  lemma RemoveShifts<V>(disk: map<nat, V>, retain: nat)
    requires retain >= 1
    ensures Remove(disk, retain - 1) == Shifted(disk, retain, retain - 1)
  {
  }

  lemma RenameShifts<V>(disk: map<nat, V>, retain: nat, g: nat)
    requires g + 1 < retain
    ensures Rename(Shifted(disk, retain, g + 1), g) == Shifted(disk, retain, g)
  {
  }

  /** Where a pass stops: at 0 when it succeeds, at `retain` when it changes nothing, and
      otherwise with the generations from there up moved and the ones below not. */
  function StopsAt(io: Script, retain: nat, tick: nat): (from: nat)
    requires retain >= 1
    ensures from <= retain && (from == retain <==> io(tick).Failed?)
  {
    if io(tick).Failed? then retain
    else if retain == 1 then 0
    else RenamesStopAt(io, tick + 1, retain - 2)
  }

  function RenamesStopAt(io: Script, tick: nat, g: nat): (from: nat)
    ensures from <= g + 1
    decreases g
  {
    if io(tick).Failed? then g + 1
    else if g == 0 then 0
    else RenamesStopAt(io, tick + 1, g - 1)
  }

  lemma {:induction false} RenameDownShifts(io: Script, disk: Disk, retain: nat, tick: nat, g: nat)
    requires g + 1 < retain
    ensures var a := RenameDown(io, Shifted(disk, retain, g + 1), tick, g);
            && a.state == Shifted(disk, retain, RenamesStopAt(io, tick, g))
            && (a.last.Done? <==> RenamesStopAt(io, tick, g) == 0)
    decreases g
  {
    hide Shifted, Rename;
    if io(tick).Done? {
      RenameShifts(disk, retain, g);
      if g > 0 {
        RenameDownShifts(io, disk, retain, tick + 1, g - 1);
      }
    }
  }

  /** A pass either changes nothing or moves the generations from some point up, and
      it succeeds exactly when it has moved them all: g to g + 1 for every retained
      generation, absent ones included, with only the oldest dropped. */
  lemma {:induction false} RotateShifts(io: Script, retain: nat, disk: Disk, tick: nat)
    requires retain >= 1
    ensures var a, from := RotateOnce(io, retain, disk, tick), StopsAt(io, retain, tick);
            && a.state == (if from == retain then disk else Shifted(disk, retain, from))
            && (a.last.Done? <==> from == 0)
  {
    hide Shifted, Remove, RenameDown;
    RemoveShifts(disk, retain);
    if io(tick).Done? && retain > 1 {
      RenameDownShifts(io, disk, retain, tick + 1, retain - 2);
    }
  }

  /** A pass none of whose calls fails is a complete one. */
  lemma {:induction false} NoFailureNoStop(io: Script, retain: nat, tick: nat)
    requires retain >= 1 && forall t: nat | tick <= t < tick + retain :: io(t).Done?
    ensures StopsAt(io, retain, tick) == 0
  {
    assert io(tick).Done?;
    if retain > 1 {
      NoFailedRename(io, tick + 1, retain - 2);
    }
  }

  lemma {:induction false} NoFailedRename(io: Script, tick: nat, g: nat)
    requires forall t: nat | tick <= t <= tick + g :: io(t).Done?
    ensures RenamesStopAt(io, tick, g) == 0
    decreases g
  {
    assert io(tick).Done?;
    if g > 0 {
      NoFailedRename(io, tick + 1, g - 1);
    }
  }

  /** Where a pass that got past its first call and stopped at `from` leaves what
      generation g named; nothing stays at `retain` or beyond. */
  function Moved(from: nat, g: nat): nat { if from <= g then g + 1 else g }

  /** Where one pass leaves what generation g named. */
  function PassTo(io: Script, retain: nat, tick: nat, g: nat): nat
    requires retain >= 1
  {
    if io(tick).Failed? then g else Moved(StopsAt(io, retain, tick), g)
  }

  /** Where the passes of a rotation leave what generation g named. */
  function RotatedTo(io: Script, retain: nat, max: nat, disk: Disk, tick: nat, number: nat, g: nat): (h: nat)
    requires retain >= 1 && 1 <= number <= max
    ensures h >= g
    decreases max - number
  {
    var a := RotateOnce(io, retain, disk, tick);
    var next := PassTo(io, retain, tick, g);
    if a.last.Failed? && a.last.transient && number < max then
      RotatedTo(io, retain, max, a.state, a.tick, number + 1, next)
    else next
  }

  /** How many passes of a rotation get past their first call, the removal of the oldest. */
  function RotationPasses(io: Script, retain: nat, max: nat, disk: Disk, tick: nat, number: nat): nat
    requires retain >= 1 && 1 <= number <= max
    decreases max - number
  {
    var a := RotateOnce(io, retain, disk, tick);
    (if io(tick).Failed? then 0 else 1) +
    (if a.last.Failed? && a.last.transient && number < max then
       RotationPasses(io, retain, max, a.state, a.tick, number + 1)
     else 0)
  }

  /** Each such pass moves a generation by at most one. */
  lemma {:induction false} MovedByPasses(io: Script, retain: nat, max: nat, disk: Disk, tick: nat, number: nat, g: nat)
    requires retain >= 1 && 1 <= number <= max
    ensures RotatedTo(io, retain, max, disk, tick, number, g) <= g + RotationPasses(io, retain, max, disk, tick, number)
    decreases max - number
  {
    hide RotateOnce, StopsAt;
    var a := RotateOnce(io, retain, disk, tick);
    if a.last.Failed? && a.last.transient && number < max {
      MovedByPasses(io, retain, max, a.state, a.tick, number + 1, PassTo(io, retain, tick, g));
    }
  }

  /** A rotation none of whose calls fails takes one pass. */
  lemma {:induction false} NoFailureOnePass(io: Script, retain: nat, max: nat, disk: Disk, tick: nat)
    requires retain >= 1 && max >= 1 && forall t: nat | tick <= t < tick + retain :: io(t).Done?
    ensures RotationPasses(io, retain, max, disk, tick, 1) == 1
  {
    hide RotateOnce;
    NoFailureNoStop(io, retain, tick);
    RotateShifts(io, retain, disk, tick);
  }

  /** The last of the generations a, ..., b - 1 that is moved no further than to h. */
  lemma {:induction false} BetweenMoved(io: Script, retain: nat, max: nat, disk: Disk, tick: nat, number: nat,
                                        a: int, b: nat, h: nat)
    returns (m: int)
    requires retain >= 1 && 1 <= number <= max && -1 <= a < b
    requires a >= 0 ==> RotatedTo(io, retain, max, disk, tick, number, a) <= h
    requires h < RotatedTo(io, retain, max, disk, tick, number, b)
    ensures a <= m < b
    ensures m >= 0 ==> RotatedTo(io, retain, max, disk, tick, number, m) <= h
    ensures h < RotatedTo(io, retain, max, disk, tick, number, m + 1)
    decreases b - a
  {
    hide RotatedTo;
    if a == b - 1 {
      m := a;
    } else if RotatedTo(io, retain, max, disk, tick, number, b - 1) <= h {
      m := b - 1;
    } else {
      m := BetweenMoved(io, retain, max, disk, tick, number, a, b - 1, h);
    }
  }

  // ---- contents ---------------------------------------------------------------

  function Data(disk: Disk, g: nat): Bytes { if g in disk then disk[g].data else [] }

  /** Generations g down to 0, oldest first. */
  function Newer(disk: Disk, g: nat): Bytes
  {
    if g == 0 then Data(disk, 0) else Data(disk, g) + Newer(disk, g - 1)
  }

  /** `text` is a contiguous newest part of the history, cut between two entries. */
  ghost predicate IsNewestPart(text: Bytes, history: seq<Bytes>)
  {
    exists m :: 0 <= m <= |history| && text == Concat(history[m..])
  }

  /** However many generations are read, they hold a newest part of the history. */
  ghost predicate Contiguous(disk: Disk, history: seq<Bytes>)
  {
    forall g: nat :: IsNewestPart(Newer(disk, g), history)
  }

  /** No file lies beyond the retained generations. */
  predicate Within<V>(disk: map<nat, V>, retain: nat) { forall g :: g in disk ==> g < retain }

  lemma {:induction false} NewerSame(a: Disk, b: Disk, g: nat)
    requires forall j: nat :: j <= g ==> Data(a, j) == Data(b, j)
    ensures Newer(a, g) == Newer(b, g)
  {
    if g > 0 {
      NewerSame(a, b, g - 1);
    }
  }

  lemma ShiftedData(disk: Disk, retain: nat, from: nat, j: nat)
    ensures Data(Shifted(disk, retain, from), j)
            == (if from < j < retain then Data(disk, j - 1) else if j == from then [] else Data(disk, j))
  {
  }

  /** Moving generations up loses only the oldest retained file. */
  lemma {:induction false} NewerShifted(disk: Disk, retain: nat, from: nat, g: nat)
    requires Within(disk, retain) && from < retain
    ensures var top := if g < retain then g else retain - 1;
            Newer(Shifted(disk, retain, from), g)
            == (if g < from then Newer(disk, g) else if top == 0 then [] else Newer(disk, top - 1))
  {
    hide Shifted;
    var after := Shifted(disk, retain, from);
    if g < from {
      forall j: nat | j <= g ensures Data(after, j) == Data(disk, j) { ShiftedData(disk, retain, from, j); }
      NewerSame(after, disk, g);
    } else {
      ShiftedData(disk, retain, from, g);
      if g > 0 {
        NewerShifted(disk, retain, from, g - 1);
      }
    }
  }

  lemma NothingIsNewest(history: seq<Bytes>)
    ensures IsNewestPart([], history)
  {
    assert history[|history|..] == [];
    assert Concat([]) == [];
  }

  // ---- what is still there --------------------------------------------------------

  predicate EndsWith(text: Bytes, tail: Bytes)
  {
    |tail| <= |text| && text[|text| - |tail|..] == tail
  }

  lemma {:induction false} EndsWithAll(text: Bytes)
    ensures EndsWith(text, text)
  {
  }

  lemma {:induction false} EndsWithThen(text: Bytes, tail: Bytes, end: Bytes)
    requires EndsWith(text, tail) && EndsWith(tail, end)
    ensures EndsWith(text, end)
  {
    assert text[|text| - |end|..] == text[|text| - |tail|..][|tail| - |end|..];
  }

  lemma {:induction false} EndsWithMore(text: Bytes, tail: Bytes, more: Bytes)
    requires EndsWith(text, tail)
    ensures EndsWith(text + more, tail + more)
  {
    assert text == text[..|text| - |tail|] + tail;
    assert text + more == text[..|text| - |tail|] + (tail + more);
  }

  lemma {:induction false} EndsWithSuffix(front: Bytes, tail: Bytes)
    ensures EndsWith(front + tail, tail)
  {
  }

  /** Reading more generations reads the same text at the end. */
  lemma {:induction false} NewerEndsWith(disk: Disk, g: nat, h: nat)
    requires g <= h
    ensures EndsWith(Newer(disk, h), Newer(disk, g))
    decreases h
  {
    hide EndsWith;
    if g == h {
      EndsWithAll(Newer(disk, g));
    } else {
      NewerEndsWith(disk, g, h - 1);
      EndsWithSuffix(Data(disk, h), Newer(disk, h - 1));
      EndsWithThen(Newer(disk, h), Newer(disk, h - 1), Newer(disk, g));
    }
  }

  ghost predicate SameBytes(a: Disk, b: Disk) { forall j: nat :: Data(a, j) == Data(b, j) }

  /** Wherever a rotation stops, and however often it is tried again, what is left
      still reads as a newest part of the history, and it loses only what was moved out of
      the retained generations: from any other on, it reads as before. */
  lemma ShiftedContiguous(disk: Disk, retain: nat, from: nat, history: seq<Bytes>)
    requires Within(disk, retain) && Contiguous(disk, history) && from < retain
    ensures Within(Shifted(disk, retain, from), retain)
    ensures Contiguous(Shifted(disk, retain, from), history)
    ensures forall g: nat | Moved(from, g) < retain ::
              Newer(Shifted(disk, retain, from), Moved(from, g)) == Newer(disk, g)
  {
    forall g: nat ensures IsNewestPart(Newer(Shifted(disk, retain, from), g), history) {
      NewerShifted(disk, retain, from, g);
      NothingIsNewest(history);
    }
    forall g: nat | Moved(from, g) < retain
      ensures Newer(Shifted(disk, retain, from), Moved(from, g)) == Newer(disk, g)
    {
      ShiftedReads(disk, retain, from, g);
    }
  }

  lemma {:induction false} ShiftedReads(disk: Disk, retain: nat, from: nat, g: nat)
    requires Within(disk, retain) && from < retain && Moved(from, g) < retain
    ensures Newer(Shifted(disk, retain, from), Moved(from, g)) == Newer(disk, g)
  {
    hide Shifted, Newer;
    NewerShifted(disk, retain, from, Moved(from, g));
  }

  /** What the generations up to g held, or nothing for -1. */
  function ReadsTo(disk: Disk, g: int): Bytes
    requires g >= -1
  {
    if g < 0 then [] else Newer(disk, g)
  }

  /** After a pass, what the generations up to h hold is what those up to g held, for the
      last g that was moved no further than to h; so the others are gone. */
  lemma {:induction false} PassReads(io: Script, retain: nat, disk: Disk, tick: nat, g: int, h: nat)
    requires retain >= 1 && Within(disk, retain) && g >= -1 && h < retain
    requires (g >= 0 ==> PassTo(io, retain, tick, g) <= h) && h < PassTo(io, retain, tick, g + 1)
    ensures Newer(RotateOnce(io, retain, disk, tick).state, h) == ReadsTo(disk, g)
  {
    hide Shifted, RotateOnce, Newer;
    RotateShifts(io, retain, disk, tick);
    var from := StopsAt(io, retain, tick);
    if from < retain {
      NewerShifted(disk, retain, from, h);
    }
  }

  lemma {:induction false} PassWithin(io: Script, retain: nat, disk: Disk, tick: nat)
    requires retain >= 1 && Within(disk, retain)
    ensures Within(RotateOnce(io, retain, disk, tick).state, retain)
  {
    hide Shifted, RotateOnce;
    RotateShifts(io, retain, disk, tick);
    if StopsAt(io, retain, tick) < retain {
      ShiftedWithin(disk, retain, StopsAt(io, retain, tick));
    }
  }

  lemma ShiftedWithin(disk: Disk, retain: nat, from: nat)
    requires Within(disk, retain)
    ensures Within(Shifted(disk, retain, from), retain)
  {
  }

  /** Appending to the active log a text that joins the history as its newest entry. */
  lemma {:induction false} NewestPartGrows(text: Bytes, history: seq<Bytes>, entry: Bytes)
    requires IsNewestPart(text, history)
    ensures IsNewestPart(text + entry, history + [entry])
  {
    var m: nat :| m <= |history| && text == Concat(history[m..]);
    assert (history + [entry])[m..] == history[m..] + [entry];
    ConcatAppend(history[m..], [entry]);
    assert [entry][1..] == [];
    assert Concat([entry]) == entry;
  }

  lemma AppendContiguous(disk: Disk, after: Disk, history: seq<Bytes>, entry: Bytes)
    requires Contiguous(disk, history)
    requires Data(after, 0) == Data(disk, 0) + entry
    requires forall j: nat :: j > 0 ==> Data(after, j) == Data(disk, j)
    ensures Contiguous(after, history + [entry])
  {
    forall g: nat ensures IsNewestPart(Newer(after, g), history + [entry]) {
      NewerAppend(disk, after, entry, g);
      assert IsNewestPart(Newer(disk, g), history);
      NewestPartGrows(Newer(disk, g), history, entry);
    }
  }

  lemma {:induction false} NewerAppend(disk: Disk, after: Disk, entry: Bytes, g: nat)
    requires Data(after, 0) == Data(disk, 0) + entry
    requires forall j: nat :: j > 0 ==> Data(after, j) == Data(disk, j)
    ensures Newer(after, g) == Newer(disk, g) + entry
  {
    if g > 0 {
      NewerAppend(disk, after, entry, g - 1);
    }
  }

  /** The files of `disk` hold at most `bound` bytes each. */
  predicate Bounded(disk: Disk, bound: nat) { forall g :: g in disk ==> |disk[g].data| <= bound }

  lemma {:induction false} NewerBounded(disk: Disk, bound: nat, g: nat)
    requires Bounded(disk, bound)
    ensures |Newer(disk, g)| <= (g + 1) * bound
  {
    if g > 0 {
      NewerBounded(disk, bound, g - 1);
    }
  }
}
