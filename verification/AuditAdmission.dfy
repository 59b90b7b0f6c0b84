/** The audit log as its callers share it: the admission lock, the bounded queue and
    the writer thread of crates/server/src/audit.rs, as a machine whose steps any
    schedule may interleave. A caller holds the lock across a blocking send, and a
    shutdown holds it until the writer has answered and ended. */
module AuditAdmission {
  import opened Wrappers
  import opened Text
  import opened AuditDisk
  import opened AuditWriter
  import opened AuditRuns
  import opened AuditSuccess

  datatype Setup = Setup(cfg: Config, env: Env, capacity: nat, disk: Disk)
  {
    function Capacity(): (n: nat) ensures n >= 1 { if capacity == 0 then 1 else capacity }
    function StartedWriter(): Writer { Start(cfg, env, disk, 0) }
  }

  /** `AdmissionState` of a logger with a path. */
  datatype Gate = Running | ShuttingDown | Closed(result: Status)

  /** Who holds the admission lock, and what for. */
  datatype Lock = Free | Sending(caller: nat, command: Command) | Awaiting(caller: nat)

  datatype Phase = Waiting | Draining | Processing | Exited

  /** What a caller is told. An accepted command is number `at` of those admitted. */
  datatype Answer =
    | Accepted(at: nat, command: Command)
    | Poisoned(error: IoError)
    | IsShutDown
    | Stopped(result: Status)
    | InProgress

  /** `admitted` lists the commands the queue has taken, `ran` the steps of the writer. */
  datatype State = State(
    gate: Gate, lock: Lock, queue: seq<Command>, batch: seq<Command>, phase: Phase,
    writer: Writer, slot: Option<IoError>, reply: Option<Status>,
    admitted: seq<Command>, ran: seq<Command>, answers: map<nat, Answer>)

  datatype Action =
    | Enqueue(caller: nat, command: Command)
    | BeginShutdown(caller: nat)
    | Send
    | FinishShutdown
    | Receive
    | TryReceive
    | TimeOut
    | Process

  function Initial(setup: Setup): State
  {
    var w := setup.StartedWriter();
    State(Running, Free, [], [], Waiting, w, w.terminal, None, [], [], map[])
  }

  /** `enqueue`, up to its blocking send. A caller that waits has no answer. */
  function EnqueueStep(s: State, caller: nat, command: Command): State
  {
    match s.gate
    case Running =>
      if command.Record? && s.slot.Some? then s.(answers := s.answers[caller := Poisoned(s.slot.value)])
      else s.(lock := Sending(caller, command), answers := s.answers - {caller})
    case _ => s.(answers := s.answers[caller := IsShutDown])
  }

  /** `shutdown_blocking`, up to its blocking send. */
  function BeginShutdownStep(s: State, caller: nat): State
  {
    match s.gate
    case Running => s.(gate := ShuttingDown, lock := Sending(caller, Shutdown), answers := s.answers - {caller})
    case ShuttingDown => s.(answers := s.answers[caller := InProgress])
    case Closed(result) => s.(answers := s.answers[caller := Stopped(result)])
  }

  function SendStep(s: State): State
    requires s.lock.Sending?
  {
    var after := s.(queue := s.queue + [s.lock.command], admitted := s.admitted + [s.lock.command]);
    if s.lock.command.Shutdown? then after.(lock := Awaiting(s.lock.caller))
    else after.(lock := Free, answers := s.answers[s.lock.caller := Accepted(|s.admitted|, s.lock.command)])
  }

  /** One command of the batch; a shutdown drops what is behind it and ends the thread. */
  function ProcessStep(setup: Setup, s: State): State
    requires s.batch != []
  {
    var (w, reply) := Step(setup.cfg, setup.env, s.writer, s.batch[0]);
    Processed(s, w, reply)
  }

  function Processed(s: State, w: Writer, reply: Reply): State
    requires s.batch != []
  {
    var command := s.batch[0];
    var after := s.(writer := w, ran := s.ran + [command], slot := if s.slot.None? then w.terminal else s.slot);
    if command.Shutdown? then
      after.(batch := [], queue := [], phase := Exited,
             reply := if reply.Flushed? then Some(reply.status) else None)
    else
      after.(batch := s.batch[1..], phase := if |s.batch| == 1 then Waiting else Processing)
  }

  predicate Enabled(setup: Setup, s: State, a: Action)
  {
    match a
    case Enqueue(_, command) => s.lock.Free? && !command.Shutdown? && !command.PeriodicFlush?
    case BeginShutdown(_) => s.lock.Free?
    case Send => s.lock.Sending? && s.phase != Exited && |s.queue| < setup.Capacity()
    case FinishShutdown => s.lock.Awaiting? && s.phase == Exited && s.reply.Some?
    case Receive => s.phase == Waiting && s.queue != []
    case TryReceive => s.phase == Draining
    case TimeOut => s.phase == Waiting
    case Process => s.phase == Processing && s.batch != []
  }

  /** An action that is not enabled leaves the state as it is. */
  function Act(setup: Setup, s: State, a: Action): State
  {
    if !Enabled(setup, s, a) then s
    else match a
    case Enqueue(caller, command) => EnqueueStep(s, caller, command)
    case BeginShutdown(caller) => BeginShutdownStep(s, caller)
    case Send => SendStep(s)
    case FinishShutdown =>
      s.(gate := Closed(s.reply.value), lock := Free, answers := s.answers[s.lock.caller := Stopped(s.reply.value)])
    case Receive => s.(queue := s.queue[1..], batch := [s.queue[0]], phase := Draining)
    case TryReceive =>
      if s.queue == [] then s.(phase := Processing)
      else s.(queue := s.queue[1..], batch := s.batch + [s.queue[0]])
    case TimeOut =>
      s.(writer := Step(setup.cfg, setup.env, s.writer, PeriodicFlush).0, ran := s.ran + [PeriodicFlush])
    case Process => ProcessStep(setup, s)
  }

  /** The state after a whole schedule. */
  function After(setup: Setup, schedule: seq<Action>): State
  {
    if schedule == [] then Initial(setup)
    else Act(setup, After(setup, schedule[..|schedule| - 1]), schedule[|schedule| - 1])
  }

  // ---- the invariant ----------------------------------------------------------

  /** The commands among the writer's steps that callers sent. */
  function Sent(ran: seq<Command>): seq<Command>
  {
    if ran == [] then []
    else
      var k := |ran| - 1;
      Sent(ran[..k]) + (if ran[k].PeriodicFlush? then [] else [ran[k]])
  }

  predicate NoShutdown(commands: seq<Command>) { forall c :: c in commands ==> !c.Shutdown? }

  /** Nothing comes after a shutdown, and there is one. */
  predicate EndsInShutdown(commands: seq<Command>)
  {
    commands != [] && commands[|commands| - 1].Shutdown? && NoShutdown(commands[..|commands| - 1])
  }

  /** First in, first out: what the writer has run, what it has taken and what waits
      are together the admitted commands, in order. */
  ghost predicate Fifo(s: State) { s.admitted == Sent(s.ran) + s.batch + s.queue }

  ghost predicate GateInv(s: State)
  {
    match s.gate
    case Running => s.phase != Exited && NoShutdown(s.admitted) && !s.lock.Awaiting?
                    && (s.lock.Sending? ==> !s.lock.command.Shutdown?)
    case ShuttingDown =>
      || (s.lock.Sending? && s.lock.command.Shutdown? && s.phase != Exited && NoShutdown(s.admitted))
      || (s.lock.Awaiting? && EndsInShutdown(s.admitted))
    case Closed(result) => s.lock.Free? && s.phase == Exited && s.reply == Some(result) && EndsInShutdown(s.admitted)
  }

  ghost predicate PhaseInv(s: State)
  {
    && (s.phase != Exited ==> NoShutdown(s.ran))
    && match s.phase
    case Waiting => s.batch == []
    case Exited => s.batch == [] && s.queue == [] && s.reply.Some? && s.ran != [] && s.ran[|s.ran| - 1].Shutdown?
    case _ => s.batch != []
  }

  ghost predicate AnswersInv(s: State)
  {
    forall c :: c in s.answers ==>
      && (s.answers[c].Accepted? ==>
            s.answers[c].at < |s.admitted| && s.admitted[s.answers[c].at] == s.answers[c].command)
      && (s.answers[c].Stopped? ==> s.gate == Closed(s.answers[c].result))
      && (s.answers[c].Poisoned? ==> s.slot == Some(s.answers[c].error))
      && s.answers[c] != InProgress
  }

  ghost predicate WriterInv(setup: Setup, s: State)
  {
    && s.writer == Run(setup.cfg, setup.env, setup.StartedWriter(), s.ran)
    && s.slot == s.writer.terminal
    && (s.phase == Exited ==>
          && s.ran != [] && s.reply.Some?
          && LastReply(setup.cfg, setup.env, setup.StartedWriter(), s.ran) == Flushed(s.reply.value))
  }

  ghost predicate Inv(setup: Setup, s: State)
  {
    && Fifo(s) && GateInv(s) && PhaseInv(s) && AnswersInv(s) && WriterInv(setup, s)
    && |s.queue| <= setup.Capacity()
    && (s.lock.Sending? ==> !s.lock.command.PeriodicFlush?)
    && (forall c :: c in s.admitted ==> !c.PeriodicFlush?)
  }

  lemma {:induction false} InitialInv(setup: Setup)
    ensures Inv(setup, Initial(setup))
  {
  }

  lemma {:induction false} SentSnoc(ran: seq<Command>, command: Command)
    ensures Sent(ran + [command]) == Sent(ran) + (if command.PeriodicFlush? then [] else [command])
  {
    assert (ran + [command])[..|ran|] == ran;
  }

  lemma {:induction false} RunSnoc(setup: Setup, ran: seq<Command>, command: Command)
    ensures var start := setup.StartedWriter();
            var step := Step(setup.cfg, setup.env, Run(setup.cfg, setup.env, start, ran), command);
            && Run(setup.cfg, setup.env, start, ran + [command]) == step.0
            && LastReply(setup.cfg, setup.env, start, ran + [command]) == step.1
  {
    hide Step;
    assert (ran + [command])[..|ran|] == ran;
  }

  lemma {:induction false} SendKeepsFifo(setup: Setup, s: State)
    requires Fifo(s) && Enabled(setup, s, Send)
    ensures Fifo(Act(setup, s, Send))
  {
    hide Sent;
    var command := s.lock.command;
    assert Sent(s.ran) + s.batch + (s.queue + [command]) == Sent(s.ran) + s.batch + s.queue + [command];
  }

  lemma {:induction false} SendKeepsInv(setup: Setup, s: State)
    requires Inv(setup, s) && Enabled(setup, s, Send)
    ensures Inv(setup, Act(setup, s, Send))
  {
    hide Run, LastReply, Fifo, GateInv, AnswersInv;
    SendKeepsFifo(setup, s);
    SendKeepsGate(setup, s);
    SendKeepsAnswers(setup, s);
  }

  lemma {:induction false} SendKeepsGate(setup: Setup, s: State)
    requires GateInv(s) && Enabled(setup, s, Send)
    ensures GateInv(Act(setup, s, Send))
  {
    assert Act(setup, s, Send).admitted[..|s.admitted|] == s.admitted;
  }

  lemma {:induction false} SendKeepsAnswers(setup: Setup, s: State)
    requires AnswersInv(s) && GateInv(s) && Enabled(setup, s, Send)
    ensures AnswersInv(Act(setup, s, Send))
  {
  }

  /** The batch and the queue hold admitted commands, in order. */
  lemma {:induction false} FirstOfBatch(s: State)
    requires Fifo(s) && s.batch != []
    ensures |Sent(s.ran)| < |s.admitted| && s.admitted[|Sent(s.ran)|] == s.batch[0]
    ensures |s.admitted| == |Sent(s.ran)| + |s.batch| + |s.queue|
  {
    hide Sent;
  }

  lemma {:induction false} ProcessedFifo(s: State, w: Writer, reply: Reply)
    requires Fifo(s) && s.batch != [] && !s.batch[0].PeriodicFlush?
    requires s.batch[0].Shutdown? ==> s.batch == [s.batch[0]] && s.queue == []
    ensures Fifo(Processed(s, w, reply))
  {
    hide Sent;
    SentSnoc(s.ran, s.batch[0]);
    assert s.batch == [s.batch[0]] + s.batch[1..];
    assert Sent(s.ran) + s.batch + s.queue == Sent(s.ran) + [s.batch[0]] + s.batch[1..] + s.queue;
  }

  /** In every state that satisfies the invariant a shutdown is the last command there
      is, so the `break` that ends its batch drops nothing. */
  lemma {:induction false} NothingBehindShutdown(s: State)
    requires Fifo(s) && GateInv(s) && PhaseInv(s) && s.batch != [] && s.batch[0].Shutdown?
    ensures s.batch == [s.batch[0]] && s.queue == [] && s.gate == ShuttingDown
  {
    hide Fifo;
    FirstOfBatch(s);
    assert |Sent(s.ran)| >= |s.admitted| - 1;
  }

  lemma {:induction false} ProcessedGate(s: State, w: Writer, reply: Reply)
    requires Fifo(s) && GateInv(s) && PhaseInv(s) && s.phase == Processing && s.batch != []
    requires s.batch[0].Shutdown? ==>
      reply.Flushed? && s.batch == [s.batch[0]] && s.queue == [] && s.gate == ShuttingDown
    ensures GateInv(Processed(s, w, reply)) && PhaseInv(Processed(s, w, reply))
  {
    hide Sent, Fifo;
    FirstOfBatch(s);
  }

  lemma {:induction false} ProcessedAnswers(s: State, w: Writer, reply: Reply)
    requires AnswersInv(s) && s.batch != []
    ensures AnswersInv(Processed(s, w, reply))
  {
  }

  lemma {:induction false} ProcessedWriter(setup: Setup, s: State)
    requires WriterInv(setup, s) && s.phase == Processing && s.batch != []
    ensures WriterInv(setup, ProcessStep(setup, s))
  {
    hide Run, LastReply, Step;
    RunSnoc(setup, s.ran, s.batch[0]);
    StickyStep(setup, s.writer, s.batch[0]);
  }

  lemma {:induction false} StickyStep(setup: Setup, w: Writer, command: Command)
    ensures w.terminal.Some? ==> Step(setup.cfg, setup.env, w, command).0.terminal == w.terminal
    ensures command.Shutdown? ==> Step(setup.cfg, setup.env, w, command).1.Flushed?
  {
    TerminalStays(setup.cfg, setup.env, w, command);
  }

  lemma UnchangedAnswers(s: State, after: State)
    requires AnswersInv(s) && after.answers == s.answers && after.admitted == s.admitted
    requires after.gate == s.gate && after.slot == s.slot
    ensures AnswersInv(after)
  {
  }

  lemma UnchangedWriter(setup: Setup, s: State, after: State)
    requires WriterInv(setup, s) && after.writer == s.writer && after.ran == s.ran && after.slot == s.slot
    requires s.phase != Exited && after.phase != Exited
    ensures WriterInv(setup, after)
  {
    hide Run;
  }

  lemma {:induction false} TakingKeepsInv(setup: Setup, s: State)
    requires Inv(setup, s) && s.queue != [] && (s.phase.Waiting? || s.phase.Draining?)
    ensures Inv(setup, s.(queue := s.queue[1..], batch := s.batch + [s.queue[0]], phase := Draining))
  {
    hide Run, Step, LastReply, Sent, AnswersInv, WriterInv, EndsInShutdown, NoShutdown;
    var after := s.(queue := s.queue[1..], batch := s.batch + [s.queue[0]], phase := Draining);
    UnchangedAnswers(s, after);
    UnchangedWriter(setup, s, after);
    assert s.queue == [s.queue[0]] + s.queue[1..];
    assert Sent(s.ran) + s.batch + s.queue == Sent(s.ran) + (s.batch + [s.queue[0]]) + s.queue[1..];
  }

  lemma {:induction false} FullKeepsInv(setup: Setup, s: State)
    requires Inv(setup, s) && s.phase.Draining?
    ensures Inv(setup, s.(phase := Processing))
  {
    hide Run, Step, LastReply, Sent, AnswersInv, WriterInv, EndsInShutdown, NoShutdown;
    UnchangedAnswers(s, s.(phase := Processing));
    UnchangedWriter(setup, s, s.(phase := Processing));
  }

  lemma {:induction false} ReceiveKeepsInv(setup: Setup, s: State, a: Action)
    requires Inv(setup, s) && Enabled(setup, s, a) && (a.Receive? || a.TryReceive?)
    ensures Inv(setup, Act(setup, s, a))
  {
    hide Inv, EnqueueStep, BeginShutdownStep, SendStep, ProcessStep, Step;
    if s.queue != [] {
      TakingKeepsInv(setup, s);
      WaitsWithNothing(setup, s);
      assert a.Receive? ==> s.batch + [s.queue[0]] == [s.queue[0]];
    } else {
      FullKeepsInv(setup, s);
    }
  }

  lemma WaitsWithNothing(setup: Setup, s: State)
    requires Inv(setup, s)
    ensures s.phase.Waiting? ==> s.batch == []
  {
  }

  lemma {:induction false} TimeOutKeepsInv(setup: Setup, s: State)
    requires Inv(setup, s) && Enabled(setup, s, TimeOut)
    ensures Inv(setup, Act(setup, s, TimeOut))
  {
    hide Run, LastReply, Sent;
    SentSnoc(s.ran, PeriodicFlush);
    RunSnoc(setup, s.ran, PeriodicFlush);
    assert Sent(s.ran) + [] == Sent(s.ran);
  }

  lemma {:induction false} CallerKeepsFifo(setup: Setup, s: State, a: Action)
    requires Fifo(s) && (a.Enqueue? || a.BeginShutdown? || a.FinishShutdown?)
    ensures Fifo(Act(setup, s, a))
  {
    hide Sent;
  }

  lemma {:induction false} EnqueueKeepsInv(setup: Setup, s: State, a: Action)
    requires Inv(setup, s) && a.Enqueue? && Enabled(setup, s, a)
    ensures Inv(setup, Act(setup, s, a))
  {
    hide Run, LastReply, Fifo, NoShutdown, EndsInShutdown;
    assert Fifo(Act(setup, s, a)) by { CallerKeepsFifo(setup, s, a); }
  }

  lemma {:induction false} BeginShutdownKeepsInv(setup: Setup, s: State, a: Action)
    requires Inv(setup, s) && a.BeginShutdown? && Enabled(setup, s, a)
    ensures Inv(setup, Act(setup, s, a))
  {
    hide Run, LastReply, Fifo, NoShutdown, EndsInShutdown;
    assert Fifo(Act(setup, s, a)) by { CallerKeepsFifo(setup, s, a); }
  }

  lemma {:induction false} FinishShutdownKeepsInv(setup: Setup, s: State, a: Action)
    requires Inv(setup, s) && a.FinishShutdown? && Enabled(setup, s, a)
    ensures Inv(setup, Act(setup, s, a))
  {
    hide Run, LastReply, Fifo, NoShutdown, EndsInShutdown;
    assert Fifo(Act(setup, s, a)) by { CallerKeepsFifo(setup, s, a); }
  }

  lemma {:induction false} Idle(setup: Setup, s: State, a: Action)
    requires !Enabled(setup, s, a)
    ensures Act(setup, s, a) == s
  {
  }

  /** Every state any schedule reaches satisfies the invariant. */
  lemma {:induction false} AfterInv(setup: Setup, schedule: seq<Action>)
    ensures Inv(setup, After(setup, schedule))
  {
    hide Act, Step, Fifo, GateInv, PhaseInv, AnswersInv, WriterInv, Processed;
    if schedule == [] {
      InitialInv(setup);
    } else {
      AfterInv(setup, schedule[..|schedule| - 1]);
      var s, a := After(setup, schedule[..|schedule| - 1]), schedule[|schedule| - 1];
      if Enabled(setup, s, a) {
        match a
        case Enqueue(_, _) => EnqueueKeepsInv(setup, s, a);
        case BeginShutdown(_) => BeginShutdownKeepsInv(setup, s, a);
        case FinishShutdown => FinishShutdownKeepsInv(setup, s, a);
        case Send => SendKeepsInv(setup, s);
        case Process =>
          var (w, reply) := Step(setup.cfg, setup.env, s.writer, s.batch[0]);
          FirstOfBatch(s);
          if s.batch[0].Shutdown? {
            NothingBehindShutdown(s);
          }
          StickyStep(setup, s.writer, s.batch[0]);
          ProcessedFifo(s, w, reply);
          ProcessedGate(s, w, reply);
          ProcessedAnswers(s, w, reply);
          ProcessedWriter(setup, s);
          ProcessedShape(s, w, reply);
          ActProcesses(setup, s);
        case TimeOut => TimeOutKeepsInv(setup, s);
        case Receive => ReceiveKeepsInv(setup, s, a);
        case TryReceive => ReceiveKeepsInv(setup, s, a);
      } else {
        Idle(setup, s, a);
      }
    }
  }

  lemma {:induction false} ProcessedShape(s: State, w: Writer, reply: Reply)
    requires s.batch != []
    ensures var after := Processed(s, w, reply);
            |after.queue| <= |s.queue| && after.lock == s.lock && after.admitted == s.admitted
  {
  }

  lemma {:induction false} ActProcesses(setup: Setup, s: State)
    requires Enabled(setup, s, Process)
    ensures Act(setup, s, Process) == ProcessStep(setup, s)
  {
    hide ProcessStep;
  }

  // ---- what callers may rely on -----------------------------------------------

  /** In every state any schedule reaches, whatever is queued or taken before the last
      command is not a shutdown: nothing ever waits behind one. */
  lemma {:induction false} ShutdownIsLast(setup: Setup, schedule: seq<Action>, k: nat)
    requires var s := After(setup, schedule); k < |s.batch + s.queue| - 1
    ensures var s := After(setup, schedule); !(s.batch + s.queue)[k].Shutdown?
  {
    hide Run, LastReply, Sent, After;
    AfterInv(setup, schedule);
    var s := After(setup, schedule);
    var n := |Sent(s.ran)|;
    assert s.admitted == Sent(s.ran) + (s.batch + s.queue);
    assert s.admitted[n + k] == (s.batch + s.queue)[k];
    assert s.admitted[n + k] in s.admitted[..|s.admitted| - 1] by {
      assert s.admitted[..|s.admitted| - 1][n + k] == s.admitted[n + k];
    }
  }

  /** After a shutdown the writer has run exactly the admitted commands, in the order
      they were admitted, the shutdown last, and so every command a caller was told is
      accepted; every shutdown call so far was told the stored result. */
  lemma {:induction false} ShutdownLosesNothing(setup: Setup, schedule: seq<Action>)
    requires After(setup, schedule).gate.Closed?
    ensures var s := After(setup, schedule);
            && Sent(s.ran) == s.admitted
            && EndsInShutdown(s.admitted)
            && LastReply(setup.cfg, setup.env, setup.StartedWriter(), s.ran) == Flushed(s.gate.result)
            && (forall c :: c in s.answers && s.answers[c].Accepted? ==>
                  s.answers[c].at < |Sent(s.ran)| && Sent(s.ran)[s.answers[c].at] == s.answers[c].command)
            && (forall c :: c in s.answers && s.answers[c].Stopped? ==> s.answers[c].result == s.gate.result)
  {
    hide Run, LastReply, Sent;
    AfterInv(setup, schedule);
    var s := After(setup, schedule);
    assert Sent(s.ran) + [] + [] == Sent(s.ran);
  }

  /** Once a shutdown has begun no schedule admits anything but the shutdown itself, and
      once it has ended nothing is admitted or run. */
  lemma {:induction false} NothingAdmittedAfter(setup: Setup, schedule: seq<Action>, more: seq<Action>)
    requires !After(setup, schedule).gate.Running?
    ensures var s, later := After(setup, schedule), After(setup, schedule + more);
            && OnlyShutdownSince(s, later)
            && (s.gate.Closed? ==> later.gate == s.gate && later.admitted == s.admitted && later.ran == s.ran)
  {
    hide Inv, Act, OnlyShutdownSince;
    if more == [] {
      assert schedule + more == schedule;
      NothingSince(After(setup, schedule));
    } else {
      var k := |more| - 1;
      var s, mid := After(setup, schedule), After(setup, schedule + more[..k]);
      NothingAdmittedAfter(setup, schedule, more[..k]);
      AfterInv(setup, schedule + more[..k]);
      assert (schedule + more)[..|schedule + more| - 1] == schedule + more[..k];
      if s.gate.Closed? {
        ClosedIsFinal(setup, mid, more[k]);
      }
      ShutdownSinceStep(setup, s, mid, more[k]);
    }
  }

  /** The shutdown that has begun in `s` is admitted by then, or nothing is. */
  ghost predicate OnlyShutdownSince(s: State, later: State)
  {
    && !later.gate.Running?
    && (later.lock.Sending? ==> later.lock == s.lock && later.admitted == s.admitted)
    && (|| later.admitted == s.admitted
        || (s.lock.Sending? && s.lock.command == Shutdown && later.admitted == s.admitted + [Shutdown]))
  }

  lemma {:induction false} NothingSince(s: State)
    requires !s.gate.Running?
    ensures OnlyShutdownSince(s, s)
  {
  }

  lemma {:induction false} ShutdownSinceStep(setup: Setup, s: State, mid: State, a: Action)
    requires OnlyShutdownSince(s, mid) && Inv(setup, mid)
    ensures OnlyShutdownSince(s, Act(setup, mid, a))
  {
    hide Run, LastReply, Sent, Fifo, AnswersInv, WriterInv, Step;
  }

  /** What was admitted stays where it is. */
  lemma {:induction false} AdmittedGrows(setup: Setup, schedule: seq<Action>, more: seq<Action>)
    ensures After(setup, schedule).admitted <= After(setup, schedule + more).admitted
  {
    hide Step;
    if more == [] {
      assert schedule + more == schedule;
    } else {
      AdmittedGrows(setup, schedule, more[..|more| - 1]);
      assert (schedule + more)[..|schedule + more| - 1] == schedule + more[..|more| - 1];
    }
  }

  /** The caller's command still waits to be sent, or it was admitted, that very command,
      and the caller was told where. */
  ghost predicate Tracked(s: State, caller: nat, command: Command)
  {
    if s.lock == Sending(caller, command) then caller !in s.answers
    else
      && !IsHeldBy(s.lock, caller) && caller in s.answers
      && match s.answers[caller]
         case Accepted(at, accepted) => accepted == command && at < |s.admitted| && s.admitted[at] == command
         case _ => false
  }

  predicate IsHeldBy(lock: Lock, caller: nat)
  {
    match lock case Free => false case Sending(c, _) => c == caller case Awaiting(c) => c == caller
  }

  predicate IsBy(a: Action, caller: nat)
  {
    match a case Enqueue(c, _) => c == caller case BeginShutdown(c) => c == caller case _ => false
  }

  lemma {:induction false} TrackedStep(setup: Setup, s: State, a: Action, caller: nat, command: Command)
    requires Tracked(s, caller, command) && !IsBy(a, caller) && !command.Shutdown?
    ensures Tracked(Act(setup, s, a), caller, command)
  {
    hide Step;
  }

  /** A command that the running log takes from a caller is never lost on the way: after
      any schedule without another call of that caller it still waits to be sent, or it
      is among the admitted commands where the caller was told. */
  lemma {:induction false} EnqueuedIsAdmitted(setup: Setup, schedule: seq<Action>, caller: nat, command: Command,
                                              more: seq<Action>)
    requires var s := After(setup, schedule);
             Enabled(setup, s, Enqueue(caller, command)) && s.gate.Running? && (command.Record? ==> s.slot.None?)
    requires forall k :: 0 <= k < |more| ==> !IsBy(more[k], caller)
    ensures Tracked(After(setup, schedule + [Enqueue(caller, command)] + more), caller, command)
  {
    hide Act, Tracked;
    var called := schedule + [Enqueue(caller, command)];
    assert called[..|schedule|] == schedule;
    if more == [] {
      assert called + more == called;
      CallIsTracked(setup, After(setup, schedule), caller, command);
    } else {
      var k := |more| - 1;
      EnqueuedIsAdmitted(setup, schedule, caller, command, more[..k]);
      assert (called + more)[..|called + more| - 1] == called + more[..k];
      TrackedStep(setup, After(setup, called + more[..k]), more[k], caller, command);
    }
  }

  lemma {:induction false} CallIsTracked(setup: Setup, s: State, caller: nat, command: Command)
    requires Enabled(setup, s, Enqueue(caller, command)) && s.gate.Running? && (command.Record? ==> s.slot.None?)
    ensures Tracked(Act(setup, s, Enqueue(caller, command)), caller, command)
  {
  }

  /** The shutdown still waits to be sent or answered, and its caller has no answer; or it
      has ended, and the caller was told the result that is kept. */
  ghost predicate ShutdownTracked(s: State, caller: nat)
  {
    if s.lock == Sending(caller, Shutdown) || s.lock == Awaiting(caller) then
      s.gate.ShuttingDown? && caller !in s.answers
    else s.gate.Closed? && caller in s.answers && s.answers[caller] == Stopped(s.gate.result)
  }

  lemma {:induction false} ShutdownTrackedStep(setup: Setup, s: State, a: Action, caller: nat)
    requires ShutdownTracked(s, caller) && !IsBy(a, caller) && GateInv(s)
    ensures ShutdownTracked(Act(setup, s, a), caller)
  {
    hide Step;
  }

  /** The caller that shuts a running log down is answered: after any schedule without another
      call of that caller the shutdown is still on its way, or the log is closed and the
      caller was told its result. */
  lemma {:induction false} ShutdownIsAnswered(setup: Setup, schedule: seq<Action>, caller: nat, more: seq<Action>)
    requires var s := After(setup, schedule); s.lock.Free? && s.gate.Running?
    requires forall k :: 0 <= k < |more| ==> !IsBy(more[k], caller)
    ensures ShutdownTracked(After(setup, schedule + [BeginShutdown(caller)] + more), caller)
  {
    hide Act, ShutdownTracked, Fifo, GateInv, PhaseInv, AnswersInv, WriterInv;
    var called := schedule + [BeginShutdown(caller)];
    assert called[..|schedule|] == schedule;
    if more == [] {
      assert called + more == called;
      ShutdownBegins(setup, After(setup, schedule), caller);
    } else {
      var k := |more| - 1;
      ShutdownIsAnswered(setup, schedule, caller, more[..k]);
      assert (called + more)[..|called + more| - 1] == called + more[..k];
      AfterInv(setup, called + more[..k]);
      ShutdownTrackedStep(setup, After(setup, called + more[..k]), more[k], caller);
    }
  }

  lemma {:induction false} ShutdownBegins(setup: Setup, s: State, caller: nat)
    requires s.lock.Free? && s.gate.Running?
    ensures ShutdownTracked(Act(setup, s, BeginShutdown(caller)), caller)
  {
  }

  lemma {:induction false} ClosedIsFinal(setup: Setup, s: State, a: Action)
    requires Inv(setup, s) && s.gate.Closed?
    ensures var after := Act(setup, s, a);
            after.gate == s.gate && after.admitted == s.admitted && after.ran == s.ran
    ensures a.Enqueue? && Enabled(setup, s, a) ==> Act(setup, s, a).answers[a.caller] == IsShutDown
    ensures a.BeginShutdown? ==> Act(setup, s, a).answers[a.caller] == Stopped(s.gate.result)
  {
    hide Run, LastReply, Sent;
  }

  lemma {:induction false} SentRecords(ran: seq<Command>)
    ensures Records(Sent(ran)) == Records(ran)
  {
    if ran != [] {
      var k := |ran| - 1;
      SentRecords(ran[..k]);
      if !ran[k].PeriodicFlush? {
        assert (Sent(ran[..k]) + [ran[k]])[..|Sent(ran[..k])|] == Sent(ran[..k]);
      } else {
        assert Sent(ran) == Sent(ran[..k]);
        assert Records(ran) == Records(ran[..k]);
      }
    }
  }

  /** End to end: when shutdown returns Ok, every record a caller was told is accepted is
      among the admitted ones, and the synced files hold a contiguous newest part of the
      initial log and all admitted records: with the newest of them at the end, all that
      rotations cannot have dropped, and everything when nothing is rotated. */
  lemma {:induction false} ShutdownIsDurable(setup: Setup, schedule: seq<Action>, initial: seq<Bytes>)
    requires Stored(setup.cfg.Kept(), setup.disk, initial, false) && AllSynced(setup.disk)
    requires After(setup, schedule).gate == Closed(Ok)
    ensures var s := After(setup, schedule);
            var records := Records(s.admitted);
            && AllSynced(s.writer.disk)
            && Contiguous(s.writer.disk, initial + records)
            && (records != [] ==> EndsWith(Data(s.writer.disk, 0), records[|records| - 1]))
            && (setup.cfg.maxFileBytes == 0 ==> HoldsAll(setup.disk, s.writer.disk, records))
            && Holds(setup.cfg, setup.env, setup.disk, 0, s.ran)
            && forall c :: c in s.answers && s.answers[c].Accepted? ==> IsKept(s.admitted, s.answers[c])
  {
    hide Run, LastReply, Sent, Stored, AllSynced, Contiguous, Records;
    hide HoldsAll, HoldsSince, HoldsFrom, RunPasses, RunTo, EndsWith, IsKept;
    AfterInv(setup, schedule);
    ShutdownLosesNothing(setup, schedule);
    var s := After(setup, schedule);
    SentRecords(s.ran);
    BarrierIsDurable(setup.cfg, setup.env, setup.disk, 0, s.ran, initial);
    forall c | c in s.answers && s.answers[c].Accepted? ensures IsKept(s.admitted, s.answers[c]) {
      AcceptedIsKept(s.admitted, s.answers[c]);
    }
  }

  /** The accepted command is an admitted one, and its record one of the records. */
  ghost predicate IsKept(admitted: seq<Command>, answer: Answer)
    requires answer.Accepted?
  {
    && answer.at < |admitted| && admitted[answer.at] == answer.command
    && (answer.command.Record? ==> answer.command.encoded in Records(admitted))
  }

  lemma {:induction false} AcceptedIsKept(admitted: seq<Command>, answer: Answer)
    requires answer.Accepted? && answer.at < |admitted| && admitted[answer.at] == answer.command
    ensures IsKept(admitted, answer)
  {
    if answer.command.Record? {
      RecordIsAmong(admitted, answer.at);
    }
  }

  lemma {:induction false} RecordIsAmong(commands: seq<Command>, at: nat)
    requires at < |commands| && commands[at].Record?
    ensures commands[at].encoded in Records(commands)
  {
    var k := |commands| - 1;
    if at == k {
      assert Records(commands)[|Records(commands)| - 1] == commands[at].encoded;
    } else {
      RecordIsAmong(commands[..k], at);
    }
  }

  /** Once the log has met an error, every record is refused with it and nothing is
      admitted; before that, and for every other command, the caller goes on to send. */
  lemma {:induction false} PoisonedRefusesRecords(setup: Setup, schedule: seq<Action>, caller: nat, command: Command)
    requires var s := After(setup, schedule); Enabled(setup, s, Enqueue(caller, command)) && s.gate.Running?
    ensures var s, after := After(setup, schedule), Act(setup, After(setup, schedule), Enqueue(caller, command));
            && after.admitted == s.admitted && after.queue == s.queue
            && (if command.Record? && s.writer.terminal.Some? then
                  after.lock.Free? && caller in after.answers
                  && after.answers[caller] == Poisoned(s.writer.terminal.value)
                else after.lock == Sending(caller, command))
  {
    hide After, Run, Step, Sent;
    AfterInv(setup, schedule);
  }

  /** While the failures of single calls are such as the writer gets over, no record is
      refused as poisoned and the shutdown returns Ok. */
  lemma {:induction false} NothingIsPoisoned(setup: Setup, schedule: seq<Action>)
    requires Forgiving(setup.cfg, setup.env.io)
    ensures var s := After(setup, schedule);
            && s.slot.None? && (s.gate.Closed? ==> s.gate.result == Ok)
            && (forall c :: c in s.answers ==> !s.answers[c].Poisoned?)
  {
    hide After, Run, Step, Sent, Forgiving, Start;
    AfterInv(setup, schedule);
    var s := After(setup, schedule);
    RunSucceeds(setup.cfg, setup.env, setup.disk, 0, s.ran);
  }

  /** A record is refused with the very error that the shutdown then returns. */
  lemma {:induction false} RefusalNamesTheError(setup: Setup, schedule: seq<Action>, caller: nat)
    requires After(setup, schedule).gate.Closed?
    requires caller in After(setup, schedule).answers && After(setup, schedule).answers[caller].Poisoned?
    ensures After(setup, schedule).gate.result == Err(After(setup, schedule).answers[caller].error)
  {
    hide After, Step, Sent;
    AfterInv(setup, schedule);
    var s := After(setup, schedule);
    var k := |s.ran| - 1;
    var before := Run(setup.cfg, setup.env, setup.StartedWriter(), s.ran[..k]);
    BarrierReportsTerminal(setup.cfg, setup.env, before, s.ran[k]);
  }

  /** A step of the writer on a command, or of the lock holder. */
  predicate Helps(a: Action) { a.Send? || a.FinishShutdown? || a.Receive? || a.TryReceive? || a.Process? }

  /** The writer never needs the admission lock: while a caller holds it, some step
      of the writer or of that caller is enabled. */
  lemma {:induction false} LockHolderIsNeverStuck(setup: Setup, schedule: seq<Action>) returns (a: Action)
    requires !After(setup, schedule).lock.Free?
    ensures Enabled(setup, After(setup, schedule), a) && Helps(a)
  {
    hide Inv;
    AfterInv(setup, schedule);
    a := NextForHolder(setup, After(setup, schedule));
  }

  lemma {:induction false} NextForHolder(setup: Setup, s: State) returns (a: Action)
    requires Inv(setup, s) && !s.lock.Free?
    ensures Enabled(setup, s, a) && Helps(a)
  {
    hide Run, LastReply, Sent;
    a := match s.phase
      case Processing => Process
      case Draining => TryReceive
      case Exited => FinishShutdown
      case Waiting => if s.queue != [] then Receive else Send;
    if s.phase.Waiting? && s.queue == [] {
      assert s.lock.Sending? by {
        if s.lock.Awaiting? { AwaitedShutdownIsQueued(setup, s); }
      }
    }
  }

  /** How many of those steps there can be before the lock is free: every command waiting
      is taken, seen by a poll and run, and the holder has its command to send first. */
  function Work(s: State): nat
  {
    3 * |s.queue| + |s.batch| + (if s.phase.Draining? then 1 else 0) + (if s.lock.Sending? then 5 else 1)
  }

  lemma {:induction false} StepWorks(setup: Setup, s: State, a: Action)
    requires !s.lock.Free?
    ensures var after := Act(setup, s, a);
            || after.lock.Free?
            || (if Helps(a) && Enabled(setup, s, a) then Work(after) < Work(s) else Work(after) == Work(s))
  {
    hide Step;
  }

  /** The steps of `more` that help and can be taken. */
  function Helping(setup: Setup, schedule: seq<Action>, more: seq<Action>): nat
  {
    if more == [] then 0
    else
      var k := |more| - 1;
      Helping(setup, schedule, more[..k])
      + (if Helps(more[k]) && Enabled(setup, After(setup, schedule + more[..k]), more[k]) then 1 else 0)
  }

  /** So the lock is released: whatever the schedule, it is not held for more of these
      steps than there is work. */
  lemma {:induction false} LockIsReleased(setup: Setup, schedule: seq<Action>, more: seq<Action>)
    requires forall k | 0 <= k <= |more| :: !After(setup, schedule + more[..k]).lock.Free?
    ensures Helping(setup, schedule, more) + Work(After(setup, schedule + more)) <= Work(After(setup, schedule))
  {
    hide Act, Work, Enabled;
    if more == [] {
      assert schedule + more == schedule;
    } else {
      var k := |more| - 1;
      forall j | 0 <= j <= k ensures !After(setup, schedule + more[..k][..j]).lock.Free? {
        assert more[..k][..j] == more[..j];
      }
      LockIsReleased(setup, schedule, more[..k]);
      assert (schedule + more)[..|schedule + more| - 1] == schedule + more[..k];
      assert more[..|more|] == more;
      StepWorks(setup, After(setup, schedule + more[..k]), more[k]);
    }
  }

  /** While a shutdown waits for its answer and the thread lives, its command is queued. */
  lemma {:induction false} AwaitedShutdownIsQueued(setup: Setup, s: State)
    requires Inv(setup, s) && s.lock.Awaiting? && s.phase != Exited
    ensures s.batch != [] || s.queue != []
  {
    hide Run, LastReply, Sent;
    SentNoShutdown(s.ran);
    assert s.admitted[|s.admitted| - 1] in s.admitted;
  }

  lemma {:induction false} SentNoShutdown(ran: seq<Command>)
    requires NoShutdown(ran)
    ensures NoShutdown(Sent(ran))
  {
    if ran != [] {
      SentNoShutdown(ran[..|ran| - 1]);
    }
  }
}
