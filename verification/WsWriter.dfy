/** The WebSocket writer task of crates/agent/src/ws_client.rs: pongs first, then control
    messages, then video frames, with a turn for a frame after two control messages. */
module WsWriter {
  import opened Wrappers

  datatype Kind = Pong | Control | Binary

  /** How writing a message ends: on the wire, dropped because it does not serialize
      (a control message), or with an error of the socket. */
  datatype Outcome = Sent | Unserializable | Broken

  datatype Entry = Entry(kind: Kind, payload: nat, outcome: Outcome)

  /** Where the loop is: before the pong it polls for, before the frame it may prefer,
      or before the biased `select!`. */
  datatype Phase = PollPong | CheckBurst | Select

  /** Messages arrive, all senders go away, or the writer gets to its next `try_recv` or
      `select!`; if that takes a message, `outcome` says how writing it ends. */
  datatype Action = Arrive(kind: Kind, payload: nat) | HangUp | Turn(outcome: Outcome)

  datatype State = State(
    pongs: seq<nat>, controls: seq<nat>, binaries: seq<nat>,
    burst: nat, phase: Phase, log: seq<Entry>, closed: bool, running: bool)

  const START := State([], [], [], 0, PollPong, [], false, true)

  /** The channel of frames is bounded: a frame that finds it full does not get in. */
  const BINARY_CAPACITY: nat := 2

  function Queue(s: State, kind: Kind): seq<nat>
  {
    match kind case Pong => s.pongs case Control => s.controls case Binary => s.binaries
  }

  function SetQueue(s: State, kind: Kind, q: seq<nat>): State
  {
    match kind
    case Pong => s.(pongs := q)
    case Control => s.(controls := q)
    case Binary => s.(binaries := q)
  }

  /** `control_burst` is a u8 that saturates. */
  function BurstAfter(burst: nat, kind: Kind): nat
  {
    match kind
    case Pong => burst
    case Control => if burst < 255 then burst + 1 else 255
    case Binary => 0
  }

  /** Takes the oldest message of a kind and writes it. Only a control message is
      serialized, so only it can fail to be. */
  function Take(s: State, kind: Kind, outcome: Outcome): State
    requires Queue(s, kind) != []
  {
    var how := if outcome == Unserializable && kind != Control then Sent else outcome;
    SetQueue(s, kind, Queue(s, kind)[1..]).(
      burst := BurstAfter(s.burst, kind),
      phase := PollPong,
      log := s.log + [Entry(kind, Queue(s, kind)[0], how)],
      running := how != Broken)
  }

  /** The message the next turn takes, if any. */
  function Choice(s: State): (k: seq<Kind>)
    ensures |k| <= 1 && (k != [] ==> Queue(s, k[0]) != [])
  {
    match s.phase
    case PollPong => if s.pongs != [] then [Pong] else []
    case CheckBurst => if s.burst >= 2 && s.binaries != [] then [Binary] else []
    case Select =>
      if s.pongs != [] then [Pong]
      else if s.controls != [] then [Control]
      else if s.binaries != [] then [Binary]
      else []
  }

  /** A turn that takes nothing: on to the next poll, and in the `select!` to wait, or to
      stop once all channels are closed. */
  function Idle(s: State): State
  {
    match s.phase
    case PollPong => s.(phase := CheckBurst)
    case CheckBurst => s.(phase := Select)
    case Select => s.(running := !s.closed)
  }

  /** A message of this kind would get into its channel. */
  predicate HasRoom(s: State, kind: Kind)
  {
    s.running && !s.closed && (kind == Binary ==> |s.binaries| < BINARY_CAPACITY)
  }

  function Step(s: State, a: Action): State
  {
    if !s.running then s
    else
      match a
      case Arrive(kind, payload) => if HasRoom(s, kind) then SetQueue(s, kind, Queue(s, kind) + [payload]) else s
      case HangUp => s.(closed := true)
      case Turn(outcome) =>
        if Choice(s) != [] then Take(s, Choice(s)[0], outcome)
        else Idle(s)
  }

  function Run(s: State, actions: seq<Action>): State
    decreases |actions|
  {
    if actions == [] then s else Run(Step(s, actions[0]), actions[1..])
  }

  lemma {:induction false} RunAppend(s: State, a: seq<Action>, b: seq<Action>)
    ensures Run(s, a + b) == Run(Run(s, a), b)
    decreases |a|
  {
    hide Step;
    if a == [] {
      assert a + b == b;
    } else {
      assert (a + b)[1..] == a[1..] + b;
      RunAppend(Step(s, a[0]), a[1..], b);
    }
  }

  // ---- the loop of the writer task ----------------------------------------------------

  /** What happens around one pass of the loop: before it polls for a pong, before it may
      prefer a frame, and until its `select!` wakes up. */
  datatype Pass = Pass(beforePoll: seq<Action>, beforeCheck: seq<Action>, beforeSelect: seq<Action>, outcome: Outcome)
  {
    ghost predicate Valid() { NoTurns(beforePoll) && NoTurns(beforeCheck) && NoTurns(beforeSelect) }
  }

  ghost predicate NoTurns(actions: seq<Action>)
  {
    forall k :: 0 <= k < |actions| ==> !actions[k].Turn?
  }

  /** One pass of the loop, as far as it gets. */
  function OnePass(s: State, p: Pass): State
  {
    var s1 := Step(Run(s, p.beforePoll), Turn(p.outcome));
    if s1.phase != CheckBurst then s1
    else
      var s2 := Step(Run(s1, p.beforeCheck), Turn(p.outcome));
      if s2.phase != Select then s2
      else Step(Run(s2, p.beforeSelect), Turn(p.outcome))
  }

  /** The passes one after the other, until the writer stops or is left waiting in its
      `select!` with nothing to write. */
  function RunPasses(s: State, passes: seq<Pass>): State
    decreases |passes|
  {
    if passes == [] || !s.running || s.phase != PollPong then s
    else RunPasses(OnePass(s, passes[0]), passes[1..])
  }

  lemma {:induction false} OneTurn(s: State, before: seq<Action>, actions: seq<Action>, outcome: Outcome)
    ensures Run(s, before + actions + [Turn(outcome)]) == Step(Run(Run(s, before), actions), Turn(outcome))
  {
    hide Step;
    RunAppend(s, before, actions);
    RunAppend(s, before + actions, [Turn(outcome)]);
    assert [Turn(outcome)][1..] == [];
  }

  lemma {:induction false} PassIsRun(s: State, p: Pass) returns (actions: seq<Action>)
    ensures OnePass(s, p) == Run(s, actions)
  {
    hide Step, Run;
    assert Run(s, []) == s by { RunOfNone(s); }
    actions := [] + p.beforePoll + [Turn(p.outcome)];
    OneTurn(s, [], p.beforePoll, p.outcome);
    if Run(s, actions).phase == CheckBurst {
      OneTurn(s, actions, p.beforeCheck, p.outcome);
      actions := actions + p.beforeCheck + [Turn(p.outcome)];
      if Run(s, actions).phase == Select {
        OneTurn(s, actions, p.beforeSelect, p.outcome);
        actions := actions + p.beforeSelect + [Turn(p.outcome)];
      }
    }
  }

  lemma {:induction false} RunOfNone(s: State)
    ensures Run(s, []) == s
  {
  }

  lemma {:induction false} PassesAreRuns(s: State, passes: seq<Pass>) returns (actions: seq<Action>)
    ensures RunPasses(s, passes) == Run(s, actions)
    decreases |passes|
  {
    hide Step, OnePass;
    actions := [];
    if passes != [] && s.running && s.phase == PollPong {
      var first := PassIsRun(s, passes[0]);
      var rest := PassesAreRuns(OnePass(s, passes[0]), passes[1..]);
      RunAppend(s, first, rest);
      actions := first + rest;
    }
  }

  class WriterTask {
    var pongs: seq<nat>
    var controls: seq<nat>
    var binaries: seq<nat>
    var controlBurst: nat
    var wire: seq<Entry>
    var closed: bool
    var running: bool

    function At(phase: Phase): State
      reads this
    {
      State(pongs, controls, binaries, controlBurst, phase, wire, closed, running)
    }

    constructor ()
      ensures At(PollPong) == START
    {
      pongs, controls, binaries, controlBurst, wire, closed, running := [], [], [], 0, [], false, true;
    }

    /** The other tasks put messages into the channels, or drop their senders. */
    method Receive(actions: seq<Action>, ghost phase: Phase)
      requires NoTurns(actions) && running
      modifies this`pongs, this`controls, this`binaries, this`closed
      ensures At(phase) == Run(old(At(phase)), actions)
    {
      var k := 0;
      while k < |actions|
        invariant 0 <= k <= |actions|
        invariant Run(old(At(phase)), actions) == Run(At(phase), actions[k..])
      {
        assert actions[k..][1..] == actions[k + 1..];
        match actions[k] {
          case Arrive(kind, payload) =>
            if !closed {
              match kind {
                case Pong => pongs := pongs + [payload];
                case Control => controls := controls + [payload];
                case Binary =>
                  if |binaries| < BINARY_CAPACITY {
                    binaries := binaries + [payload];
                  }
              }
            }
          case HangUp => closed := true;
          case Turn(_) =>
        }
        k := k + 1;
      }
    }

    method SendPong(outcome: Outcome)
      requires pongs != [] && running
      modifies this`pongs, this`wire, this`running
      ensures At(PollPong) == Take(old(At(PollPong)), Pong, outcome)
    {
      var payload := pongs[0];
      pongs := pongs[1..];
      wire := wire + [Entry(Pong, payload, if outcome == Broken then Broken else Sent)];
      running := outcome != Broken;
    }

    method SendControl(outcome: Outcome)
      requires controls != [] && running
      modifies this`controls, this`wire, this`running, this`controlBurst
      ensures At(PollPong) == Take(old(At(PollPong)), Control, outcome)
    {
      var payload := controls[0];
      controls := controls[1..];
      controlBurst := if controlBurst < 255 then controlBurst + 1 else 255;
      wire := wire + [Entry(Control, payload, outcome)];
      running := outcome != Broken;
    }

    method SendBinary(outcome: Outcome)
      requires binaries != [] && running
      modifies this`binaries, this`wire, this`running, this`controlBurst
      ensures At(PollPong) == Take(old(At(PollPong)), Binary, outcome)
    {
      var payload := binaries[0];
      binaries := binaries[1..];
      controlBurst := 0;
      wire := wire + [Entry(Binary, payload, if outcome == Broken then Broken else Sent)];
      running := outcome != Broken;
    }

    /** One pass of the loop; `phase` is where it leaves off. */
    method LoopOnce(p: Pass) returns (ghost phase: Phase, waiting: bool)
      requires p.Valid() && running
      modifies this
      ensures At(phase) == OnePass(old(At(PollPong)), p)
      ensures phase == (if waiting then Select else PollPong)
    {
      hide Run, Step;
      waiting, phase := false, PollPong;
      ghost var s := At(PollPong);
      Receive(p.beforePoll, PollPong);
      TurnOf(At(PollPong), p.outcome);
      ghost var s1 := Step(Run(s, p.beforePoll), Turn(p.outcome));
      if pongs != [] {
        SendPong(p.outcome);
        return;
      }
      assert s1 == At(CheckBurst);
      Receive(p.beforeCheck, CheckBurst);
      TurnOf(At(CheckBurst), p.outcome);
      ghost var s2 := Step(Run(s1, p.beforeCheck), Turn(p.outcome));
      if controlBurst >= 2 {
        if binaries != [] {
          SendBinary(p.outcome);
          assert At(PollPong) == s2;
          return;
        }
      }
      assert s2 == At(Select);
      Receive(p.beforeSelect, Select);
      TurnOf(At(Select), p.outcome);
      if pongs != [] {
        SendPong(p.outcome);
      } else if controls != [] {
        SendControl(p.outcome);
      } else if binaries != [] {
        SendBinary(p.outcome);
      } else {
        running := !closed;
        waiting, phase := true, Select;
      }
    }

    method Loop(passes: seq<Pass>)
      requires forall k :: 0 <= k < |passes| ==> passes[k].Valid()
      requires running
      modifies this
      ensures exists phase :: At(phase) == RunPasses(old(At(PollPong)), passes)
    {
      hide Run, OnePass;
      var k, waiting := 0, false;
      ghost var phase := PollPong;
      while k < |passes| && running && !waiting
        invariant 0 <= k <= |passes| && phase == (if waiting then Select else PollPong)
        invariant RunPasses(old(At(PollPong)), passes) == RunPasses(At(phase), passes[k..])
      {
        assert passes[k..][1..] == passes[k + 1..];
        phase, waiting := LoopOnce(passes[k]);
        k := k + 1;
      }
    }
  }

  lemma {:induction false} TurnOf(s: State, outcome: Outcome)
    requires s.running
    ensures var k := Choice(s);
            && (k != [] ==>
                  Step(s, Turn(outcome)) == Take(s, k[0], outcome) && Take(s, k[0], outcome).phase == PollPong)
            && (k == [] ==> Step(s, Turn(outcome)) == Idle(s))
  {
  }

  // ---- fairness ---------------------------------------------------------------------------

  /** How many control messages were taken while the oldest frame waited, after a step. */
  function Overtaken(waited: nat, before: State, after: State): nat
  {
    if before.binaries == [] || after.binaries == [] then 0
    else if |after.log| == |before.log| || after.log == [] then waited
    else
      match after.log[|after.log| - 1].kind
      case Binary => 0
      case Control => waited + 1
      case Pong => waited
  }

  function OvertakenIn(s: State, waited: nat, actions: seq<Action>): nat
    decreases |actions|
  {
    if actions == [] then waited
    else
      var next := Step(s, actions[0]);
      OvertakenIn(next, Overtaken(waited, s, next), actions[1..])
  }

  ghost predicate Fair(s: State, waited: nat)
  {
    && waited <= 2 && waited <= s.burst
    && (s.binaries == [] ==> waited == 0)
    && (s.running && s.phase == Select && waited > 0 ==> s.burst < 2)
  }

  lemma {:induction false} StepIsFair(s: State, waited: nat, a: Action)
    requires Fair(s, waited)
    ensures Fair(Step(s, a), Overtaken(waited, s, Step(s, a)))
  {
  }

  lemma {:induction false} RunIsFair(s: State, waited: nat, actions: seq<Action>)
    requires Fair(s, waited)
    ensures OvertakenIn(s, waited, actions) <= 2
    decreases |actions|
  {
    hide Step, Overtaken;
    if actions != [] {
      StepIsFair(s, waited, actions[0]);
      RunIsFair(Step(s, actions[0]), Overtaken(waited, s, Step(s, actions[0])), actions[1..]);
    }
  }

  /** Whatever arrives and whenever: from the moment a frame is the oldest in its
      channel, at most two control messages are taken before it. */
  lemma {:induction false} AtMostTwoOvertake(actions: seq<Action>)
    ensures OvertakenIn(START, 0, actions) <= 2
  {
    RunIsFair(START, 0, actions);
  }

  // ---- order and completeness of each class ---------------------------------------------------

  /** The messages of a kind that got into their channel. */
  function Accepted(s: State, actions: seq<Action>, kind: Kind): seq<nat>
    decreases |actions|
  {
    if actions == [] then []
    else
      (if actions[0].Arrive? && actions[0].kind == kind && HasRoom(s, kind) then [actions[0].payload] else [])
      + Accepted(Step(s, actions[0]), actions[1..], kind)
  }

  /** The messages of a kind that the writer took, in order. */
  function Taken(log: seq<Entry>, kind: Kind): seq<nat>
  {
    if log == [] then []
    else Taken(log[..|log| - 1], kind) + (if log[|log| - 1].kind == kind then [log[|log| - 1].payload] else [])
  }

  lemma {:induction false} StepConserves(s: State, a: Action, kind: Kind)
    ensures Taken(Step(s, a).log, kind) + Queue(Step(s, a), kind)
         == Taken(s.log, kind) + Queue(s, kind)
            + (if a.Arrive? && a.kind == kind && HasRoom(s, kind) then [a.payload] else [])
  {
    hide Taken, Choice;
    var before := Taken(s.log, kind) + Queue(s, kind);
    assert before + [] == before;
    if s.running {
      if a.Turn? && Choice(s) != [] {
        TakeConserves(s, Choice(s)[0], a.outcome, kind);
      }
    }
  }

  lemma {:induction false} TakeConserves(s: State, taken: Kind, outcome: Outcome, kind: Kind)
    requires Queue(s, taken) != []
    ensures Taken(Take(s, taken, outcome).log, kind) + Queue(Take(s, taken, outcome), kind)
         == Taken(s.log, kind) + Queue(s, kind)
  {
    var next := Take(s, taken, outcome);
    assert next.log[..|s.log|] == s.log;
    if taken == kind {
      assert Queue(s, kind) == [Queue(s, kind)[0]] + Queue(next, kind);
      Regroup(Taken(s.log, kind), [Queue(s, kind)[0]], Queue(next, kind));
    } else {
      assert Taken(s.log, kind) + [] == Taken(s.log, kind);
    }
  }

  lemma {:induction false} RunConserves(s: State, actions: seq<Action>, kind: Kind)
    ensures Taken(Run(s, actions).log, kind) + Queue(Run(s, actions), kind)
         == Taken(s.log, kind) + Queue(s, kind) + Accepted(s, actions, kind)
    decreases |actions|
  {
    hide Step, Taken, Queue;
    if actions == [] {
      assert Taken(s.log, kind) + Queue(s, kind) + [] == Taken(s.log, kind) + Queue(s, kind);
    } else {
      var next := Step(s, actions[0]);
      var arrives := actions[0].Arrive? && actions[0].kind == kind && HasRoom(s, kind);
      var first := if arrives then [actions[0].payload] else [];
      StepConserves(s, actions[0], kind);
      RunConserves(next, actions[1..], kind);
      Regroup(Taken(s.log, kind) + Queue(s, kind), first, Accepted(next, actions[1..], kind));
    }
  }

  /** Each class leaves in the order it arrived, with nothing dropped or doubled: what was
      taken, then what still waits, is what was accepted. */
  lemma {:induction false} EachClassInOrder(actions: seq<Action>, kind: Kind)
    ensures Taken(Run(START, actions).log, kind) + Queue(Run(START, actions), kind) == Accepted(START, actions, kind)
  {
    hide Run, Accepted;
    RunConserves(START, actions, kind);
    assert Taken([], kind) + Queue(START, kind) == [];
    assert [] + Accepted(START, actions, kind) == Accepted(START, actions, kind);
  }

  /** While the task runs and its senders are there, every pong and control message gets into
      its channel, at the end, and a frame does unless two are waiting. */
  lemma ArrivesWhen(s: State, kind: Kind, payload: nat)
    requires s.running && !s.closed
    ensures var next := Step(s, Arrive(kind, payload));
            && Queue(next, kind) == Queue(s, kind) + (if kind == Binary && |s.binaries| >= 2 then [] else [payload])
            && (forall other: Kind :: other != kind ==> Queue(next, other) == Queue(s, other))
            && next.log == s.log
  {
  }

  /** Never do more than two frames wait. */
  lemma {:induction false} RunKeepsCapacity(s: State, actions: seq<Action>)
    requires |s.binaries| <= BINARY_CAPACITY
    ensures |Run(s, actions).binaries| <= BINARY_CAPACITY
    decreases |actions|
  {
    hide Choice;
    if actions != [] {
      RunKeepsCapacity(Step(s, actions[0]), actions[1..]);
    }
  }

  /** Only a broken socket stops the writer before its senders are gone, and only the last
      write can be the one that broke it; only a control message is dropped. */
  ghost predicate LogSound(s: State)
  {
    && (forall k :: 0 <= k < |s.log| - 1 ==> s.log[k].outcome != Broken)
    && (forall k :: 0 <= k < |s.log| && s.log[k].outcome == Unserializable ==> s.log[k].kind == Control)
    && (s.running ==> s.log == [] || s.log[|s.log| - 1].outcome != Broken)
    && (!s.running && (s.log == [] || s.log[|s.log| - 1].outcome != Broken) ==>
          s.closed && s.pongs == [] && s.controls == [] && s.binaries == [])
  }

  lemma {:induction false} StepKeepsLogSound(s: State, a: Action)
    requires LogSound(s)
    ensures LogSound(Step(s, a))
  {
    hide Choice;
    if s.running && a.Turn? && Choice(s) == [] && s.phase == Select {
      NothingChosen(s);
    }
  }

  lemma {:induction false} NothingChosen(s: State)
    requires Choice(s) == [] && s.phase == Select
    ensures s.pongs == [] && s.controls == [] && s.binaries == []
  {
  }

  lemma {:induction false} RunKeepsLogSound(s: State, actions: seq<Action>)
    requires LogSound(s)
    ensures LogSound(Run(s, actions))
    decreases |actions|
  {
    hide Step, LogSound;
    if actions != [] {
      StepKeepsLogSound(s, actions[0]);
      RunKeepsLogSound(Step(s, actions[0]), actions[1..]);
    }
  }

  /** So when the writer ends with no write broken, everything accepted was taken. */
  lemma {:induction false} CleanEndTakesAll(actions: seq<Action>, kind: Kind)
    requires !Run(START, actions).running
    requires forall k :: 0 <= k < |Run(START, actions).log| ==> Run(START, actions).log[k].outcome != Broken
    ensures Taken(Run(START, actions).log, kind) == Accepted(START, actions, kind)
  {
    hide Run, Accepted, Taken;
    EachClassInOrder(actions, kind);
    RunKeepsLogSound(START, actions);
    assert Queue(Run(START, actions), kind) == [];
  }

  // ---- progress -----------------------------------------------------------------------------------

  /** A frame waits, no pong does, and the writer is at work. */
  ghost predicate FrameWaits(s: State) { s.running && s.binaries != [] && s.pongs == [] }

  /** The turns that a waiting frame is away from being taken, at most. */
  function TurnsAway(s: State): nat
  {
    match s.phase
    case PollPong => if s.burst >= 2 then 2 else if s.burst == 1 then 5 else 8
    case CheckBurst => if s.burst >= 2 then 1 else if s.burst == 1 then 4 else 7
    case Select => if s.burst >= 1 then 3 else 6
  }

  ghost predicate NoPongs(actions: seq<Action>)
  {
    forall k :: 0 <= k < |actions| ==>
      !(actions[k].Arrive? && actions[k].kind == Pong) && !(actions[k].Turn? && actions[k].outcome == Broken)
  }

  function Turns(actions: seq<Action>): nat
  {
    if actions == [] then 0 else (if actions[0].Turn? then 1 else 0) + Turns(actions[1..])
  }

  lemma {:induction false} StepNears(s: State, a: Action)
    requires FrameWaits(s) && NoPongs([a])
    ensures var next := Step(s, a);
            || (a.Turn? && next.log == s.log + [Entry(Binary, s.binaries[0], Sent)])
            || (FrameWaits(next) && next.binaries[0] == s.binaries[0] && s.log <= next.log
                && TurnsAway(next) + (if a.Turn? then 1 else 0) <= TurnsAway(s))
  {
    assert [a][0] == a;
  }

  /** However many control messages come, a waiting frame is written within eight turns,
      which is three passes of the loop. */
  lemma {:induction false} FrameIsWritten(s: State, actions: seq<Action>)
    requires FrameWaits(s) && NoPongs(actions) && Turns(actions) >= TurnsAway(s)
    ensures var log := Run(s, actions).log;
            exists k :: |s.log| <= k < |log| && log[k] == Entry(Binary, s.binaries[0], Sent)
    decreases |actions|
  {
    hide Step, TurnsAway;
    if actions == [] {
      AwayIsPositive(s);
    } else {
      var next := Step(s, actions[0]);
      assert Run(s, actions) == Run(next, actions[1..]);
      assert NoPongs([actions[0]]);
      StepNears(s, actions[0]);
      LogGrows(next, actions[1..]);
      if actions[0].Turn? && next.log == s.log + [Entry(Binary, s.binaries[0], Sent)] {
        assert Run(s, actions).log[|s.log|] == Entry(Binary, s.binaries[0], Sent);
      } else {
        FrameIsWritten(next, actions[1..]);
        var log := Run(next, actions[1..]).log;
        var k: nat :| |next.log| <= k < |log| && log[k] == Entry(Binary, s.binaries[0], Sent);
        assert |s.log| <= k && Run(s, actions).log[k] == Entry(Binary, s.binaries[0], Sent);
      }
    }
  }

  lemma {:induction false} AwayIsPositive(s: State)
    ensures 0 < TurnsAway(s) <= 8
  {
  }

  lemma {:induction false} LogGrows(s: State, actions: seq<Action>)
    ensures s.log <= Run(s, actions).log
    decreases |actions|
  {
    if actions != [] {
      LogGrows(Step(s, actions[0]), actions[1..]);
    }
  }

  ghost predicate NoneBreaks(actions: seq<Action>)
  {
    forall k :: 0 <= k < |actions| ==> !(actions[k].Turn? && actions[k].outcome == Broken)
  }

  /** The n-th entry of the log writes this message. */
  ghost predicate WritesAt(log: seq<Entry>, n: nat, kind: Kind, payload: nat)
  {
    n < |log| && log[n].kind == kind && log[n].payload == payload && log[n].outcome != Broken
    && (log[n].outcome == Unserializable ==> kind == Control)
  }

  ghost predicate IsFrameAt(log: seq<Entry>, n: nat) { n < |log| && log[n].kind == Binary }

  /** A waiting pong is the next message written, unless the writer has polled for a pong
      already: then at most one frame goes before it. That takes two turns. */
  lemma {:induction false} PongIsWritten(s: State, actions: seq<Action>)
    requires s.running && s.pongs != [] && NoneBreaks(actions)
    requires Turns(actions) >= if s.phase == CheckBurst then 2 else 1
    ensures var log, n := Run(s, actions).log, |s.log|;
            || WritesAt(log, n, Pong, s.pongs[0])
            || (s.phase == CheckBurst && IsFrameAt(log, n) && WritesAt(log, n + 1, Pong, s.pongs[0]))
    decreases |actions|
  {
    hide Step;
    var next := Step(s, actions[0]);
    LogGrows(next, actions[1..]);
    NearPong(s, actions[0]);
    assert Run(s, actions) == Run(next, actions[1..]);
    if next.log != s.log + [Entry(Pong, s.pongs[0], Sent)] {
      PongIsWritten(next, actions[1..]);
    } else {
      assert next.log[|s.log|] == Run(s, actions).log[|s.log|];
    }
  }

  lemma {:induction false} NearPong(s: State, a: Action)
    requires s.running && s.pongs != [] && !(a.Turn? && a.outcome == Broken)
    ensures var next := Step(s, a);
            if a.Turn? && s.phase != CheckBurst then next.log == s.log + [Entry(Pong, s.pongs[0], Sent)]
            else
              && next.running && next.pongs != [] && next.pongs[0] == s.pongs[0]
              && (a.Turn? ==> next.phase != CheckBurst)
              && (!a.Turn? ==> next.phase == s.phase && next.log == s.log)
              && (next.log == s.log
                  || (|next.log| == |s.log| + 1 && s.log <= next.log && next.log[|s.log|].kind == Binary))
  {
  }

  /** The control messages taken since the last frame. */
  function ControlsSince(log: seq<Entry>): nat
  {
    if log == [] || log[|log| - 1].kind == Binary then 0
    else ControlsSince(log[..|log| - 1]) + (if log[|log| - 1].kind == Control then 1 else 0)
  }

  /** The counter of the loop, which is one byte, holds that number while it fits. */
  lemma {:induction false} CounterHolds(actions: seq<Action>)
    ensures var s, n := Run(START, actions), ControlsSince(Run(START, actions).log);
            s.burst == if n <= 255 then n else 255
    decreases |actions|
  {
    hide Step;
    if actions == [] {
      assert Run(START, actions) == START;
    } else {
      var before, last := actions[..|actions| - 1], actions[|actions| - 1];
      assert actions == before + [last];
      RunAppend(START, before, [last]);
      assert Run(Run(START, before), [last]) == Step(Run(START, before), last);
      CounterHolds(before);
      CounterSteps(Run(START, before), last);
    }
  }

  lemma {:induction false} CounterSteps(s: State, a: Action)
    requires var n := ControlsSince(s.log); s.burst == if n <= 255 then n else 255
    ensures var n := ControlsSince(Step(s, a).log); Step(s, a).burst == if n <= 255 then n else 255
  {
    hide ControlsSince, Step;
    var next := Step(s, a);
    LogSteps(s, a);
    if next.log != s.log {
      ControlsAppend(s.log, next.log[|s.log|]);
    }
  }

  /** A step writes nothing and keeps the counter, or one entry that it counts. */
  lemma {:induction false} LogSteps(s: State, a: Action)
    ensures var next := Step(s, a);
            || (next.log == s.log && next.burst == s.burst)
            || (&& |next.log| == |s.log| + 1 && next.log == s.log + [next.log[|s.log|]]
                && next.burst == BurstAfter(s.burst, next.log[|s.log|].kind))
  {
    if s.running {
      match a
      case Turn(outcome) => TurnOf(s, outcome);
      case _ =>
    }
  }

  lemma {:induction false} ControlsAppend(log: seq<Entry>, e: Entry)
    ensures ControlsSince(log + [e]) == match e.kind case Binary => 0
                                                     case Control => ControlsSince(log) + 1
                                                     case Pong => ControlsSince(log)
  {
    assert (log + [e])[..|log|] == log;
  }

  /** Whatever arrives and whenever: a frame is taken before a waiting control message only
      when two control messages were taken since the last frame. */
  lemma {:induction false} FrameGoesFirstWhen(actions: seq<Action>, outcome: Outcome)
    ensures var s, next := Run(START, actions), Run(START, actions + [Turn(outcome)]);
            && |s.log| <= |next.log| <= |s.log| + 1
            && (|next.log| > |s.log| && next.log[|s.log|].kind == Binary && s.controls != [] ==>
                  ControlsSince(s.log) >= 2)
            && (|next.log| > |s.log| && next.log[|s.log|].kind == Control ==> s.pongs == [])
  {
    hide ControlsSince;
    CounterHolds(actions);
    RunAppend(START, actions, [Turn(outcome)]);
    assert Run(Run(START, actions), [Turn(outcome)]) == Step(Run(START, actions), Turn(outcome));
  }

  /** With no pongs, a waiting control message is the next that is written, or dropped as
      not serializable; at most one frame goes before it, and only after two control
      messages in a row. That takes five turns, which is two passes of the loop. */
  lemma {:induction false} ControlIsWritten(s: State, actions: seq<Action>)
    requires s.running && s.controls != [] && s.pongs == [] && NoPongs(actions) && Turns(actions) >= ControlAway(s)
    ensures var log, n := Run(s, actions).log, |s.log|;
            || WritesAt(log, n, Control, s.controls[0])
            || (s.burst >= 2 && s.phase != Select && IsFrameAt(log, n) && WritesAt(log, n + 1, Control, s.controls[0]))
    decreases |actions|
  {
    hide Step, ControlAway;
    assert actions != [] by { ControlAwayIsPositive(s); }
    var next := Step(s, actions[0]);
    LogGrows(next, actions[1..]);
    assert NoPongs([actions[0]]);
    NearControl(s, actions[0]);
    assert Run(s, actions) == Run(next, actions[1..]);
    if WritesAt(next.log, |s.log|, Control, s.controls[0]) {
      assert next.log[|s.log|] == Run(s, actions).log[|s.log|];
    } else {
      ControlIsWritten(next, actions[1..]);
    }
  }

  /** The turns that a waiting control message is away from being taken, at most. */
  function ControlAway(s: State): nat
  {
    match s.phase
    case PollPong => if s.burst >= 2 then 5 else 3
    case CheckBurst => if s.burst >= 2 then 4 else 2
    case Select => 1
  }

  lemma {:induction false} ControlAwayIsPositive(s: State)
    ensures 0 < ControlAway(s) <= 5
  {
  }

  lemma {:induction false} NearControl(s: State, a: Action)
    requires s.running && s.controls != [] && s.pongs == [] && NoPongs([a])
    ensures var next := Step(s, a);
            || WritesAt(next.log, |s.log|, Control, s.controls[0])
            || (&& next.running && next.controls != [] && next.controls[0] == s.controls[0] && next.pongs == []
                && ControlAway(next) + (if a.Turn? then 1 else 0) <= ControlAway(s)
                && ((next.log == s.log && next.burst == s.burst && (s.phase == Select ==> next.phase == Select))
                    || (|next.log| == |s.log| + 1 && s.log <= next.log && IsFrameAt(next.log, |s.log|)
                        && next.burst == 0 && s.burst >= 2 && s.phase != Select)))
  {
    assert [a][0] == a;
  }

  // ---- the end ------------------------------------------------------------------------------------

  /** How a write ends is how its entry says: a broken one ends the task and no other does,
      and only a control message is dropped as not serializable. */
  lemma WriteEnds(s: State, outcome: Outcome)
    requires s.running
    ensures var next := Step(s, Turn(outcome));
            |next.log| > |s.log| ==>
              var e := next.log[|s.log|];
              && (outcome == Broken <==> e.outcome == Broken) && (outcome == Broken <==> !next.running)
              && (outcome == Unserializable && e.kind == Control <==> e.outcome == Unserializable)
  {
  }

  function Waiting(s: State): nat { |s.pongs| + |s.controls| + |s.binaries| }

  /** The turns until a task whose senders are gone has written all and stops, at most. */
  function TurnsLeft(s: State): nat
  {
    if !s.running then 0
    else 3 * Waiting(s) + match s.phase case PollPong => 3 case CheckBurst => 2 case Select => 1
  }

  lemma {:induction false} NearEnd(s: State, a: Action)
    requires s.closed && !(a.Turn? && a.outcome == Broken)
    ensures var next := Step(s, a);
            next.closed && (TurnsLeft(next) + (if a.Turn? then 1 else 0) <= TurnsLeft(s) || TurnsLeft(next) == 0)
  {
  }

  lemma {:induction false} ClosedEnds(s: State, actions: seq<Action>)
    requires s.closed && NoneBreaks(actions) && Turns(actions) >= TurnsLeft(s)
    ensures !Run(s, actions).running
    decreases |actions|
  {
    hide Step, Waiting;
    if actions != [] {
      NearEnd(s, actions[0]);
      if !Step(s, actions[0]).running {
        StaysStopped(Step(s, actions[0]), actions[1..]);
      } else {
        ClosedEnds(Step(s, actions[0]), actions[1..]);
      }
    }
  }

  lemma {:induction false} StaysStopped(s: State, actions: seq<Action>)
    requires !s.running
    ensures Run(s, actions) == s
    decreases |actions|
  {
    if actions != [] {
      StaysStopped(s, actions[1..]);
    }
  }

  /** Once all senders are gone and if no write breaks, the task ends within three turns for
      each waiting message and three more, and has taken everything that got in. */
  lemma {:induction false} EndsAfterHangUp(before: seq<Action>, after: seq<Action>)
    requires Run(START, before).running && NoneBreaks(before) && NoneBreaks(after)
    requires Turns(after) >= 3 * Waiting(Run(START, before)) + 3
    ensures var s, end := Run(START, before), Run(START, before + [HangUp] + after);
            && !end.running
            && forall kind: Kind :: Taken(end.log, kind) == Taken(s.log, kind) + Queue(s, kind)
  {
    hide Run, Step, Taken, Turns;
    var s := Run(START, before);
    var hungUp := Run(START, before + [HangUp]);
    HangsUp(before);
    RunAppend(START, before + [HangUp], after);
    ClosedEnds(hungUp, after);
    var end := Run(hungUp, after);
    RunKeepsLogSound(START, before + [HangUp] + after);
    NoneBroke(START, before + [HangUp] + after);
    forall kind: Kind ensures Taken(end.log, kind) == Taken(s.log, kind) + Queue(s, kind) {
      RunConserves(hungUp, after, kind);
      NoneAccepted(hungUp, after, kind);
      assert Queue(end, kind) == [];
      assert Taken(end.log, kind) + [] == Taken(end.log, kind);
      assert Taken(s.log, kind) + Queue(s, kind) + [] == Taken(s.log, kind) + Queue(s, kind);
    }
  }

  lemma {:induction false} HangsUp(before: seq<Action>)
    requires Run(START, before).running
    ensures Run(START, before + [HangUp]) == Run(START, before).(closed := true)
  {
    RunAppend(START, before, [HangUp]);
    assert Run(Run(START, before), [HangUp]) == Step(Run(START, before), HangUp);
  }

  lemma {:induction false} NoneAccepted(s: State, actions: seq<Action>, kind: Kind)
    requires s.closed
    ensures Accepted(s, actions, kind) == []
    decreases |actions|
  {
    if actions != [] {
      NoneAccepted(Step(s, actions[0]), actions[1..], kind);
    }
  }

  lemma {:induction false} NoneBroke(s: State, actions: seq<Action>)
    requires NoneBreaks(actions) && forall k :: 0 <= k < |s.log| ==> s.log[k].outcome != Broken
    ensures forall k :: 0 <= k < |Run(s, actions).log| ==> Run(s, actions).log[k].outcome != Broken
    decreases |actions|
  {
    hide Choice;
    if actions != [] {
      NoneBroke(Step(s, actions[0]), actions[1..]);
    }
  }
}
