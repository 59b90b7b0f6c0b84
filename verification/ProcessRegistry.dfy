/** The three maps of crates/agent/src/tools/process_registry.rs: running processes by
    internal id, pids by tool call, and the call of each id. */
module ProcessRegistry {
  import opened Wrappers

  type Pid = nat

  datatype Tables = Tables(active: map<nat, Pid>, calls: map<string, seq<Pid>>, callOf: map<nat, string>)

  function Without(pids: seq<Pid>, pid: Pid): seq<Pid>
  {
    if pids == [] then []
    else (if pids[0] != pid then [pids[0]] else []) + Without(pids[1..], pid)
  }

  function Registered(t: Tables, call: string, id: nat, pid: Pid): Tables
  {
    var active := t.active[id := pid];
    if call == "" then t.(active := active)
    else
      Tables(active,
             t.calls[call := (if call in t.calls then t.calls[call] else []) + [pid]],
             t.callOf[id := call])
  }

  function Unregistered(t: Tables, id: nat): Tables
  {
    var active, callOf := t.active - {id}, t.callOf - {id};
    if id in t.callOf && id in t.active && t.callOf[id] in t.calls then
      var call := t.callOf[id];
      var pids := Without(t.calls[call], t.active[id]);
      Tables(active, if pids == [] then t.calls - {call} else t.calls[call := pids], callOf)
    else t.(active := active, callOf := callOf)
  }

  /** The tables once a call's processes were taken out, and the pids to kill. */
  function CallKilled(t: Tables, call: string): (Tables, seq<Pid>)
  {
    var pids := if call in t.calls then t.calls[call] else [];
    var calls := t.calls - {call};
    if pids == [] then (t.(calls := calls), [])
    else
      (Tables(map id | id in t.active && t.active[id] !in pids :: t.active[id],
              calls,
              map id | id in t.callOf && t.callOf[id] != call :: t.callOf[id]),
       pids)
  }

  class ProcessRegistry {
    var activeProcesses: map<nat, Pid>
    var callProcesses: map<string, seq<Pid>>
    var procCallMap: map<nat, string>

    function State(): Tables
      reads this
    {
      Tables(activeProcesses, callProcesses, procCallMap)
    }

    constructor ()
      ensures State() == Tables(map[], map[], map[])
    {
      activeProcesses, callProcesses, procCallMap := map[], map[], map[];
    }

    method RegisterProcess(id: nat, pid: Pid)
      modifies this
      ensures State() == Registered(old(State()), "", id, pid)
    {
      activeProcesses := activeProcesses[id := pid];
    }

    method RegisterProcessWithCall(call: string, id: nat, pid: Pid)
      modifies this
      ensures State() == Registered(old(State()), call, id, pid)
    {
      RegisterProcess(id, pid);
      if call != "" {
        var pids := if call in callProcesses then callProcesses[call] else [];
        callProcesses := callProcesses[call := pids + [pid]];
        procCallMap := procCallMap[id := call];
      }
    }

    method UnregisterProcess(id: nat)
      modifies this
      ensures State() == Unregistered(old(State()), id)
    {
      var pid := if id in activeProcesses then Some(activeProcesses[id]) else None;
      activeProcesses := activeProcesses - {id};
      if id in procCallMap {
        var call := procCallMap[id];
        procCallMap := procCallMap - {id};
        if pid.Some? && call in callProcesses {
          var pids := Without(callProcesses[call], pid.value);
          callProcesses := if pids == [] then callProcesses - {call} else callProcesses[call := pids];
        }
      } else {
        assert procCallMap - {id} == procCallMap;
      }
    }

    /** Returns the pids whose process trees are then killed. */
    method KillCallProcesses(call: string) returns (targets: seq<Pid>)
      modifies this
      ensures (State(), targets) == CallKilled(old(State()), call)
    {
      targets := if call in callProcesses then callProcesses[call] else [];
      callProcesses := callProcesses - {call};
      if targets == [] {
        return;
      }
      activeProcesses := map id | id in activeProcesses && activeProcesses[id] !in targets :: activeProcesses[id];
      procCallMap := map id | id in procCallMap && procCallMap[id] != call :: procCallMap[id];
    }

    method KillAllActive() returns (targets: set<Pid>)
      modifies this
      ensures State() == Tables(map[], map[], map[])
      ensures targets == old(activeProcesses).Values
    {
      targets := activeProcesses.Values;
      activeProcesses, callProcesses, procCallMap := map[], map[], map[];
    }
  }

  // ---- the three maps stay in step --------------------------------------------------------

  ghost predicate Listed(t: Tables, call: string, pid: Pid) { call in t.calls && pid in t.calls[call] }

  ghost predicate Owns(t: Tables, call: string, id: nat, pid: Pid)
  {
    id in t.callOf && t.callOf[id] == call && id in t.active && t.active[id] == pid
  }

  /** No two ids share a pid; a call lists exactly the pids of its own running ids, each
      once, and is absent when there are none. */
  ghost predicate InStep(t: Tables)
  {
    && (forall a, b :: a in t.active && b in t.active && a != b ==> t.active[a] != t.active[b])
    && t.callOf.Keys <= t.active.Keys
    && (forall call :: call in t.calls ==> t.calls[call] != [] && NoDuplicates(t.calls[call]))
    && (forall call, pid :: Listed(t, call, pid) ==> exists id :: Owns(t, call, id, pid))
    && (forall call, id, pid :: Owns(t, call, id, pid) ==> Listed(t, call, pid))
  }

  /** No registered process has this pid. The system may give a pid out again before the
      process that had it is unregistered. */
  ghost predicate Unused(t: Tables, pid: Pid)
  {
    forall a :: a in t.active ==> t.active[a] != pid
  }

  lemma {:induction false} WithoutElements(pids: seq<Pid>, pid: Pid)
    ensures forall p :: p in Without(pids, pid) <==> p in pids && p != pid
  {
    if pids != [] {
      WithoutElements(pids[1..], pid);
      assert pids == [pids[0]] + pids[1..];
    }
  }

  lemma {:induction false} NoDuplicatesCons(first: Pid, rest: seq<Pid>)
    ensures NoDuplicates([first] + rest) <==> NoDuplicates(rest) && first !in rest
  {
    var pids := [first] + rest;
    assert forall k :: 0 <= k < |rest| ==> rest[k] == pids[k + 1] && rest[k] in rest;
    if NoDuplicates(pids) {
      forall k | 0 <= k < |rest| ensures rest[k] != first {
        assert pids[0] != pids[k + 1];
      }
      forall i, j | 0 <= i < j < |rest| ensures rest[i] != rest[j] {
        assert pids[i + 1] != pids[j + 1];
      }
    }
    if NoDuplicates(rest) && first !in rest {
      forall i, j | 0 <= i < j < |pids| ensures pids[i] != pids[j] {
        assert pids[j] == rest[j - 1];
        assert i > 0 ==> pids[i] == rest[i - 1];
      }
    }
  }

  lemma {:induction false} WithoutKeepsDistinct(pids: seq<Pid>, pid: Pid)
    requires NoDuplicates(pids)
    ensures NoDuplicates(Without(pids, pid))
  {
    hide NoDuplicates;
    if pids != [] {
      assert pids == [pids[0]] + pids[1..];
      NoDuplicatesCons(pids[0], pids[1..]);
      WithoutKeepsDistinct(pids[1..], pid);
      WithoutElements(pids[1..], pid);
      NoDuplicatesCons(pids[0], Without(pids[1..], pid));
      assert [] + Without(pids[1..], pid) == Without(pids[1..], pid);
    } else {
      assert NoDuplicates<Pid>([]) by { NoneDuplicate(); }
    }
  }

  lemma {:induction false} NoneDuplicate()
    ensures NoDuplicates<Pid>([])
  {
  }

  lemma {:induction false} SnocKeepsDistinct(pids: seq<Pid>, pid: Pid)
    requires NoDuplicates(pids) && pid !in pids
    ensures NoDuplicates(pids + [pid])
  {
    assert forall k :: 0 <= k < |pids| ==> (pids + [pid])[k] == pids[k] && pids[k] in pids;
  }

  lemma {:induction false} WithoutAbsent(pids: seq<Pid>, pid: Pid)
    requires pid !in pids
    ensures Without(pids, pid) == pids
    ensures Without(pids + [pid], pid) == pids
  {
    if pids == [] {
      assert [pid][1..] == [];
    } else {
      assert (pids + [pid])[1..] == pids[1..] + [pid];
      WithoutAbsent(pids[1..], pid);
    }
  }

  lemma {:induction false} Undone(t: Tables, call: string, id: nat, pid: Pid)
    requires id !in t.active && id !in t.callOf
    requires call != "" && call in t.calls ==> t.calls[call] != [] && pid !in t.calls[call]
    ensures Unregistered(Registered(t, call, id, pid), id) == t
  {
    hide Without;
    var r := Registered(t, call, id, pid);
    assert r.active - {id} == t.active;
    assert r.callOf - {id} == t.callOf;
    if call != "" {
      var pids := if call in t.calls then t.calls[call] else [];
      WithoutAbsent(pids, pid);
      if call in t.calls {
        assert r.calls[call := pids] == t.calls;
      } else {
        assert r.calls - {call} == t.calls;
      }
    }
  }

  lemma {:induction false} NotUndone(t: Tables, call: string, id: nat, pid: Pid)
    requires call != "" && Listed(t, call, pid)
    ensures !Listed(Unregistered(Registered(t, call, id, pid), id), call, pid)
  {
    hide Without;
    WithoutElements(t.calls[call] + [pid], pid);
  }

  /** Unregistering a process undoes its registration exactly when the call did not list
      the pid before: otherwise both listings go. */
  lemma {:induction false} UnregisterUndoesRegister(t: Tables, call: string, id: nat, pid: Pid)
    requires InStep(t) && id !in t.active
    ensures Unregistered(Registered(t, call, id, pid), id) == t <==> call == "" || !Listed(t, call, pid)
  {
    hide Unregistered, Registered, NoDuplicates;
    if call == "" || !Listed(t, call, pid) {
      Undone(t, call, id, pid);
    } else {
      NotUndone(t, call, id, pid);
    }
  }

  /** Registering a process under a new id keeps the maps in step exactly when its pid is
      not still registered under another. */
  lemma {:induction false} RegisterKeepsInStep(t: Tables, call: string, id: nat, pid: Pid)
    requires InStep(t) && id !in t.active
    ensures InStep(Registered(t, call, id, pid)) <==> Unused(t, pid)
  {
    hide NoDuplicates;
    if Unused(t, pid) {
      RegisterUnused(t, call, id, pid);
    } else {
      var a :| a in t.active && t.active[a] == pid;
      var r := Registered(t, call, id, pid);
      assert a in r.active && a != id && r.active[a] == r.active[id];
    }
  }

  lemma {:induction false} RegisterUnused(t: Tables, call: string, id: nat, pid: Pid)
    requires InStep(t) && id !in t.active && Unused(t, pid)
    ensures InStep(Registered(t, call, id, pid))
  {
    hide NoDuplicates;
    var r := Registered(t, call, id, pid);
    RegisterLists(t, call, id, pid);
    if call != "" {
      var pids := if call in t.calls then t.calls[call] else [];
      assert !Listed(t, call, pid);
      NoneDuplicate();
      SnocKeepsDistinct(pids, pid);
    }
  }

  lemma {:induction false} RegisterLists(t: Tables, call: string, id: nat, pid: Pid)
    requires InStep(t) && id !in t.active && Unused(t, pid)
    ensures var r := Registered(t, call, id, pid);
            && (forall c, p :: Listed(r, c, p) ==> exists i :: Owns(r, c, i, p))
            && (forall c, i, p :: Owns(r, c, i, p) ==> Listed(r, c, p))
  {
    hide NoDuplicates;
    var r := Registered(t, call, id, pid);
    forall c, p | Listed(r, c, p) ensures exists i :: Owns(r, c, i, p) {
      if call != "" && c == call && p == pid {
        assert Owns(r, c, id, pid);
      } else {
        assert Listed(t, c, p);
        var i :| Owns(t, c, i, p);
        assert Owns(r, c, i, p);
      }
    }
    forall c, i, p | Owns(r, c, i, p) ensures Listed(r, c, p) {
      if i != id {
        assert Owns(t, c, i, p);
        assert Listed(t, c, p);
      }
    }
  }

  lemma {:induction false} UnregisterKeepsInStep(t: Tables, id: nat)
    requires InStep(t)
    ensures InStep(Unregistered(t, id))
  {
    hide NoDuplicates, Without;
    var r := Unregistered(t, id);
    if id in t.callOf {
      var call, pid := t.callOf[id], t.active[id];
      assert Owns(t, call, id, pid);
      assert Listed(t, call, pid);
      WithoutElements(t.calls[call], pid);
      WithoutKeepsDistinct(t.calls[call], pid);
    }
    forall c, p | Listed(r, c, p) ensures exists i :: Owns(r, c, i, p) {
      assert Listed(t, c, p);
      var i :| Owns(t, c, i, p);
      assert Owns(r, c, i, p);
    }
    forall c, i, p | Owns(r, c, i, p) ensures Listed(r, c, p) {
      assert Owns(t, c, i, p);
      assert Listed(t, c, p);
    }
  }

  /** Killing a call targets exactly the pids of its running processes, each once, takes
      exactly those out, and leaves the others as they were. */
  lemma {:induction false} KillTargetsTheCall(t: Tables, call: string)
    requires InStep(t)
    ensures var (r, targets) := CallKilled(t, call);
            && NoDuplicates(targets)
            && (forall pid :: pid in targets <==> exists id :: Owns(t, call, id, pid))
            && (forall id :: id in r.active <==> id in t.active && !(id in t.callOf && t.callOf[id] == call))
            && (forall id :: id in r.active ==> r.active[id] == t.active[id])
            && (forall id :: id in r.active ==> (id in r.callOf <==> id in t.callOf))
            && InStep(r)
  {
    hide NoDuplicates;
    var (r, targets) := CallKilled(t, call);
    NoneDuplicate();
    forall pid ensures pid in targets <==> exists id :: Owns(t, call, id, pid) {
      assert pid in targets <==> Listed(t, call, pid);
    }
    forall id | id in t.active ensures id in r.active <==> !(id in t.callOf && t.callOf[id] == call) {
      if id in t.callOf && t.callOf[id] == call {
        assert Owns(t, call, id, t.active[id]);
      } else {
        assert !Listed(t, call, t.active[id]);
      }
    }
    KillKeepsInStep(t, call);
  }

  lemma {:induction false} KillKeepsInStep(t: Tables, call: string)
    requires InStep(t)
    ensures InStep(CallKilled(t, call).0)
  {
    hide NoDuplicates;
    var (r, targets) := CallKilled(t, call);
    forall id | id in r.callOf ensures id in r.active {
      assert t.callOf[id] != call && targets != [] ==> !Listed(t, call, t.active[id]);
    }
    forall c, p | Listed(r, c, p) ensures exists i :: Owns(r, c, i, p) {
      assert Listed(t, c, p);
      var i :| Owns(t, c, i, p);
      assert Owns(r, c, i, p);
    }
    forall c, i, p | Owns(r, c, i, p) ensures Listed(r, c, p) {
      assert Owns(t, c, i, p);
      assert Listed(t, c, p);
    }
  }

  /** A registration adds one process and its owner, and leaves all others as they were. */
  lemma {:induction false} OwnersAfterRegister(t: Tables, call: string, id: nat, pid: Pid)
    requires InStep(t) && id !in t.active
    ensures var r := Registered(t, call, id, pid);
            && r.active == t.active[id := pid]
            && forall c, i, p :: Owns(r, c, i, p) <==>
                 Owns(t, c, i, p) || (c == call && c != "" && i == id && p == pid)
  {
    hide Listed;
    assert id !in t.callOf;
  }

  /** Unregistering an id takes that process and its owner away, and no other. */
  lemma {:induction false} OwnersAfterUnregister(t: Tables, id: nat)
    ensures var r := Unregistered(t, id);
            && r.active == t.active - {id}
            && forall c, i, p :: Owns(r, c, i, p) <==> Owns(t, c, i, p) && i != id
  {
    hide Without;
  }

  /** Killing a call takes all its processes away, and none of another call. */
  lemma {:induction false} OwnersAfterKill(t: Tables, call: string)
    requires InStep(t)
    ensures var r := CallKilled(t, call).0;
            forall c, i, p :: Owns(r, c, i, p) <==> Owns(t, c, i, p) && c != call
  {
    hide InStep;
    KillTargetsTheCall(t, call);
    var r := CallKilled(t, call).0;
    forall c, i, p ensures Owns(r, c, i, p) <==> Owns(t, c, i, p) && c != call {
      assert Owns(t, c, i, p) && c == call ==> p in CallKilled(t, call).1;
    }
  }
}
