/** Finding a process and all its descendants in a snapshot of the process table:
    the worklist of `kill_process_tree` in crates/agent/src/tools/process_registry.rs. */
module ProcessTree {
  import opened Wrappers

  type Pid = nat

  /** One entry of the table; the table is a sequence in whatever order it is walked. */
  datatype Process = Process(pid: Pid, parent: Option<Pid>)

  predicate IsChild(table: seq<Process>, parent: Pid, child: Pid)
  {
    exists k :: 0 <= k < |table| && table[k] == Process(child, Some(parent))
  }

  /** A chain of parents from `root` down to `p`. Pids can be reused, so nothing keeps
      the table from holding cycles. */
  ghost predicate IsPath(table: seq<Process>, path: seq<Pid>)
  {
    path != [] && forall k :: 0 <= k < |path| - 1 ==> IsChild(table, path[k], path[k + 1])
  }

  ghost predicate Descends(table: seq<Process>, root: Pid, p: Pid)
  {
    exists path: seq<Pid> :: IsPath(table, path) && path[0] == root && path[|path| - 1] == p
  }

  predicate Holds(pids: seq<Pid>, p: Pid) { exists k :: 0 <= k < |pids| && pids[k] == p }

  ghost function Universe(table: seq<Process>, root: Pid): set<Pid>
  {
    {root} + set k | 0 <= k < |table| :: table[k].pid
  }

  ghost function Elements(pids: seq<Pid>): set<Pid> { set k | 0 <= k < |pids| :: pids[k] }

  lemma {:induction false} LastIsNew(rest: seq<Pid>, last: Pid)
    requires NoDuplicates(rest + [last])
    ensures NoDuplicates(rest) && last !in Elements(rest)
    ensures Elements(rest + [last]) == Elements(rest) + {last}
  {
    var pids := rest + [last];
    assert forall k :: 0 <= k < |rest| ==> pids[k] == rest[k];
    assert pids[|rest|] == last;
    forall p ensures p in Elements(pids) <==> p in Elements(rest) + {last} {
      if p in Elements(rest) {
        var k :| 0 <= k < |rest| && rest[k] == p;
        assert pids[k] == p;
      }
    }
  }

  lemma {:induction false} DistinctCount(pids: seq<Pid>)
    requires NoDuplicates(pids)
    ensures |Elements(pids)| == |pids|
  {
    hide NoDuplicates;
    if pids == [] {
      assert Elements(pids) == {};
    } else {
      hide Elements;
      var rest, last := pids[..|pids| - 1], pids[|pids| - 1];
      assert pids == rest + [last];
      LastIsNew(rest, last);
      DistinctCount(rest);
    }
  }

  /** So a list of different pids of the table is never longer than the table allows. */
  lemma {:induction false} FitsUniverse(table: seq<Process>, root: Pid, pids: seq<Pid>)
    requires NoDuplicates(pids)
    requires forall k :: 0 <= k < |pids| ==> pids[k] in Universe(table, root)
    ensures |pids| <= |Universe(table, root)|
  {
    DistinctCount(pids);
    assert Elements(pids) <= Universe(table, root);
    SubsetSize(Elements(pids), Universe(table, root));
  }

  lemma {:induction false} SubsetSize(a: set<Pid>, b: set<Pid>)
    requires a <= b
    ensures |a| <= |b|
  {
    assert b == a + (b - a);
  }

  lemma {:induction false} RootDescends(table: seq<Process>, root: Pid)
    ensures Descends(table, root, root)
  {
    assert IsPath(table, [root]);
  }

  lemma {:induction false} ChildDescends(table: seq<Process>, root: Pid, p: Pid, child: Pid)
    requires Descends(table, root, p) && IsChild(table, p, child)
    ensures Descends(table, root, child)
  {
    hide IsChild;
    var path: seq<Pid> :| IsPath(table, path) && path[0] == root && path[|path| - 1] == p;
    var longer := path + [child];
    forall k | 0 <= k < |longer| - 1 ensures IsChild(table, longer[k], longer[k + 1]) {
      if k < |path| - 1 {
        assert longer[k] == path[k] && longer[k + 1] == path[k + 1];
      }
    }
    assert IsPath(table, longer);
  }

  /** The processes of the list up to `done` have all their children in it. */
  ghost predicate ClosedUpTo(table: seq<Process>, pids: seq<Pid>, done: nat)
  {
    forall i, child :: 0 <= i < done && i < |pids| && IsChild(table, pids[i], child) ==> Holds(pids, child)
  }

  lemma {:induction false} ClosedHoldsAll(table: seq<Process>, root: Pid, pids: seq<Pid>, p: Pid)
    requires ClosedUpTo(table, pids, |pids|) && Holds(pids, root) && Descends(table, root, p)
    ensures Holds(pids, p)
  {
    hide Holds, IsChild;
    var path: seq<Pid> :| IsPath(table, path) && path[0] == root && path[|path| - 1] == p;
    PathInside(table, pids, path, |path| - 1);
  }

  lemma {:induction false} PathInside(table: seq<Process>, pids: seq<Pid>, path: seq<Pid>, k: nat)
    requires ClosedUpTo(table, pids, |pids|) && IsPath(table, path) && Holds(pids, path[0]) && k < |path|
    ensures Holds(pids, path[k])
  {
    hide IsChild;
    if k > 0 {
      PathInside(table, pids, path, k - 1);
      var i :| 0 <= i < |pids| && pids[i] == path[k - 1];
      assert IsChild(table, pids[i], path[k]);
    }
  }

  /** What the list holds at any time: different pids, all descendants of the root. */
  ghost predicate Sound(table: seq<Process>, root: Pid, pids: seq<Pid>)
  {
    && pids != [] && pids[0] == root
    && NoDuplicates(pids)
    && forall k :: 0 <= k < |pids| ==> pids[k] in Universe(table, root) && Descends(table, root, pids[k])
  }

  lemma {:induction false} Extend(table: seq<Process>, root: Pid, pids: seq<Pid>, i: nat, k: nat)
    requires Sound(table, root, pids) && i < |pids| && k < |table|
    requires table[k].parent == Some(pids[i]) && !Holds(pids, table[k].pid)
    ensures Sound(table, root, pids + [table[k].pid])
  {
    hide Descends;
    assert table[k] == Process(table[k].pid, Some(pids[i]));
    ChildDescends(table, root, pids[i], table[k].pid);
  }

  lemma {:induction false} HoldsMore(pids: seq<Pid>, p: Pid)
    ensures Holds(pids + [p], p)
    ensures forall q :: Holds(pids, q) ==> Holds(pids + [p], q)
  {
    assert (pids + [p])[|pids|] == p;
    forall q | Holds(pids, q) ensures Holds(pids + [p], q) {
      var k :| 0 <= k < |pids| && pids[k] == q;
      assert (pids + [p])[k] == q;
    }
  }

  /** The children of `parent` among the first n entries of the table are in the list. */
  ghost predicate ChildrenHeld(table: seq<Process>, pids: seq<Pid>, parent: Pid, n: nat)
  {
    forall k :: 0 <= k < n && k < |table| && table[k].parent == Some(parent) ==> Holds(pids, table[k].pid)
  }

  /** The worklist ends, holds no pid twice, and is exactly the process tree of the root,
      whatever the order of the table and even when parent links form cycles. */
  method ProcessesToKill(table: seq<Process>, root: Pid) returns (toKill: seq<Pid>)
    ensures NoDuplicates(toKill)
    ensures forall p :: Holds(toKill, p) <==> Descends(table, root, p)
    ensures toKill != [] && toKill[0] == root
  {
    hide Holds, Descends, IsChild, ClosedUpTo, ChildrenHeld, Universe;
    toKill := [root];
    Start(table, root);
    var i := 0;
    while i < |toKill|
      invariant 0 <= i <= |toKill| && Sound(table, root, toKill) && ClosedUpTo(table, toKill, i)
      invariant |toKill| <= |Universe(table, root)|
      decreases |Universe(table, root)| - i
    {
      var target := toKill[i];
      var k := 0;
      NoChildrenYet(table, toKill, target);
      while k < |table|
        invariant 0 <= k <= |table| && i < |toKill| && toKill[i] == target
        invariant Sound(table, root, toKill) && ClosedUpTo(table, toKill, i)
        invariant ChildrenHeld(table, toKill, target, k)
      {
        var p := table[k];
        if p.parent.Some? && p.parent.value == target && !Holds(toKill, p.pid) {
          Extend(table, root, toKill, i, k);
          KeepsClosed(table, toKill, p.pid, i, target, k);
          toKill := toKill + [p.pid];
        }
        NextChild(table, toKill, target, k);
        k := k + 1;
      }
      Closes(table, toKill, i);
      FitsUniverse(table, root, toKill);
      i := i + 1;
    }
    forall p ensures Holds(toKill, p) <==> Descends(table, root, p) {
      if Descends(table, root, p) {
        RootHeld(toKill);
        ClosedHoldsAll(table, root, toKill, p);
      }
      if Holds(toKill, p) {
        HeldDescends(table, root, toKill, p);
      }
    }
  }

  lemma {:induction false} Start(table: seq<Process>, root: Pid)
    ensures Sound(table, root, [root]) && ClosedUpTo(table, [root], 0)
    ensures 1 <= |Universe(table, root)|
  {
    RootDescends(table, root);
    FitsUniverse(table, root, [root]);
  }

  lemma {:induction false} NoChildrenYet(table: seq<Process>, pids: seq<Pid>, parent: Pid)
    ensures ChildrenHeld(table, pids, parent, 0)
  {
  }

  lemma {:induction false} KeepsClosed(table: seq<Process>, pids: seq<Pid>, p: Pid, done: nat, parent: Pid, n: nat)
    requires ClosedUpTo(table, pids, done) && done < |pids| && ChildrenHeld(table, pids, parent, n)
    ensures ClosedUpTo(table, pids + [p], done) && ChildrenHeld(table, pids + [p], parent, n)
    ensures Holds(pids + [p], p)
  {
    hide Holds, IsChild;
    HoldsMore(pids, p);
  }

  lemma {:induction false} NextChild(table: seq<Process>, pids: seq<Pid>, parent: Pid, k: nat)
    requires k < |table| && ChildrenHeld(table, pids, parent, k)
    requires table[k].parent == Some(parent) ==> Holds(pids, table[k].pid)
    ensures ChildrenHeld(table, pids, parent, k + 1)
  {
    hide Holds;
  }

  lemma {:induction false} Closes(table: seq<Process>, pids: seq<Pid>, i: nat)
    requires ClosedUpTo(table, pids, i) && i < |pids| && ChildrenHeld(table, pids, pids[i], |table|)
    ensures ClosedUpTo(table, pids, i + 1)
  {
    hide Holds;
    forall child | IsChild(table, pids[i], child) ensures Holds(pids, child) {
      var k :| 0 <= k < |table| && table[k] == Process(child, Some(pids[i]));
      assert table[k].parent == Some(pids[i]);
    }
  }

  lemma {:induction false} RootHeld(pids: seq<Pid>)
    requires pids != []
    ensures Holds(pids, pids[0])
  {
  }

  lemma {:induction false} HeldDescends(table: seq<Process>, root: Pid, pids: seq<Pid>, p: Pid)
    requires Sound(table, root, pids) && Holds(pids, p)
    ensures Descends(table, root, p)
  {
    hide Descends;
  }
}
