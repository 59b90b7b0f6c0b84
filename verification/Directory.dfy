/** The walk of `search_files` in crates/agent/src/tools/directory.rs: an explicit stack
    of directories, down to a depth limit, until enough matches are found. */
module Directory {
  import opened Wrappers
  import opened Wildcard

  /** An entry with its name and the lower-cased name that is matched; a directory with
      what reading it yields, which is nothing when it cannot be read. */
  datatype Item = File(name: string, lower: string) | Folder(name: string, lower: string, items: seq<Item>)

  datatype Base = Missing | NotADirectory | Directory(items: seq<Item>)

  datatype Result<+T> = Ok(value: T) | Err(error: string)

  datatype Pending = Pending(items: seq<Item>, depth: nat)

  function Clamp(n: nat, low: nat, high: nat): nat { if n < low then low else if n > high then high else n }

  // ---- every entry within the depth limit ------------------------------------------------

  function Push(item: Item, depth: nat, maxDepth: nat): seq<Pending>
  {
    if item.Folder? && depth < maxDepth then [Pending(item.items, depth + 1)] else []
  }

  /** The directories that `items`, found at `depth`, put on the stack. */
  function Pushed(items: seq<Item>, depth: nat, maxDepth: nat): seq<Pending>
  {
    if items == [] then []
    else
      Push(items[0], depth, maxDepth) + Pushed(items[1..], depth, maxDepth)
  }

  function Size(items: seq<Item>): nat
  {
    if items == [] then 0
    else 1 + (if items[0].Folder? then Size(items[0].items) else 0) + Size(items[1..])
  }

  function StackSize(stack: seq<Pending>): nat
  {
    if stack == [] then 0 else 1 + Size(stack[0].items) + StackSize(stack[1..])
  }

  lemma {:induction false} StackSizeAppend(a: seq<Pending>, b: seq<Pending>)
    ensures StackSize(a + b) == StackSize(a) + StackSize(b)
  {
    if a == [] {
      assert a + b == b;
    } else {
      assert (a + b)[1..] == a[1..] + b;
      StackSizeAppend(a[1..], b);
    }
  }

  lemma {:induction false} PushedSize(items: seq<Item>, depth: nat, maxDepth: nat)
    ensures StackSize(Pushed(items, depth, maxDepth)) <= Size(items)
  {
    if items != [] {
      PushedSize(items[1..], depth, maxDepth);
      var head := Push(items[0], depth, maxDepth);
      StackSizeAppend(head, Pushed(items[1..], depth, maxDepth));
      assert head != [] ==> head[1..] == [];
    }
  }

  lemma {:induction false} PopShrinks(stack: seq<Pending>, maxDepth: nat)
    requires stack != []
    ensures StackSize(Popped(stack, maxDepth)) < StackSize(stack)
  {
    var rest, top := stack[..|stack| - 1], stack[|stack| - 1];
    PushedSize(top.items, top.depth, maxDepth);
    StackSizeAppend(rest, Pushed(top.items, top.depth, maxDepth));
    assert stack == rest + [top];
    StackSizeAppend(rest, [top]);
    assert [top][1..] == [];
  }

  function Popped(stack: seq<Pending>, maxDepth: nat): seq<Pending>
    requires stack != []
  {
    stack[..|stack| - 1] + Pushed(stack[|stack| - 1].items, stack[|stack| - 1].depth, maxDepth)
  }

  /** The entries in the order the walk comes to them: the directory on top of the stack
      in full, then what it pushed, last first. */
  function Visited(stack: seq<Pending>, maxDepth: nat): seq<Item>
    decreases StackSize(stack)
  {
    if stack == [] then []
    else
      PopShrinks(stack, maxDepth);
      stack[|stack| - 1].items + Visited(Popped(stack, maxDepth), maxDepth)
  }

  ghost function Hits(items: seq<Item>, pattern: string): seq<Item>
  {
    if items == [] then []
    else Hit(items[0], pattern) + Hits(items[1..], pattern)
  }

  ghost function Hit(item: Item, pattern: string): seq<Item>
  {
    if Matches(pattern, item.lower) then [item] else []
  }

  lemma {:induction false} HitsAppend(a: seq<Item>, b: seq<Item>, pattern: string)
    ensures Hits(a + b, pattern) == Hits(a, pattern) + Hits(b, pattern)
  {
    hide Hit;
    if a == [] {
      assert a + b == b;
    } else {
      assert (a + b)[1..] == a[1..] + b && (a + b)[0] == a[0];
      HitsAppend(a[1..], b, pattern);
      Regroup(Hit(a[0], pattern), Hits(a[1..], pattern), Hits(b, pattern));
    }
  }

  lemma {:induction false} PushedAppend(a: seq<Item>, b: seq<Item>, depth: nat, maxDepth: nat)
    ensures Pushed(a + b, depth, maxDepth) == Pushed(a, depth, maxDepth) + Pushed(b, depth, maxDepth)
  {
    if a == [] {
      assert a + b == b;
    } else {
      assert (a + b)[1..] == a[1..] + b;
      PushedAppend(a[1..], b, depth, maxDepth);
    }
  }

  // ---- the search ---------------------------------------------------------------------------

  function First<T>(s: seq<T>, n: nat): seq<T> { if |s| <= n then s else s[..n] }

  /** What a search should find: the first matches in visiting order, at most `limit`. */
  ghost function Expected(items: seq<Item>, pattern: string, limit: nat, maxDepth: nat): seq<Item>
  {
    First(Hits(Visited([Pending(items, 1)], maxDepth), pattern), limit)
  }

  /** The loop over the entries of one directory: it stops at the limit. */
  method ReadDirectory(dir: Pending, matches: seq<Item>, stack: seq<Pending>, pattern: string, limit: nat,
                       maxDepth: nat)
    returns (found: seq<Item>, next: seq<Pending>)
    requires |matches| < limit
    ensures found == First(matches + Hits(dir.items, pattern), limit)
    ensures |found| < limit ==> next == stack + Pushed(dir.items, dir.depth, maxDepth)
  {
    hide Hits, Pushed, Matches;
    found, next := matches, stack;
    var k := 0;
    NoneYet(pattern, dir.depth, maxDepth);
    while k < |dir.items|
      invariant 0 <= k <= |dir.items| && |found| < limit
      invariant found == matches + Hits(dir.items[..k], pattern)
      invariant next == stack + Pushed(dir.items[..k], dir.depth, maxDepth)
    {
      var item := dir.items[k];
      OneMore(dir.items, k, pattern, dir.depth, maxDepth);
      var isMatch := IsMatch(pattern, item.lower);
      if isMatch {
        found := found + [item];
        if |found| >= limit {
          RestAfter(dir.items, k + 1, pattern);
          return;
        }
      }
      if item.Folder? && dir.depth < maxDepth {
        next := next + [Pending(item.items, dir.depth + 1)];
      }
      k := k + 1;
    }
    assert dir.items[..|dir.items|] == dir.items;
  }

  lemma {:induction false} NoneYet(pattern: string, depth: nat, maxDepth: nat)
    ensures Hits([], pattern) == [] && Pushed([], depth, maxDepth) == []
  {
  }

  lemma {:induction false} OneMore(items: seq<Item>, k: nat, pattern: string, depth: nat, maxDepth: nat)
    requires k < |items|
    ensures Hits(items[..k + 1], pattern) == Hits(items[..k], pattern) + Hit(items[k], pattern)
    ensures Pushed(items[..k + 1], depth, maxDepth)
            == Pushed(items[..k], depth, maxDepth) + Push(items[k], depth, maxDepth)
  {
    hide Matches;
    assert items[..k + 1] == items[..k] + [items[k]];
    HitsAppend(items[..k], [items[k]], pattern);
    PushedAppend(items[..k], [items[k]], depth, maxDepth);
    assert [items[k]][1..] == [];
    assert Hit(items[k], pattern) + [] == Hit(items[k], pattern);
    assert Push(items[k], depth, maxDepth) + [] == Push(items[k], depth, maxDepth);
  }

  lemma {:induction false} RestAfter(items: seq<Item>, k: nat, pattern: string)
    requires k <= |items|
    ensures Hits(items, pattern) == Hits(items[..k], pattern) + Hits(items[k..], pattern)
  {
    hide Hits;
    assert items == items[..k] + items[k..];
    HitsAppend(items[..k], items[k..], pattern);
  }

  /** `search_files`: the depth limit is 5 and the result limit 50 unless given, and both
      are held within bounds. */
  method SearchFiles(base: Base, pattern: string, maxResults: Option<nat>, maxDepth: Option<nat>)
    returns (r: Result<seq<Item>>)
    ensures r.Ok? <==> base.Directory? && pattern != ""
    ensures r.Ok? ==>
      var limit := match maxResults case None => 50 case Some(n) => if n == 0 then 1 else if n > 500 then 500 else n;
      var depth := match maxDepth case None => 5 case Some(n) => if n == 0 then 1 else if n > 15 then 15 else n;
      r.value == Expected(base.items, pattern, limit, depth)
  {
    hide Visited, Hits, Pushed, StackSize, Matches;
    if base.Missing? {
      return Err("Base directory does not exist");
    }
    if base.NotADirectory? {
      return Err("Path is not a directory");
    }
    if pattern == "" {
      return Err("Search pattern cannot be empty");
    }
    var limit := Clamp(if maxResults.Some? then maxResults.value else 50, 1, 500);
    var depthLimit := Clamp(if maxDepth.Some? then maxDepth.value else 5, 1, 15);
    var matches: seq<Item> := [];
    var stack := [Pending(base.items, 1)];
    ghost var all := Hits(Visited(stack, depthLimit), pattern);
    while stack != []
      invariant |matches| < limit
      invariant matches + Hits(Visited(stack, depthLimit), pattern) == all
      decreases StackSize(stack)
    {
      PopShrinks(stack, depthLimit);
      VisitTop(stack, depthLimit, pattern);
      var dir := stack[|stack| - 1];
      ghost var rest := Hits(Visited(Popped(stack, depthLimit), depthLimit), pattern);
      Regroup(matches, Hits(dir.items, pattern), rest);
      assert (matches + Hits(dir.items, pattern)) + rest == all;
      matches, stack := ReadDirectory(dir, matches, stack[..|stack| - 1], pattern, limit, depthLimit);
      if |matches| >= limit {
        return Ok(matches);
      }
    }
    NothingLeft(pattern, depthLimit);
    r := Ok(matches);
  }

  lemma {:induction false} VisitTop(stack: seq<Pending>, maxDepth: nat, pattern: string)
    requires stack != []
    ensures Hits(Visited(stack, maxDepth), pattern)
         == Hits(stack[|stack| - 1].items, pattern) + Hits(Visited(Popped(stack, maxDepth), maxDepth), pattern)
  {
    hide Hits, Pushed;
    HitsAppend(stack[|stack| - 1].items, Visited(Popped(stack, maxDepth), maxDepth), pattern);
  }

  lemma {:induction false} NothingLeft(pattern: string, maxDepth: nat)
    ensures Hits(Visited([], maxDepth), pattern) == []
  {
  }

  // ---- nothing within reach is left out -----------------------------------------------------

  /** The entries within the depth limit, by recursion over the tree. */
  function Within(items: seq<Item>, depth: nat, maxDepth: nat): seq<Item>
  {
    if items == [] then []
    else
      [items[0]]
      + (if items[0].Folder? && depth < maxDepth then Within(items[0].items, depth + 1, maxDepth) else [])
      + Within(items[1..], depth, maxDepth)
  }

  function StackWithin(stack: seq<Pending>, maxDepth: nat): seq<Item>
  {
    if stack == [] then []
    else Within(stack[0].items, stack[0].depth, maxDepth) + StackWithin(stack[1..], maxDepth)
  }

  lemma {:induction false} StackWithinAppend(a: seq<Pending>, b: seq<Pending>, maxDepth: nat)
    ensures StackWithin(a + b, maxDepth) == StackWithin(a, maxDepth) + StackWithin(b, maxDepth)
  {
    hide Within;
    if a == [] {
      assert a + b == b;
    } else {
      assert (a + b)[1..] == a[1..] + b;
      StackWithinAppend(a[1..], b, maxDepth);
    }
  }

  lemma {:induction false} WithinFirst(items: seq<Item>, depth: nat, maxDepth: nat, pattern: string)
    requires items != []
    ensures Hits(Within(items, depth, maxDepth), pattern)
         == Hits([items[0]], pattern) + Hits(StackWithin(Push(items[0], depth, maxDepth), maxDepth), pattern)
            + Hits(Within(items[1..], depth, maxDepth), pattern)
  {
    hide Hits;
    var first, rest := [items[0]], Within(items[1..], depth, maxDepth);
    var below := StackWithin(Push(items[0], depth, maxDepth), maxDepth);
    assert Within(items, depth, maxDepth) == first + below + rest by {
      if items[0].Folder? && depth < maxDepth {
        OnePending(Pending(items[0].items, depth + 1), maxDepth);
      }
    }
    HitsAppend(first, below, pattern);
    HitsAppend(first + below, rest, pattern);
  }

  /** A directory's entries and what it pushes are all that is within reach below it. */
  lemma {:induction false} ReachBelow(items: seq<Item>, depth: nat, maxDepth: nat, pattern: string)
    ensures multiset(Hits(Within(items, depth, maxDepth), pattern))
         == multiset(Hits(items, pattern))
            + multiset(Hits(StackWithin(Pushed(items, depth, maxDepth), maxDepth), pattern))
  {
    hide Hits, Within, StackWithin, Push;
    if items == [] {
      assert Within(items, depth, maxDepth) == [] && StackWithin([], maxDepth) == [] by {
        NothingBelow(depth, maxDepth);
      }
      NoneYet(pattern, depth, maxDepth);
    } else {
      var rest := items[1..];
      ReachBelow(rest, depth, maxDepth, pattern);
      WithinFirst(items, depth, maxDepth, pattern);
      assert items == [items[0]] + rest;
      HitsAppend([items[0]], rest, pattern);
      StackWithinAppend(Push(items[0], depth, maxDepth), Pushed(rest, depth, maxDepth), maxDepth);
      HitsAppend(StackWithin(Push(items[0], depth, maxDepth), maxDepth),
                 StackWithin(Pushed(rest, depth, maxDepth), maxDepth), pattern);
    }
  }

  lemma {:induction false} NothingBelow(depth: nat, maxDepth: nat)
    ensures Within([], depth, maxDepth) == [] && StackWithin([], maxDepth) == []
  {
  }

  /** The walk meets every entry within the depth limit exactly once. */
  lemma {:induction false} WalkIsComplete(stack: seq<Pending>, maxDepth: nat, pattern: string)
    ensures multiset(Hits(Visited(stack, maxDepth), pattern)) == multiset(Hits(StackWithin(stack, maxDepth), pattern))
    decreases StackSize(stack)
  {
    hide Hits, Within, Pushed;
    if stack != [] {
      var rest, top := stack[..|stack| - 1], stack[|stack| - 1];
      var pushed := Pushed(top.items, top.depth, maxDepth);
      PopShrinks(stack, maxDepth);
      WalkIsComplete(Popped(stack, maxDepth), maxDepth, pattern);
      VisitTop(stack, maxDepth, pattern);
      ReachBelow(top.items, top.depth, maxDepth, pattern);
      assert stack == rest + [top];
      StackWithinAppend(rest, [top], maxDepth);
      StackWithinAppend(rest, pushed, maxDepth);
      HitsAppend(StackWithin(rest, maxDepth), StackWithin(pushed, maxDepth), pattern);
      OnePending(top, maxDepth);
      HitsAppend(StackWithin(rest, maxDepth), Within(top.items, top.depth, maxDepth), pattern);
    }
  }

  lemma {:induction false} OnePending(top: Pending, maxDepth: nat)
    ensures StackWithin([top], maxDepth) == Within(top.items, top.depth, maxDepth)
  {
    hide Within;
    assert [top][1..] == [];
  }

  lemma {:induction false} HitsCount(items: seq<Item>, pattern: string, x: Item)
    ensures multiset(Hits(items, pattern))[x] == if Matches(pattern, x.lower) then multiset(items)[x] else 0
  {
    hide Matches;
    if items != [] {
      HitsCount(items[1..], pattern, x);
      assert items == [items[0]] + items[1..];
    }
  }

  /** So what a search finds matches the pattern and is within the depth limit, each entry
      once; and when it finds fewer than `limit`, it has found every such entry. */
  lemma {:induction false} FindsAllWithin(items: seq<Item>, pattern: string, limit: nat, maxDepth: nat)
    ensures var reach := multiset(Within(items, 1, maxDepth));
            var found := Expected(items, pattern, limit, maxDepth);
            && |found| <= limit
            && (forall x :: x in found ==> Glob("*" + pattern + "*", x.lower) && multiset(found)[x] <= reach[x])
            && (|found| < limit ==>
                  forall x: Item :: Glob("*" + pattern + "*", x.lower) ==> multiset(found)[x] == reach[x])
  {
    hide Hits, Visited, Within, Matches, Glob;
    var stack := [Pending(items, 1)];
    WalkIsComplete(stack, maxDepth, pattern);
    OnePending(stack[0], maxDepth);
    var all, found := Hits(Visited(stack, maxDepth), pattern), Expected(items, pattern, limit, maxDepth);
    assert multiset(found) <= multiset(all) by {
      if |all| > limit {
        assert all == all[..limit] + all[limit..];
      }
    }
    forall x: Item
      ensures multiset(all)[x]
              == if Glob("*" + pattern + "*", x.lower) then multiset(Within(items, 1, maxDepth))[x] else 0
    {
      HitsCount(Within(items, 1, maxDepth), pattern, x);
      MatchesWhen(pattern, x.lower);
    }
    forall x | x in found ensures x in multiset(found) {
    }
  }
}
