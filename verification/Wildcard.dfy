/** The file name patterns of `search_files` in crates/agent/src/tools/directory.rs:
    what lies between the asterisks must occur in the name, in order. */
module Wildcard {
  import opened Wrappers

  /** `part` stands in `name` at position p. */
  predicate Occurs(part: string, name: string, p: int)
  {
    0 <= p && p + |part| <= |name| && name[p..p + |part|] == part
  }

  predicate NotBetween(part: string, name: string, from: nat, to: nat)
  {
    forall p :: from <= p < to ==> !Occurs(part, name, p)
  }

  /** `name[from..].find(part)`, as a position in `name`: the leftmost occurrence. */
  function Find(part: string, name: string, from: nat): (p: Option<nat>)
    requires from <= |name|
    decreases |name| - from
  {
    if Occurs(part, name, from) then Some(from)
    else if from == |name| then None
    else Find(part, name, from + 1)
  }

  lemma {:induction false} FindIsLeftmost(part: string, name: string, from: nat)
    requires from <= |name|
    ensures match Find(part, name, from)
            case Some(p) => from <= p && Occurs(part, name, p) && NotBetween(part, name, from, p)
            case None => NotBetween(part, name, from, |name| + 1)
    decreases |name| - from
  {
    if !Occurs(part, name, from) && from < |name| {
      FindIsLeftmost(part, name, from + 1);
    }
  }

  // ---- the pattern ------------------------------------------------------------------

  predicate NoStar(s: string) { forall k :: 0 <= k < |s| ==> s[k] != '*' }

  function FirstStar(s: string): (i: nat)
    ensures i <= |s|
    ensures i < |s| ==> s[i] == '*'
    ensures NoStar(s[..i])
  {
    if s == [] || s[0] == '*' then 0 else
      var j := FirstStar(s[1..]);
      assert forall k :: 0 < k < j + 1 ==> s[k] == s[1..][..j][k - 1];
      j + 1
  }

  /** `pattern.split('*').filter(|s| !s.is_empty())`. */
  function Parts(pattern: string): seq<string>
    decreases |pattern|
  {
    var i := FirstStar(pattern);
    var head := if i > 0 then [pattern[..i]] else [];
    if i == |pattern| then head else head + Parts(pattern[i + 1..])
  }

  /** The parts are put at these positions in the name: in order, none overlapping
      the next, the first no earlier than `from`. */
  ghost predicate Placed(parts: seq<string>, name: string, from: int, at: seq<int>)
  {
    && |at| == |parts|
    && (forall i :: 0 <= i < |parts| ==> Occurs(parts[i], name, at[i]))
    && (forall i :: 0 <= i < |parts| - 1 ==> at[i] + |parts[i]| <= at[i + 1])
    && (parts != [] ==> from <= at[0])
  }

  ghost predicate CanPlace(parts: seq<string>, name: string, from: int)
  {
    exists at: seq<int> :: Placed(parts, name, from, at)
  }

  /** Taking every part at its leftmost place after the one before. */
  function Greedy(parts: seq<string>, name: string, from: nat): bool
    requires from <= |name|
    decreases |parts|
  {
    if parts == [] then true
    else
      FindIsLeftmost(parts[0], name, from);
      match Find(parts[0], name, from)
      case None => false
      case Some(p) => Greedy(parts[1..], name, p + |parts[0]|)
  }

  /** The greedy choice never misses a placement: whatever place a part has in one, the
      leftmost leaves at least as much of the name to the rest. */
  lemma {:induction false} GreedyIsComplete(parts: seq<string>, name: string, from: nat)
    requires from <= |name|
    ensures Greedy(parts, name, from) <==> CanPlace(parts, name, from)
    decreases |parts|
  {
    hide Occurs;
    if parts == [] {
      assert Placed(parts, name, from, []);
    } else {
      FindIsLeftmost(parts[0], name, from);
      match Find(parts[0], name, from)
      case None =>
        NoPlace(parts, name, from);
      case Some(p) =>
        OccursFits(parts[0], name, p);
        GreedyIsComplete(parts[1..], name, p + |parts[0]|);
        if CanPlace(parts[1..], name, p + |parts[0]|) {
          Prepend(parts, name, from, p);
        }
        if CanPlace(parts, name, from) {
          MoveLeft(parts, name, from, p);
        }
    }
  }

  lemma {:induction false} OccursFits(part: string, name: string, p: int)
    requires Occurs(part, name, p)
    ensures 0 <= p && p + |part| <= |name|
  {
  }

  lemma {:induction false} NoPlace(parts: seq<string>, name: string, from: nat)
    requires parts != [] && NotBetween(parts[0], name, from, |name| + 1)
    ensures !CanPlace(parts, name, from)
  {
  }

  lemma {:induction false} Prepend(parts: seq<string>, name: string, from: nat, p: int)
    requires parts != [] && from <= p && Occurs(parts[0], name, p)
    requires CanPlace(parts[1..], name, p + |parts[0]|)
    ensures CanPlace(parts, name, from)
  {
    hide Occurs;
    var rest: seq<int> :| Placed(parts[1..], name, p + |parts[0]|, rest);
    var at := [p] + rest;
    forall i | 0 <= i < |parts| ensures Occurs(parts[i], name, at[i]) {
      if i > 0 {
        assert parts[1..][i - 1] == parts[i];
      }
    }
    forall i | 0 <= i < |parts| - 1 ensures at[i] + |parts[i]| <= at[i + 1] {
      if i > 0 {
        assert parts[1..][i - 1] == parts[i] && rest[i - 1] + |parts[1..][i - 1]| <= rest[i];
      }
    }
    assert Placed(parts, name, from, at);
  }

  lemma {:induction false} MoveLeft(parts: seq<string>, name: string, from: nat, p: int)
    requires parts != [] && from <= p && NotBetween(parts[0], name, from, p)
    requires CanPlace(parts, name, from)
    ensures CanPlace(parts[1..], name, p + |parts[0]|)
  {
    hide Occurs;
    var at: seq<int> :| Placed(parts, name, from, at);
    assert Occurs(parts[0], name, at[0]);
    assert Placed(parts[1..], name, p + |parts[0]|, at[1..]);
  }

  /** What `is_match` should mean: without an asterisk the pattern occurs in the name;
      with one, its non-empty parts do, in order and apart. */
  ghost predicate Matches(pattern: string, name: string)
  {
    CanPlace(if NoStar(pattern) then [pattern] else Parts(pattern), name, 0)
  }

  lemma {:induction false} GreedyStep(parts: seq<string>, name: string, k: nat, pos: nat)
    requires k < |parts| && pos <= |name|
    ensures match Find(parts[k], name, pos)
            case Some(p) =>
              && p + |parts[k]| <= |name|
              && Greedy(parts[k..], name, pos) == Greedy(parts[k + 1..], name, p + |parts[k]|)
            case None => !Greedy(parts[k..], name, pos)
  {
    FindIsLeftmost(parts[k], name, pos);
    assert parts[k..][1..] == parts[k + 1..];
  }

  /** The match loop of `search_files`. */
  method IsMatch(pattern: string, name: string) returns (isMatch: bool)
    ensures isMatch <==> Matches(pattern, name)
  {
    hide Occurs, CanPlace, Parts, Find, Greedy;
    if '*' in pattern {
      var parts := Parts(pattern);
      GreedyIsComplete(parts, name, 0);
      if parts == [] {
        isMatch := true;
        assert Greedy([], name, 0) by { GreedyOfNone(name, 0); }
      } else {
        var pos, allFound, k := 0, true, 0;
        while k < |parts|
          invariant 0 <= k <= |parts| && 0 <= pos <= |name| && allFound
          invariant Greedy(parts, name, 0) == Greedy(parts[k..], name, pos)
        {
          var found := Find(parts[k], name, pos);
          GreedyStep(parts, name, k, pos);
          if found.None? {
            allFound := false;
            break;
          }
          pos := found.value + |parts[k]|;
          k := k + 1;
        }
        GreedyOfNone(name, pos);
        assert parts[|parts|..] == [];
        isMatch := allFound;
      }
    } else {
      GreedyIsComplete([pattern], name, 0);
      GreedyStep([pattern], name, 0, 0);
      assert [pattern][0..] == [pattern] && [pattern][1..] == [];
      isMatch := Find(pattern, name, 0).Some?;
      if isMatch {
        GreedyOfNone(name, Find(pattern, name, 0).value + |pattern|);
      }
    }
  }

  lemma {:induction false} GreedyOfNone(name: string, pos: nat)
    requires pos <= |name|
    ensures Greedy([], name, pos)
  {
  }

  /** The parts of a pattern are what its asterisks leave: none is empty, none holds an
      asterisk, and a pattern without one is its own only part. */
  lemma {:induction false} PartsAreClean(pattern: string)
    ensures forall k :: 0 <= k < |Parts(pattern)| ==> Parts(pattern)[k] != [] && NoStar(Parts(pattern)[k])
    ensures NoStar(pattern) && pattern != [] ==> Parts(pattern) == [pattern]
    decreases |pattern|
  {
    var i := FirstStar(pattern);
    if i < |pattern| {
      PartsAreClean(pattern[i + 1..]);
    } else {
      assert pattern[..i] == pattern;
    }
  }

  lemma {:induction false} FirstStarAppend(pattern: string)
    ensures FirstStar(pattern + "*") == FirstStar(pattern)
  {
    if pattern == "" {
      assert "" + "*" == "*";
    } else {
      assert (pattern + "*")[1..] == pattern[1..] + "*";
      FirstStarAppend(pattern[1..]);
    }
  }

  /** An asterisk before or after changes nothing: the match is never tied to an end of
      the name. */
  lemma {:induction false} StarsDoNotAnchor(pattern: string)
    ensures Parts(pattern + "*") == Parts(pattern) == Parts("*" + pattern)
    decreases |pattern|
  {
    LeadingStar(pattern);
    FirstStarAppend(pattern);
    var i := FirstStar(pattern);
    assert (pattern + "*")[..i] == pattern[..i];
    if i < |pattern| {
      assert (pattern + "*")[i + 1..] == pattern[i + 1..] + "*";
      StarsDoNotAnchor(pattern[i + 1..]);
    } else {
      assert (pattern + "*")[i + 1..] == "";
      assert Parts("") == [];
    }
  }

  lemma {:induction false} LeadingStar(pattern: string)
    ensures Parts("*" + pattern) == Parts(pattern)
  {
    assert ("*" + pattern)[1..] == pattern && FirstStar("*" + pattern) == 0;
  }

  // ---- what a pattern means ----------------------------------------------------------

  /** The usual meaning of a pattern, tied to both ends: an asterisk stands for any
      characters, and every other character for itself. */
  predicate Glob(pattern: string, name: string)
    decreases |pattern|, |name|
  {
    if pattern == "" then name == ""
    else if pattern[0] == '*' then Glob(pattern[1..], name) || (name != "" && Glob(pattern, name[1..]))
    else name != "" && name[0] == pattern[0] && Glob(pattern[1..], name[1..])
  }

  lemma {:induction false} GlobOfStar(pattern: string, name: string, k: nat)
    requires k <= |name| && Glob(pattern, name[k..])
    ensures Glob("*" + pattern, name)
    decreases |name|
  {
    assert ("*" + pattern)[1..] == pattern;
    if k > 0 {
      assert name[1..][k - 1..] == name[k..];
      GlobOfStar(pattern, name[1..], k - 1);
    } else {
      assert name[0..] == name;
    }
  }

  lemma {:induction false} StarStandsFor(pattern: string, name: string) returns (k: nat)
    requires Glob("*" + pattern, name)
    ensures k <= |name| && Glob(pattern, name[k..])
    decreases |name|
  {
    assert ("*" + pattern)[1..] == pattern;
    if Glob(pattern, name) {
      k := 0;
      assert name[0..] == name;
    } else {
      var rest := StarStandsFor(pattern, name[1..]);
      k := rest + 1;
      assert name[1..][rest..] == name[k..];
    }
  }

  lemma {:induction false} GlobOfText(text: string, pattern: string, name: string)
    requires NoStar(text)
    ensures Glob(text + pattern, name) <==>
      |text| <= |name| && name[..|text|] == text && Glob(pattern, name[|text|..])
    decreases |text|
  {
    if text == "" {
      assert text + pattern == pattern && name[0..] == name;
    } else {
      assert (text + pattern)[1..] == text[1..] + pattern;
      if name != "" && name[0] == text[0] {
        GlobOfText(text[1..], pattern, name[1..]);
        assert |text| <= |name| ==> name[1..][..|text| - 1] == name[..|text|][1..];
        assert |text| <= |name| ==> name[1..][|text| - 1..] == name[|text|..];
        assert |text| <= |name| ==> name[..|text|] == [name[0]] + name[..|text|][1..];
        assert text == [text[0]] + text[1..];
      }
    }
  }

  /** The text stands at k, and the rest of the pattern matches what is behind it. */
  ghost predicate StandsBefore(text: string, rest: string, name: string, k: int)
  {
    0 <= k && k + |text| <= |name| && name[k..k + |text|] == text && Glob("*" + rest + "*", name[k + |text|..])
  }

  lemma {:induction false} GlobSplits(text: string, rest: string, name: string, from: nat)
    requires NoStar(text) && from <= |name|
    ensures Glob("*" + (text + ("*" + rest + "*")), name[from..])
            <==> exists k :: from <= k && StandsBefore(text, rest, name, k)
  {
    hide Glob;
    var tail, after := name[from..], "*" + rest + "*";
    if Glob("*" + (text + after), tail) {
      var k := StarStandsFor(text + after, tail);
      GlobOfText(text, after, tail[k..]);
      assert tail[k..] == name[from + k..] && tail[k..][..|text|] == name[from + k..from + k + |text|];
      assert tail[k..][|text|..] == name[from + k + |text|..];
      assert StandsBefore(text, rest, name, from + k);
    }
    if k :| from <= k && StandsBefore(text, rest, name, k) {
      var there := tail[k - from..];
      assert there == name[k..] && there[..|text|] == name[k..k + |text|] && there[|text|..] == name[k + |text|..];
      GlobOfText(text, after, there);
      GlobOfStar(text + after, tail, k - from);
    }
  }

  /** The text stands at k, and the parts can be placed behind it. */
  ghost predicate PlacedBefore(text: string, parts: seq<string>, name: string, k: int)
  {
    Occurs(text, name, k) && CanPlace(parts, name, k + |text|)
  }

  lemma {:induction false} PlacingSplits(text: string, parts: seq<string>, name: string, from: nat)
    requires from <= |name|
    ensures CanPlace((if text == "" then [] else [text]) + parts, name, from)
            <==> exists k :: from <= k && PlacedBefore(text, parts, name, k)
  {
    var all := (if text == "" then [] else [text]) + parts;
    if text == "" {
      assert all == parts;
      if CanPlace(parts, name, from) {
        assert PlacedBefore(text, parts, name, from);
      }
      if k :| from <= k && PlacedBefore(text, parts, name, k) {
        var at: seq<int> :| Placed(parts, name, k + |text|, at);
        assert Placed(parts, name, from, at);
      }
    } else {
      assert all[0] == text && all[1..] == parts;
      if at: seq<int> :| Placed(all, name, from, at) {
        assert Placed(parts, name, at[0] + |text|, at[1..]);
        assert PlacedBefore(text, parts, name, at[0]);
      }
      if k :| from <= k && PlacedBefore(text, parts, name, k) {
        Prepend(all, name, from, k);
      }
    }
  }

  /** A pattern and its parts, cut at the first asterisk. */
  lemma {:induction false} PartsAtStar(pattern: string)
    ensures var i := FirstStar(pattern);
            var text := pattern[..i];
            var head := if text == "" then [] else [text];
            if i == |pattern| then pattern == text && Parts(pattern) == head + []
            else
              var rest := pattern[i + 1..];
              && "*" + pattern + "*" == "*" + (text + ("*" + rest + "*"))
              && Parts(pattern) == head + Parts(rest)
  {
    hide FirstStar, NoStar;
    var i := FirstStar(pattern);
    var text := pattern[..i];
    if i == |pattern| {
      assert pattern == text;
    } else {
      var tail := "*" + pattern[i + 1..];
      assert pattern == text + tail;
      Regroup("*", text + tail, "*");
      Regroup(text, tail, "*");
    }
  }

  lemma {:induction false} GlobIsPlacement(pattern: string, name: string, from: nat)
    requires from <= |name|
    ensures Glob("*" + pattern + "*", name[from..]) <==> CanPlace(Parts(pattern), name, from)
    decreases |pattern|
  {
    hide Glob, Occurs, CanPlace, FirstStar, Parts;
    var i := FirstStar(pattern);
    var text := pattern[..i];
    PartsAtStar(pattern);
    if i == |pattern| {
      PlacingSplits(text, [], name, from);
      GlobEndsIn(text, name, from);
    } else {
      var rest := pattern[i + 1..];
      GlobSplits(text, rest, name, from);
      PlacingSplits(text, Parts(rest), name, from);
      forall k | from <= k ensures StandsBefore(text, rest, name, k) <==> PlacedBefore(text, Parts(rest), name, k) {
        OccursMeans(text, name, k);
        if k + |text| <= |name| {
          GlobIsPlacement(rest, name, k + |text|);
        }
      }
    }
  }

  lemma {:induction false} OccursMeans(part: string, name: string, p: int)
    ensures Occurs(part, name, p) <==> 0 <= p && p + |part| <= |name| && name[p..p + |part|] == part
  {
  }

  lemma {:induction false} GlobEndsIn(text: string, name: string, from: nat)
    requires NoStar(text) && from <= |name|
    ensures Glob("*" + text + "*", name[from..]) <==> exists k :: from <= k && PlacedBefore(text, [], name, k)
  {
    hide Glob, Occurs;
    var tail := name[from..];
    assert "*" + text + "*" == "*" + (text + "*");
    if Glob("*" + (text + "*"), tail) {
      var k := StarStandsFor(text + "*", tail);
      GlobOfText(text, "*", tail[k..]);
      assert tail[k..] == name[from + k..];
      assert name[from + k..][..|text|] == name[from + k..from + k + |text|];
      OccursMeans(text, name, from + k);
      assert Placed([], name, from + k + |text|, []);
      assert PlacedBefore(text, [], name, from + k);
    }
    if k :| from <= k && PlacedBefore(text, [], name, k) {
      OccursMeans(text, name, k);
      var there := tail[k - from..];
      assert there == name[k..] && there[..|text|] == name[k..k + |text|];
      StarMatchesAll(there[|text|..]);
      GlobOfText(text, "*", there);
      GlobOfStar(text + "*", tail, k - from);
    }
  }

  lemma {:induction false} StarMatchesAll(name: string)
    ensures Glob("*", name)
    decreases |name|
  {
    assert "*"[1..] == "";
    if name != "" {
      StarMatchesAll(name[1..]);
    }
  }

  /** The search for parts one after the other is matching in the usual sense, with an
      asterisk at both ends. */
  lemma {:induction false} MatchesWhen(pattern: string, name: string)
    ensures Matches(pattern, name) <==> Glob("*" + pattern + "*", name)
  {
    hide Glob, Occurs, CanPlace, Parts;
    assert name[0..] == name;
    GlobIsPlacement(pattern, name, 0);
    PartsAreClean(pattern);
    if pattern == "" {
      GlobEndsIn("", name, 0);
      OccursMeans("", name, 0);
      assert [""] + [] == [""];
      EmptyPart(name);
    }
  }

  lemma {:induction false} EmptyPart(name: string)
    ensures CanPlace([""], name, 0) && CanPlace(Parts(""), name, 0)
  {
    assert Placed([""], name, 0, [0]);
    assert Placed(Parts(""), name, 0, []);
  }
}
