/** Byte strings and the line splitting of Rust's `str::lines`, shared by every
    module that reads text from the end of a file. */
module Text {
  import opened Wrappers

  newtype Byte = b: int | 0 <= b < 256
  type Bytes = seq<Byte>

  const LF: Byte := 10
  const CR: Byte := 13

  /** The position of the first line feed, or |s| when there is none. */
  function FirstLF(s: Bytes): (i: nat)
    ensures i <= |s|
    ensures NoLF(s[..i])
    ensures i < |s| ==> s[i] == LF
  {
    if s == [] || s[0] == LF then 0 else
      var j := FirstLF(s[1..]);
      assert forall k :: 0 < k < j + 1 ==> s[k] == s[1..][..j][k - 1];
      j + 1
  }

  predicate NoLF(s: Bytes) { forall k :: 0 <= k < |s| ==> s[k] != LF }

  /** The lines of `s`, each with its terminator: only the last may lack one. */
  function RawLines(s: Bytes): seq<Bytes>
  {
    if s == [] then []
    else
      var i := FirstLF(s);
      if i == |s| then [s] else [s[..i + 1]] + RawLines(s[i + 1..])
  }

  /** Strips "\n" or "\r\n"; a carriage return that no line feed follows stays. */
  function Chomp(line: Bytes): Bytes
  {
    if line == [] || line[|line| - 1] != LF then line
    else if |line| >= 2 && line[|line| - 2] == CR then line[..|line| - 2]
    else line[..|line| - 1]
  }

  function ChompAll(raw: seq<Bytes>): (lines: seq<Bytes>)
    ensures |lines| == |raw|
  {
    if raw == [] then [] else [Chomp(raw[0])] + ChompAll(raw[1..])
  }

  lemma {:induction false} ChompAllAt(raw: seq<Bytes>, k: nat)
    requires k < |raw|
    ensures ChompAll(raw)[k] == Chomp(raw[k])
  {
    if k > 0 {
      ChompAllAt(raw[1..], k - 1);
    }
  }

  lemma {:induction false} ChompAllAppend(a: seq<Bytes>, b: seq<Bytes>)
    ensures ChompAll(a + b) == ChompAll(a) + ChompAll(b)
  {
    if a == [] {
      assert a + b == b;
    } else {
      assert (a + b)[1..] == a[1..] + b;
      ChompAllAppend(a[1..], b);
    }
  }

  function Lines(s: Bytes): seq<Bytes> { ChompAll(RawLines(s)) }

  function LastN<T>(s: seq<T>, n: nat): seq<T>
  {
    if |s| <= n then s else s[|s| - n..]
  }

  function Concat(parts: seq<Bytes>): Bytes
  {
    if parts == [] then [] else parts[0] + Concat(parts[1..])
  }

  /** `lines.join("\n")`. */
  function Join(lines: seq<Bytes>): Bytes
  {
    if lines == [] then [] else if |lines| == 1 then lines[0] else lines[0] + [LF] + Join(lines[1..])
  }

  lemma {:induction false} ConcatAppend(a: seq<Bytes>, b: seq<Bytes>)
    ensures Concat(a + b) == Concat(a) + Concat(b)
  {
    if a == [] {
      assert a + b == b;
    } else {
      assert (a + b)[1..] == a[1..] + b;
      ConcatAppend(a[1..], b);
    }
  }

  function CountLF(s: Bytes): nat
  {
    if s == [] then 0 else (if s[0] == LF then 1 else 0) + CountLF(s[1..])
  }

  /** `s` ends where a line ends, so what follows it starts a line. */
  predicate EndsLine(s: Bytes) { s == [] || s[|s| - 1] == LF }

  lemma {:induction false} CountLFAppend(a: Bytes, b: Bytes)
    ensures CountLF(a + b) == CountLF(a) + CountLF(b)
  {
    if a == [] {
      assert a + b == b;
    } else {
      assert (a + b)[1..] == a[1..] + b;
      CountLFAppend(a[1..], b);
    }
  }

  lemma {:induction false} CountNoLF(s: Bytes)
    ensures CountLF(s) == 0 <==> NoLF(s)
  {
    if s != [] {
      CountNoLF(s[1..]);
      assert forall k :: 0 < k < |s| ==> s[k] == s[1..][k - 1];
    }
  }

  lemma {:induction false} FirstLFAppend(a: Bytes, b: Bytes)
    requires FirstLF(a) < |a|
    ensures FirstLF(a + b) == FirstLF(a)
  {
    var i, j := FirstLF(a), FirstLF(a + b);
    assert (a + b)[i] == LF;
  }

  /** Splitting distributes over a cut made at a line boundary. */
  lemma {:induction false} RawLinesAppend(a: Bytes, b: Bytes)
    requires EndsLine(a)
    ensures RawLines(a + b) == RawLines(a) + RawLines(b)
  {
    if a == [] {
      assert a + b == b;
    } else {
      var i := FirstLF(a);
      assert i < |a|;
      FirstLFAppend(a, b);
      assert (a + b)[..i + 1] == a[..i + 1];
      assert (a + b)[i + 1..] == a[i + 1..] + b;
      RawLinesAppend(a[i + 1..], b);
      Regroup([a[..i + 1]], RawLines(a[i + 1..]), RawLines(b));
    }
  }

  /** There are as many lines as line feeds, plus one when the last is unterminated. */
  lemma {:induction false} RawLinesCount(s: Bytes)
    ensures |RawLines(s)| == CountLF(s) + (if EndsLine(s) then 0 else 1)
  {
    if s != [] {
      var i := FirstLF(s);
      CountNoLF(s[..i]);
      assert s == s[..i] + s[i..];
      CountLFAppend(s[..i], s[i..]);
      if i < |s| {
        assert s[i..][1..] == s[i + 1..];
        RawLinesCount(s[i + 1..]);
      } else {
        assert s[..i] == s;
      }
    }
  }

  /** A non-empty piece of text whose only line feed, if any, is its last byte. */
  predicate IsRawLine(line: Bytes) { line != [] && NoLF(line[..|line| - 1]) }

  predicate AreRawLines(raw: seq<Bytes>)
  {
    && (forall k :: 0 <= k < |raw| ==> IsRawLine(raw[k]))
    && (forall k :: 0 <= k < |raw| - 1 ==> EndsLine(raw[k]))
  }

  lemma {:induction false} RawLinesCons(head: Bytes, rest: seq<Bytes>)
    requires IsRawLine(head) && EndsLine(head) && AreRawLines(rest)
    ensures AreRawLines([head] + rest)
    ensures Concat([head] + rest) == head + Concat(rest)
  {
    hide IsRawLine, EndsLine;
    assert ([head] + rest)[1..] == rest;
  }

  /** The lines of `s` concatenate back to `s`; each is one line, and only the
      last may be unterminated. */
  lemma {:induction false} RawLinesShape(s: Bytes)
    ensures Concat(RawLines(s)) == s
    ensures AreRawLines(RawLines(s))
  {
    hide IsRawLine, EndsLine, Concat;
    if s == [] {
      assert Concat([]) == [] by { hide *; NoParts(); }
    } else {
      var i := FirstLF(s);
      if i < |s| {
        RawLinesShape(s[i + 1..]);
        FirstIsRaw(s, i);
        RawLinesCons(s[..i + 1], RawLines(s[i + 1..]));
        assert s == s[..i + 1] + s[i + 1..];
      } else {
        OnlyIsRaw(s);
      }
    }
  }

  lemma NoParts()
    ensures Concat([]) == []
  {
  }

  lemma {:induction false} FirstIsRaw(s: Bytes, i: nat)
    requires i == FirstLF(s) < |s|
    ensures IsRawLine(s[..i + 1]) && EndsLine(s[..i + 1])
  {
    assert s[..i + 1][..i] == s[..i];
  }

  lemma {:induction false} OnlyIsRaw(s: Bytes)
    requires s != [] && FirstLF(s) == |s|
    ensures IsRawLine(s) && Concat([s]) == s
  {
    assert s[..|s|] == s;
    assert NoLF(s[..|s| - 1]);
    assert [s][1..] == [];
  }

  /** `RawLines` is the only way to cut a text into lines. */
  lemma {:induction false} RawLinesUnique(raw: seq<Bytes>)
    requires AreRawLines(raw)
    ensures RawLines(Concat(raw)) == raw
  {
    if |raw| == 1 {
      assert Concat(raw) == raw[0] + Concat(raw[1..]) == raw[0];
      OneRawLine(raw[0]);
    } else if raw != [] {
      assert EndsLine(raw[0]);
      OneRawLine(raw[0]);
      RawLinesAppend(raw[0], Concat(raw[1..]));
      RawLinesUnique(raw[1..]);
    }
  }

  lemma {:induction false} OneRawLine(line: Bytes)
    requires IsRawLine(line)
    ensures RawLines(line) == [line]
  {
    var i := FirstLF(line);
    assert i >= |line| - 1;
    assert line[..|line|] == line;
    assert RawLines([]) == [];
  }

  /** A stretch of text with no line feed before its end lies within one line. */
  lemma {:induction false} LastLineCovers(c: Bytes, d: Bytes)
    requires IsRawLine(d)
    ensures RawLines(c + d) != []
    ensures |RawLines(c + d)[|RawLines(c + d)| - 1]| >= |d|
    decreases |c|
  {
    var s := c + d;
    var i := FirstLF(s);
    if i < |c| {
      assert s[i + 1..] == c[i + 1..] + d;
      LastLineCovers(c[i + 1..], d);
    } else {
      assert i >= |s| - 1;
      assert s[..|s|] == s;
      assert RawLines([]) == [];
    }
  }

  /** The last lines of a file are the lines of any tail that starts at a line
      boundary and holds that many of them. */
  lemma {:induction false} LastLines(a: Bytes, b: Bytes, n: nat)
    requires EndsLine(a)
    requires |RawLines(b)| == n
    ensures LastN(Lines(a + b), n) == Lines(b)
    ensures |Lines(a + b)| == |RawLines(a)| + n
  {
    hide RawLines, ChompAll;
    RawLinesAppend(a, b);
    ChompAllAppend(RawLines(a), RawLines(b));
  }

  lemma {:induction false} ChompHasNoLF(line: Bytes)
    requires IsRawLine(line)
    ensures NoLF(Chomp(line))
    ensures |Chomp(line)| <= |line|
    ensures EndsLine(line) ==> |Chomp(line)| < |line|
  {
    assert forall k :: 0 <= k < |Chomp(line)| ==> Chomp(line)[k] == line[k];
  }

  /** Joining never needs more room than the raw text the lines came from. */
  lemma {:induction false} JoinFits(raw: seq<Bytes>)
    requires AreRawLines(raw)
    ensures |Join(ChompAll(raw))| <= |Concat(raw)|
  {
    if raw != [] {
      ChompHasNoLF(raw[0]);
      assert ChompAll(raw)[1..] == ChompAll(raw[1..]);
      JoinFits(raw[1..]);
      assert ChompAll(raw)[0] == Chomp(raw[0]);
    }
  }

  /** A join of n > 0 lines without line feeds holds exactly n - 1 of them. */
  lemma {:induction false} JoinCount(lines: seq<Bytes>)
    requires lines != []
    requires forall k :: 0 <= k < |lines| ==> NoLF(lines[k])
    ensures CountLF(Join(lines)) == |lines| - 1
  {
    CountNoLF(lines[0]);
    if |lines| > 1 {
      JoinCount(lines[1..]);
      CountLFAppend(lines[0] + [LF], Join(lines[1..]));
      CountLFAppend(lines[0], [LF]);
      assert CountLF([LF]) == 1;
    }
  }

  // ---- what the lines of a text are ------------------------------------------------------

  /** Lines written one after the other, each ended by "\r\n" or "\n". */
  function Written(lines: seq<Bytes>, crlf: seq<bool>): Bytes
    requires |lines| == |crlf|
  {
    if lines == [] then []
    else lines[0] + (if crlf[0] then [13, 10] else [10]) + Written(lines[1..], crlf[1..])
  }

  /** No line holds a line feed; one that a bare line feed ends does not end in "\r". */
  ghost predicate AreLines(lines: seq<Bytes>, crlf: seq<bool>)
  {
    && |lines| == |crlf|
    && forall k :: 0 <= k < |lines| ==>
         NoLF(lines[k]) && (!crlf[k] ==> lines[k] == [] || lines[k][|lines[k]| - 1] != 13)
  }

  /** The lines of a text are the ones it was written from, and what follows the last
      terminator, if anything does. */
  lemma {:induction false} LinesOfWritten(lines: seq<Bytes>, crlf: seq<bool>, rest: Bytes)
    requires AreLines(lines, crlf) && NoLF(rest)
    ensures Lines(Written(lines, crlf) + rest) == lines + (if rest == [] then [] else [rest])
  {
    hide RawLines, ChompAll, Chomp;
    if lines == [] {
      assert Written(lines, crlf) + rest == rest;
      UnterminatedLine(rest);
    } else {
      var line := lines[0] + if crlf[0] then [CR, LF] else [LF];
      var later := Written(lines[1..], crlf[1..]) + rest;
      assert forall k :: 0 <= k < |lines[1..]| ==> lines[1..][k] == lines[k + 1] && crlf[1..][k] == crlf[k + 1];
      LinesOfWritten(lines[1..], crlf[1..], rest);
      assert Written(lines, crlf) + rest == line + later;
      TerminatedLine(lines[0], crlf[0], later);
      assert lines == [lines[0]] + lines[1..];
    }
  }

  lemma {:induction false} UnterminatedLine(rest: Bytes)
    requires NoLF(rest)
    ensures Lines(rest) == if rest == [] then [] else [rest]
  {
    hide RawLines;
    if rest == [] {
      assert RawLines([]) == [] by { RawLinesCount([]); }
    } else {
      OneRawLine(rest);
      assert [rest][1..] == [];
    }
  }

  lemma {:induction false} TerminatedLine(x: Bytes, crlf: bool, later: Bytes)
    requires NoLF(x) && (!crlf ==> x == [] || x[|x| - 1] != CR)
    ensures Lines(x + (if crlf then [CR, LF] else [LF]) + later) == [x] + Lines(later)
  {
    hide RawLines;
    var line := x + if crlf then [CR, LF] else [LF];
    assert IsRawLine(line) by {
      assert line[..|line| - 1] == x + if crlf then [CR] else [];
    }
    assert Chomp(line) == x by {
      assert line[..|x|] == x;
      assert x != [] ==> line[|x| - 1] == x[|x| - 1];
    }
    RawLinesAppend(line, later);
    OneRawLine(line);
    assert ([line] + RawLines(later))[1..] == RawLines(later);
  }

  /** Every text is written in exactly that way from its lines. */
  lemma {:induction false} WrittenFromLines(s: Bytes) returns (crlf: seq<bool>, rest: Bytes)
    ensures NoLF(rest) && |crlf| == CountLF(s) <= |Lines(s)|
    ensures AreLines(Lines(s)[..|crlf|], crlf) && s == Written(Lines(s)[..|crlf|], crlf) + rest
    ensures Lines(s)[|crlf|..] == if rest == [] then [] else [rest]
    decreases |s|
  {
    hide RawLines, ChompAll, Chomp;
    var i := FirstLF(s);
    if i == |s| {
      assert s[..i] == s;
      crlf, rest := [], s;
      CountNoLF(s);
      UnterminatedLine(s);
      assert Written([], []) + s == s;
    } else {
      var ends := i > 0 && s[i - 1] == CR;
      var later := s[i + 1..];
      var t, r := WrittenFromLines(later);
      var x := FirstLine(s, i, ends);
      TerminatedLine(x, ends, later);
      CountFirst(s, i);
      crlf, rest := [ends] + t, r;
      var kept := Lines(later)[..|t|];
      WrittenCons(x, ends, kept, t);
      FirstAndLater(x, Lines(later), |t|);
      Regroup(x + (if ends then [CR, LF] else [LF]), Written(kept, t), r);
    }
  }

  lemma FirstAndLater(x: Bytes, later: seq<Bytes>, n: nat)
    requires n <= |later|
    ensures ([x] + later)[..n + 1] == [x] + later[..n] && ([x] + later)[n + 1..] == later[n..]
  {
  }

  lemma {:induction false} FirstLine(s: Bytes, i: nat, ends: bool) returns (x: Bytes)
    requires i == FirstLF(s) < |s| && (ends <==> i > 0 && s[i - 1] == CR)
    ensures NoLF(x) && (!ends ==> x == [] || x[|x| - 1] != CR)
    ensures s == x + (if ends then [CR, LF] else [LF]) + s[i + 1..]
  {
    x := s[..if ends then i - 1 else i];
    assert forall k :: 0 <= k < |x| ==> x[k] == s[..i][k];
  }

  lemma {:induction false} WrittenCons(x: Bytes, ends: bool, lines: seq<Bytes>, crlf: seq<bool>)
    requires AreLines(lines, crlf) && NoLF(x) && (!ends ==> x == [] || x[|x| - 1] != CR)
    ensures AreLines([x] + lines, [ends] + crlf)
    ensures Written([x] + lines, [ends] + crlf) == x + (if ends then [CR, LF] else [LF]) + Written(lines, crlf)
  {
    assert ([x] + lines)[1..] == lines && ([ends] + crlf)[1..] == crlf;
  }

  lemma {:induction false} CountFirst(s: Bytes, i: nat)
    requires i == FirstLF(s) < |s|
    ensures CountLF(s) == 1 + CountLF(s[i + 1..])
  {
    CountNoLF(s[..i]);
    assert s == s[..i] + s[i..];
    CountLFAppend(s[..i], s[i..]);
    assert s[i..][1..] == s[i + 1..];
  }

  /** A line is the front of its raw line. */
  lemma {:induction false} LineIsPrefix(s: Bytes, k: nat)
    requires k < |RawLines(s)|
    ensures Lines(s)[k] <= RawLines(s)[k]
  {
    hide RawLines;
    ChompAllAt(RawLines(s), k);
  }
}
