/** The bounded tail reads of crates/server/src/tail.rs. */
module Tail {
  import opened Text

  const CHUNK: nat := 8 * 1024

  /** The bytes that the last k lines of `file` take, terminators included. */
  function TailBytes(file: Bytes, k: nat): (n: nat)
    ensures n <= |file|
  {
    SuffixWithin(file, k);
    SuffixBytes(RawLines(file), k)
  }

  function SuffixBytes(raw: seq<Bytes>, k: nat): nat { |Concat(LastN(raw, k))| }

  lemma {:induction false} SuffixWithin(file: Bytes, k: nat)
    ensures SuffixBytes(RawLines(file), k) <= |file|
  {
    hide RawLines;
    var raw := RawLines(file);
    RawLinesShape(file);
    if |raw| > k {
      assert raw == raw[..|raw| - k] + raw[|raw| - k..];
      ConcatAppend(raw[..|raw| - k], raw[|raw| - k..]);
    }
  }

  /** The last k lines can be told apart from what precedes them inside a window of
      w bytes: either the window is the whole file, or it also holds the line feed
      that ends the line before them. */
  predicate Fits(file: Bytes, k: nat, w: nat)
  {
    |file| <= w || TailBytes(file, k) < w
  }

  /** The greatest number of lines, n at most, that a window of w bytes yields. */
  function Reach(file: Bytes, n: nat, w: nat): (k: nat)
    ensures k <= n && k <= |RawLines(file)|
  {
    if n == 0 then 0
    else if n <= |RawLines(file)| && Fits(file, n, w) then n
    else Reach(file, n - 1, w)
  }

  lemma {:induction false} ReachFits(file: Bytes, n: nat, w: nat)
    ensures Reach(file, n, w) == 0 || Fits(file, Reach(file, n, w), w)
  {
    hide RawLines, Fits;
    if n > 0 && !(n <= |RawLines(file)| && Fits(file, n, w)) {
      ReachFits(file, n - 1, w);
    }
  }

  lemma {:induction false} ReachIsGreatest(file: Bytes, n: nat, w: nat, j: nat)
    requires Reach(file, n, w) < j <= n && j <= |RawLines(file)|
    ensures !Fits(file, j, w)
  {
    hide RawLines, Fits;
    if j < n {
      ReachIsGreatest(file, n - 1, w, j);
    }
  }

  lemma {:induction false} SuffixGrows(raw: seq<Bytes>, j: nat, k: nat)
    requires AreRawLines(raw)
    requires j < k <= |raw|
    ensures SuffixBytes(raw, j) < SuffixBytes(raw, k) <= |Concat(raw)|
    decreases k
  {
    var tail := raw[|raw| - k..];
    assert LastN(raw, k) == tail && LastN(raw, k - 1) == raw[|raw| - (k - 1)..];
    assert tail[0] == raw[|raw| - k] && IsRawLine(tail[0]);
    assert tail[1..] == raw[|raw| - (k - 1)..];
    assert raw == raw[..|raw| - k] + tail;
    ConcatAppend(raw[..|raw| - k], tail);
    if j < k - 1 {
      SuffixGrows(raw, j, k - 1);
    }
  }

  /** Each further line takes at least one more byte, and n lines never more than the file. */
  lemma {:induction false} TailBytesGrow(file: Bytes, j: nat, k: nat)
    requires j < k <= |RawLines(file)|
    ensures TailBytes(file, j) < TailBytes(file, k) <= |file|
  {
    RawLinesShape(file);
    SuffixGrows(RawLines(file), j, k);
  }

  /** `Reach` is determined by its two bounds. */
  lemma {:induction false} ReachIs(file: Bytes, n: nat, w: nat, k: nat)
    requires k <= n && k <= |RawLines(file)|
    requires k == 0 || Fits(file, k, w)
    requires k < n && k < |RawLines(file)| ==> !Fits(file, k + 1, w)
    ensures Reach(file, n, w) == k
  {
    hide RawLines, Reach, SuffixBytes;
    var r := Reach(file, n, w);
    ReachFits(file, n, w);
    if r < k {
      ReachIsGreatest(file, n, w, k);
    }
    if k + 1 < r {
      TailBytesGrow(file, k + 1, r);
    }
  }

  /** `read_tail_lines_from_file`: one window of `maxBytes` bytes at the end of the
      file, from which the line it begins in is dropped. */
  method ReadTailLinesFromFile(file: Bytes, maxLines: nat, maxBytes: nat) returns (lines: seq<Bytes>)
    ensures lines == LastN(Lines(file), Reach(file, maxLines, maxBytes))
  {
    hide RawLines, Reach, ChompAll;
    if maxLines == 0 || maxBytes == 0 {
      NothingFits(file, maxLines, maxBytes);
      return [];
    }
    var windowLen := if |file| < maxBytes then |file| else maxBytes;
    var windowStart := |file| - windowLen;
    var bytes := file[windowStart..];
    if windowStart > 0 {
      var index := FirstLF(bytes);
      if index == |bytes| {
        BlindWindowOf(file, bytes, maxLines);
        return [];
      }
      PartialWindowOf(file, bytes, index, maxLines);
      bytes := bytes[index + 1..];
    } else {
      WholeFileReach(file, maxLines, maxBytes);
      assert bytes == file;
    }
    lines := LastN(Lines(bytes), maxLines);
  }

  lemma {:induction false} NothingFits(file: Bytes, n: nat, w: nat)
    requires n == 0 || w == 0
    ensures LastN(Lines(file), Reach(file, n, w)) == []
  {
    if w == 0 && n > 0 {
      ReachIs(file, n, w, 0) by {
        if |RawLines(file)| > 0 {
          TailBytesGrow(file, 0, 1);
        }
      }
    }
  }

  lemma {:induction false} WholeFileReach(file: Bytes, n: nat, w: nat)
    requires |file| <= w
    ensures LastN(Lines(file), Reach(file, n, w)) == LastN(Lines(file), n)
  {
    ReachIs(file, n, w, if n < |RawLines(file)| then n else |RawLines(file)|);
  }

  /** A window with no line feed in it shows no whole line. */
  lemma {:induction false} BlindWindow(head: Bytes, bytes: Bytes, n: nat)
    requires bytes != [] && head != [] && NoLF(bytes)
    ensures Reach(head + bytes, n, |bytes|) == 0
  {
    LastLineCovers(head, bytes);
    LastOf(head + bytes);
    ReachIs(head + bytes, n, |bytes|, 0);
  }

  /** What is left of a window after its first line feed is exactly the lines that fit. */
  lemma {:induction false} WindowReach(head: Bytes, upto: Bytes, b: Bytes, n: nat)
    requires head != [] && IsRawLine(upto) && EndsLine(upto)
    ensures var file := head + upto + b;
            LastN(Lines(file), Reach(file, n, |upto| + |b|)) == LastN(Lines(b), n)
  {
    hide RawLines, Reach, LastN, Concat, ChompAll;
    var a := head + upto;
    var k := if n < |RawLines(b)| then n else |RawLines(b)|;
    assert Reach(a + b, n, |upto| + |b|) == k by {
      LastLineCovers(head, upto);
      ReachAfterCut(a, b, n, |upto| + |b|);
    }
    assert LastN(Lines(a + b), k) == LastN(Lines(b), n) by {
      RawLinesAppend(a, b);
      LastOfBoth(RawLines(a), RawLines(b), n);
    }
  }

  lemma {:induction false} LastOfBoth(ra: seq<Bytes>, rb: seq<Bytes>, n: nat)
    ensures LastN(ChompAll(ra + rb), if n < |rb| then n else |rb|) == LastN(ChompAll(rb), n)
  {
    hide ChompAll;
    ChompAllAppend(ra, rb);
  }

  lemma {:induction false} BlindWindowOf(file: Bytes, bytes: Bytes, n: nat)
    requires 0 < |bytes| < |file| && bytes == file[|file| - |bytes|..]
    requires FirstLF(bytes) == |bytes|
    ensures Reach(file, n, |bytes|) == 0
  {
    var head := file[..|file| - |bytes|];
    assert file == head + bytes && bytes[..|bytes|] == bytes;
    BlindWindow(head, bytes, n);
  }

  lemma {:induction false} PartialWindowOf(file: Bytes, bytes: Bytes, index: nat, n: nat)
    requires index < |bytes| < |file| && bytes == file[|file| - |bytes|..]
    requires NoLF(bytes[..index]) && bytes[index] == LF
    ensures LastN(Lines(file), Reach(file, n, |bytes|)) == LastN(Lines(bytes[index + 1..]), n)
  {
    hide RawLines, Reach, LastN, Concat, ChompAll;
    var head, upto, b := file[..|file| - |bytes|], bytes[..index + 1], bytes[index + 1..];
    assert IsRawLine(upto) && EndsLine(upto) by { assert upto[..index] == bytes[..index]; }
    assert file == head + upto + b;
    WindowReach(head, upto, b, n);
  }

  /** When the window begins inside the last line of `a`, it yields the lines of `b`. */
  lemma {:induction false} BytesAfterCut(a: Bytes, b: Bytes)
    requires EndsLine(a) && RawLines(a) != []
    ensures |RawLines(a + b)| == |RawLines(a)| + |RawLines(b)|
    ensures TailBytes(a + b, |RawLines(b)|) == |b|
    ensures TailBytes(a + b, |RawLines(b)| + 1) == |RawLines(a)[|RawLines(a)| - 1]| + |b|
  {
    hide RawLines;
    RawLinesAppend(a, b);
    RawLinesShape(b);
    var ra, rb := RawLines(a), RawLines(b);
    assert LastN(ra + rb, |rb|) == rb;
    var tail := [ra[|ra| - 1]] + rb;
    assert LastN(ra + rb, |rb| + 1) == tail;
    assert tail[1..] == rb;
  }

  lemma {:induction false} ReachAfterCut(a: Bytes, b: Bytes, n: nat, w: nat)
    requires EndsLine(a) && RawLines(a) != []
    requires |b| < w < |a + b|
    requires w <= |b| + |RawLines(a)[|RawLines(a)| - 1]|
    ensures Reach(a + b, n, w) == if n < |RawLines(b)| then n else |RawLines(b)|
  {
    hide RawLines, Reach, TailBytes;
    var file, rb := a + b, RawLines(b);
    BytesAfterCut(a, b);
    if n < |rb| {
      TailBytesGrow(file, n, |rb|);
      ReachIs(file, n, w, n);
    } else {
      ReachIs(file, n, w, |rb|);
    }
  }

  lemma {:induction false} LastOf(file: Bytes)
    requires RawLines(file) != []
    ensures TailBytes(file, 1) == |RawLines(file)[|RawLines(file)| - 1]|
  {
    var raw := RawLines(file);
    assert LastN(raw, 1) == [raw[|raw| - 1]];
    assert Concat([raw[|raw| - 1]]) == raw[|raw| - 1] + Concat([]);
  }

  /** `read_last_n_lines_from_file`: the growing window reads exactly what one window
      of the whole cap would, and stops at a window of at most twice the bytes of the
      lines asked for, however long the file is. `window` is the last size tried. */
  method ReadLastNLinesFromFile(file: Bytes, maxLines: nat, maxBytes: nat)
    returns (lines: seq<Bytes>, window: nat)
    ensures lines == LastN(Lines(file), Reach(file, maxLines, maxBytes))
    ensures window <= |file| && window <= maxBytes
    ensures window <= CHUNK || window <= 2 * TailBytes(file, maxLines)
  {
    if maxLines == 0 || maxBytes == 0 {
      NothingFits(file, maxLines, maxBytes);
      return [], 0;
    }
    if |file| == 0 {
      return [], 0;
    }
    var cap := if |file| < maxBytes then |file| else maxBytes;
    window := if CHUNK < cap then CHUNK else cap;
    while true
      invariant 0 < window <= cap
      invariant window <= CHUNK || window <= 2 * TailBytes(file, maxLines)
      decreases cap - window
    {
      lines := ReadTailLinesFromFile(file, maxLines, window);
      if |lines| >= maxLines || window >= cap {
        WiderWindow(file, maxLines, window, maxBytes);
        return;
      }
      ShortWindow(file, maxLines, window);
      window := if cap < 2 * window then cap else 2 * window;
    }
  }

  /** Once all n lines are found, or the window is the cap, a wider window adds nothing. */
  lemma {:induction false} WiderWindow(file: Bytes, n: nat, w: nat, cap: nat)
    requires w <= cap
    requires Reach(file, n, w) == n || w == cap || w == |file|
    ensures Reach(file, n, w) == Reach(file, n, cap)
  {
    if Reach(file, n, w) == n {
      ReachIs(file, n, cap, n);
    } else if w == |file| {
      var m := if n < |RawLines(file)| then n else |RawLines(file)|;
      ReachIs(file, n, w, m);
      ReachIs(file, n, cap, m);
    }
  }

  /** A window that came up short holds no more bytes than the lines asked for. */
  lemma {:induction false} ShortWindow(file: Bytes, n: nat, w: nat)
    requires 0 < w < |file|
    requires Reach(file, n, w) < n
    ensures w <= TailBytes(file, n)
  {
    var total := |RawLines(file)|;
    RawLinesShape(file);
    if n >= total {
      assert LastN(RawLines(file), n) == RawLines(file);
    }
  }

  /** The cap costs nothing exactly when the whole file fits under it, or when the
      lines asked for and the line feed before them do. */
  lemma {:induction false} CapBinds(file: Bytes, n: nat, maxBytes: nat)
    requires file != [] && n > 0
    ensures LastN(Lines(file), Reach(file, n, maxBytes)) == LastN(Lines(file), n)
            <==> |file| <= maxBytes || TailBytes(file, n) < maxBytes
  {
    hide RawLines, Reach, ChompAll, SuffixBytes;
    var total := |RawLines(file)|;
    assert total > 0 by {
      RawLinesShape(file);
      assert Concat([]) == [];
    }
    var m := if n < total then n else total;
    SameTail(file, n);
    ReachFits(file, n, maxBytes);
    if Fits(file, m, maxBytes) {
      ReachIs(file, n, maxBytes, m);
    }
  }

  lemma {:induction false} SameTail(file: Bytes, n: nat)
    ensures var m := if n < |RawLines(file)| then n else |RawLines(file)|;
            && TailBytes(file, n) == TailBytes(file, m)
            && LastN(Lines(file), n) == LastN(Lines(file), m)
  {
    hide RawLines, ChompAll;
  }
}
