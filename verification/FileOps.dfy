/** Reading the last lines of a text file in crates/agent/src/tools/file_ops.rs:
    small files whole, large ones by a backward scan in chunks. */
module FileOps {
  import opened Wrappers
  import opened Text
  import opened Utf8
  import opened Tail

  const DEFAULT_MAX_BYTES: nat := 512_000
  const DEFAULT_TAIL_LINES: nat := 200
  const CHUNK_SIZE: nat := 64 * 1024

  datatype FileContent = FileContent(content: Bytes, totalLines: nat, truncated: bool, bytesRead: nat)

  // ---- cutting a string at a char boundary ------------------------------------

  /** The last char boundary at or before `end`. */
  function BoundaryBefore(text: Bytes, end: nat): (b: nat)
    requires end <= |text|
    ensures b <= end && IsBoundary(text, b)
  {
    if IsBoundary(text, end) then end else BoundaryBefore(text, end - 1)
  }

  function Clamp(text: Bytes, max: nat): (clamped: Bytes)
    ensures |clamped| <= max
    ensures |text| <= max ==> clamped == text
  {
    if |text| <= max then text else text[..BoundaryBefore(text, max)]
  }

  /** The `while !content.is_char_boundary(end)` loop and the `truncate` after it. */
  method Truncate(text: Bytes, max: nat) returns (clamped: Bytes)
    ensures clamped == Clamp(text, max)
  {
    if |text| <= max {
      return text;
    }
    var end := max;
    while !IsBoundary(text, end) && end > 0
      invariant 0 <= end <= max && BoundaryBefore(text, max) == BoundaryBefore(text, end)
    {
      end := end - 1;
    }
    clamped := text[..end];
  }

  /** What is left is the longest prefix within the limit that ends at a char boundary. */
  lemma {:induction false} ClampIsLongest(text: Bytes, max: nat)
    ensures Clamp(text, max) <= text && IsBoundary(text, |Clamp(text, max)|)
    ensures forall k :: 0 <= k <= max && k <= |text| && IsBoundary(text, k) ==> k <= |Clamp(text, max)|
  {
    if |text| > max {
      BoundaryIsLast(text, max);
    }
  }

  lemma {:induction false} BoundaryIsLast(text: Bytes, end: nat)
    requires end <= |text|
    ensures forall k :: BoundaryBefore(text, end) < k <= end ==> !IsBoundary(text, k)
  {
    if !IsBoundary(text, end) {
      BoundaryIsLast(text, end - 1);
    }
  }

  // ---- small files --------------------------------------------------------------

  /** The last n lines of a text, joined. */
  function TailText(text: Bytes, n: nat): Bytes { Join(LastN(Lines(text), n)) }

  /** What reading the whole file and slicing its lines gives. */
  function Whole(file: Bytes, n: nat, max: nat): FileContent
  {
    var text := Lossy(file);
    var content := Clamp(TailText(text, n), max);
    FileContent(content, |Lines(text)|, |Lines(text)| > n || |TailText(text, n)| > max, |content|)
  }

  // ---- the backward scan ----------------------------------------------------------

  /** `seek` and `read_exact` into the front of the reused chunk buffer. */
  method ReadExact(file: Bytes, start: nat, buffer: array<Byte>, len: nat)
    requires start + len <= |file| && len <= buffer.Length
    modifies buffer
    ensures buffer[..len] == file[start..start + len]
  {
    forall i | 0 <= i < len {
      buffer[i] := file[start + i];
    }
  }

  /** Scans backwards from `searchEnd`, a chunk at a time, for the n-th line feed. The
      start found has exactly n - 1 line feeds after it and one right before it; with
      fewer than n line feeds it is the start of the file. */
  method FindTailStart(file: Bytes, searchEnd: nat, n: nat) returns (startPos: nat, reachedStart: bool)
    requires n > 0 && 0 < searchEnd <= |file|
    ensures startPos <= searchEnd
    ensures if CountLF(file[..searchEnd]) >= n
            then startPos > 0 && file[startPos - 1] == LF && CountLF(file[startPos..searchEnd]) == n - 1
            else startPos == 0 && reachedStart
  {
    hide CountLF;
    var pos, linesFound := searchEnd, 0;
    startPos, reachedStart := 0, false;
    var chunk := new Byte[CHUNK_SIZE];
    CountEmpty(file, searchEnd);
    while pos > 0 && linesFound < n
      invariant 0 <= pos <= searchEnd && 0 <= linesFound <= n
      invariant linesFound < n ==> linesFound == CountLF(file[pos..searchEnd]) && startPos == 0
      invariant linesFound == n ==> Found(file, startPos, searchEnd, n)
      invariant pos == 0 ==> linesFound == n
    {
      var readLen := if pos < CHUNK_SIZE then pos else CHUNK_SIZE;
      var readStart := pos - readLen;
      ReadExact(file, readStart, chunk, readLen);
      var idx := readLen;
      while idx > 0
        invariant 0 <= idx <= readLen && 0 <= linesFound < n && startPos == 0
        invariant chunk[..readLen] == file[readStart..pos]
        invariant linesFound == CountLF(file[readStart + idx..searchEnd])
      {
        idx := idx - 1;
        var b := chunk[idx];
        assert b == chunk[..readLen][idx];
        CountBack(file, readStart + idx, searchEnd);
        if b == LF {
          linesFound := linesFound + 1;
          if linesFound == n {
            startPos := readStart + idx + 1;
            break;
          }
        }
      }
      if readStart == 0 {
        reachedStart := true;
        if linesFound < n {
          startPos := 0;
        }
        break;
      }
      pos := readStart;
    }
    assert linesFound < n ==> file[0..searchEnd] == file[..searchEnd];
    if linesFound == n {
      FoundCount(file, startPos, searchEnd, n);
    }
  }

  ghost predicate Found(file: Bytes, start: nat, searchEnd: nat, n: nat)
  {
    0 < start <= searchEnd <= |file| && file[start - 1] == LF && CountLF(file[start..searchEnd]) + 1 == n
  }

  lemma {:induction false} CountEmpty(file: Bytes, end: nat)
    requires end <= |file|
    ensures CountLF(file[end..end]) == 0
  {
  }

  lemma {:induction false} CountBack(file: Bytes, i: nat, end: nat)
    requires i < end <= |file|
    ensures CountLF(file[i..end]) == CountLF(file[i + 1..end]) + (if file[i] == LF then 1 else 0)
  {
    assert file[i..end][1..] == file[i + 1..end];
  }

  lemma {:induction false} FoundCount(file: Bytes, start: nat, searchEnd: nat, n: nat)
    requires Found(file, start, searchEnd, n)
    ensures CountLF(file[..searchEnd]) >= n
  {
    CountBack(file, start - 1, searchEnd);
    assert file[..searchEnd] == file[..start - 1] + file[start - 1..searchEnd];
    CountLFAppend(file[..start - 1], file[start - 1..searchEnd]);
  }

  // ---- large files ----------------------------------------------------------------

  /** Where the terminator of the last line begins, or the end of the file. */
  function SearchEnd(file: Bytes): (e: nat)
    requires |file| >= 2
    ensures 0 <= e <= |file|
  {
    if file[|file| - 1] != LF then |file|
    else if file[|file| - 2] == CR then |file| - 2
    else |file| - 1
  }

  /** The text read back from `start`, with the bytes left over from a scalar that a
      byte limit cut through skipped. */
  function TailSlice(file: Bytes, start: nat): Bytes
    requires start <= |file|
  {
    if start > 0 then SkipContinuation(file[start..]) else file
  }

  /** The last `max` bytes of a file, without the scalar their limit cut through. */
  function LastBytes(file: Bytes, max: nat): Bytes
  {
    if |file| <= max then file else TailSlice(file, |file| - max)
  }

  /** What the scan makes of a well-formed file: the last n lines when their raw text
      fits, otherwise the lines of the last `max` bytes. */
  function Scan(file: Bytes, n: nat, max: nat): Bytes
  {
    if TailBytes(file, n) <= max then TailText(file, n) else TailText(LastBytes(file, max), n)
  }

  /** Where the scan starts to read: at the last n lines, or as far back as the limit allows. */
  function ScanStart(file: Bytes, n: nat, max: nat): (start: nat)
    ensures start <= |file|
  {
    if TailBytes(file, n) > max then |file| - max else |file| - TailBytes(file, n)
  }

  /** What the scan returns for any bytes. */
  function Large(file: Bytes, n: nat, max: nat): FileContent
  {
    var start := ScanStart(file, n, max);
    var lines := Lines(Lossy(TailSlice(file, start)));
    var joined := Join(LastN(lines, n));
    var content := Clamp(joined, max);
    FileContent(content, if start == 0 then |lines| else |LastN(lines, n)|,
                |Lines(file)| > n || TailBytes(file, n) > max || |joined| > max, |content|)
  }

  method SkipLeading(bytes: Bytes) returns (slice: Bytes)
    ensures slice == SkipContinuation(bytes)
  {
    slice := bytes;
    while slice != [] && IsContinuation(slice[0])
      invariant SkipContinuation(bytes) == SkipContinuation(slice)
      decreases |slice|
    {
      slice := slice[1..];
    }
  }

  method ReadLarge(file: Bytes, n: nat, max: nat) returns (r: FileContent)
    requires |file| > CHUNK_SIZE && n > 0
    ensures r == Large(file, n, max)
  {
    hide RawLines, ChompAll, Join, Lossy, Valid, SuffixBytes, CountLF, TailSlice, LastN, BoundaryBefore;
    var searchEnd := SearchEnd(file);
    var found, reachedStart := FindTailStart(file, searchEnd, n);
    TailFound(file, found, n);
    var startPos := found;
    var truncated := !reachedStart || startPos > 0;
    if |file| - startPos > max {
      startPos := |file| - max;
      truncated := true;
    }
    var tail := file[startPos..];
    var slice := tail;
    if startPos > 0 {
      slice := SkipLeading(tail);
    }
    assert slice == TailSlice(file, startPos) by { SliceAt(file, startPos); }
    var lines := Lines(Lossy(slice));
    var joined := Join(LastN(lines, n));
    truncated := truncated || |joined| > max;
    var content := Truncate(joined, max);
    var totalLines := if reachedStart && startPos == 0 then |lines| else |LastN(lines, n)|;
    r := FileContent(content, totalLines, truncated, |content|);
  }

  lemma {:induction false} SliceAt(file: Bytes, start: nat)
    requires start <= |file|
    ensures TailSlice(file, start) == if start > 0 then SkipContinuation(file[start..]) else file[start..]
  {
    assert file[0..] == file;
  }

  /** For a well-formed file the scan returns the last n lines when their raw text fits,
      otherwise the lines of the last `max` bytes, and counts the lines it returns. */
  lemma {:induction false} LargeIsScan(file: Bytes, n: nat, max: nat)
    requires Valid(file) && n > 0
    ensures Large(file, n, max).content == Scan(file, n, max)
    ensures Large(file, n, max).truncated <==> |Lines(file)| > n || TailBytes(file, n) > max
    ensures Large(file, n, max).totalLines
            == |LastN(Lines(if TailBytes(file, n) <= max then file else LastBytes(file, max)), n)|
  {
    hide Lines, TailText, Large, LastBytes, Lossy, LastN, Valid, TailBytes, Clamp;
    if TailBytes(file, n) <= max {
      FittingTail(file, n, max);
    } else {
      LongTail(file, n, max);
    }
  }

  lemma {:induction false} FittingTail(file: Bytes, n: nat, max: nat)
    requires Valid(file) && n > 0 && TailBytes(file, n) <= max
    ensures Large(file, n, max).content == TailText(file, n)
    ensures Large(file, n, max).truncated <==> |Lines(file)| > n
    ensures Large(file, n, max).totalLines == |LastN(Lines(file), n)|
  {
    hide Valid, Lossy, Join, Lines, SkipContinuation, TailBytes, TailSlice;
    var start := ScanStart(file, n, max);
    TailBeginsLine(file, n);
    CleanTail(file, start, n);
    CleanSlice(file, start, n);
  }

  lemma {:induction false} LongTail(file: Bytes, n: nat, max: nat)
    requires Valid(file) && n > 0 && TailBytes(file, n) > max
    ensures Large(file, n, max).content == TailText(LastBytes(file, max), n)
    ensures Large(file, n, max).truncated
    ensures Large(file, n, max).totalLines == |LastN(Lines(LastBytes(file, max)), n)|
  {
    hide Valid, Lossy, Join, Lines, SkipContinuation, TailBytes, TailSlice, LastN;
    var start := ScanStart(file, n, max);
    CleanSlice(file, start, n);
  }

  lemma {:induction false} ConcatEndsLine(raw: seq<Bytes>)
    requires forall k :: 0 <= k < |raw| ==> raw[k] != [] && EndsLine(raw[k])
    ensures EndsLine(Concat(raw))
    ensures raw != [] ==> Concat(raw) != []
  {
    if raw != [] {
      ConcatEndsLine(raw[1..]);
      assert raw[0] + Concat(raw[1..]) == Concat(raw);
    }
  }

  /** The last n lines begin where a line begins. */
  lemma {:induction false} TailBeginsLine(file: Bytes, n: nat)
    requires n > 0
    ensures var start := |file| - TailBytes(file, n);
            && (start > 0 ==> file[start - 1] == LF)
            && (start == 0 ==> |Lines(file)| <= n)
            && Lines(file[start..]) == LastN(Lines(file), n)
  {
    hide RawLines, ChompAll, Concat;
    var raw := RawLines(file);
    RawLinesShape(file);
    var k := if |raw| <= n then 0 else |raw| - n;
    assert raw == raw[..k] + raw[k..];
    ConcatAppend(raw[..k], raw[k..]);
    ConcatEndsLine(raw[..k]);
    ChompAllAppend(raw[..k], raw[k..]);
    RawLinesUnique(raw[k..]);
    assert LastN(raw, n) == raw[k..];
    assert file[|file| - |Concat(raw[k..])|..] == Concat(raw[k..]);
    if k == 0 {
      assert Concat(raw[..0]) == [] by { NothingConcat(raw[..0]); }
    }
  }

  lemma NothingConcat(raw: seq<Bytes>)
    requires raw == []
    ensures Concat(raw) == []
  {
  }

  /** The start the scan finds is the start of the last n lines. */
  lemma {:induction false} TailFound(file: Bytes, start: nat, n: nat)
    requires |file| >= 2 && n > 0 && start <= SearchEnd(file)
    requires if CountLF(file[..SearchEnd(file)]) >= n
             then start > 0 && file[start - 1] == LF && CountLF(file[start..SearchEnd(file)]) == n - 1
             else start == 0
    ensures |file| - start == TailBytes(file, n)
    ensures start > 0 <==> |Lines(file)| > n
    ensures start > 0 ==> file[start - 1] == LF
    ensures LastN(Lines(file), n) == Lines(file[start..])
    ensures |Lines(file[start..])| <= n
  {
    hide RawLines, ChompAll, SuffixBytes, CountLF, LastN, TailBytes;
    var e := SearchEnd(file);
    LinesFrom(file, start);
    if start > 0 {
      StartsAfter(file[..start], file[start..], n);
      assert file == file[..start] + file[start..];
      CountBack(file, start - 1, e);
    } else {
      assert file[start..] == file && file[..e] == file[start..e];
      AllRaw(file, n);
    }
  }

  lemma {:induction false} LinesFrom(file: Bytes, start: nat)
    requires |file| >= 2 && start <= SearchEnd(file)
    ensures |RawLines(file[start..])| == CountLF(file[start..SearchEnd(file)]) + (if start == |file| then 0 else 1)
  {
    hide RawLines, CountLF;
    var e := SearchEnd(file);
    var t := file[start..];
    assert t == file[start..e] + file[e..];
    CountLFAppend(file[start..e], file[e..]);
    Terminator(file);
    RawLinesCount(t);
  }

  lemma {:induction false} StartsAfter(a: Bytes, t: Bytes, n: nat)
    requires a != [] && a[|a| - 1] == LF && |RawLines(t)| == n
    ensures TailBytes(a + t, n) == |t|
    ensures LastN(Lines(a + t), n) == Lines(t) && |Lines(a + t)| > n
  {
    hide RawLines, ChompAll, SuffixBytes, CountLF, LastN, TailBytes;
    LastLines(a, t, n);
    LastRaw(a, t, n);
    RawLinesCount(a);
    SomeLF(a);
  }

  lemma {:induction false} SomeLF(a: Bytes)
    requires a != [] && a[|a| - 1] == LF
    ensures CountLF(a) > 0
  {
    CountNoLF(a);
  }

  lemma {:induction false} Terminator(file: Bytes)
    requires |file| >= 2
    ensures CountLF(file[SearchEnd(file)..]) == if file[|file| - 1] == LF then 1 else 0
  {
    var e := SearchEnd(file);
    if e == |file| - 2 {
      assert file[e..] == [CR, LF] && [CR, LF][1..] == [LF] && [LF][1..] == [];
      assert CountLF([LF]) == 1;
    } else if e == |file| - 1 {
      assert file[e..] == [LF] && [LF][1..] == [];
    }
  }

  lemma {:induction false} LastRaw(a: Bytes, t: Bytes, n: nat)
    requires EndsLine(a) && |RawLines(t)| == n
    ensures TailBytes(a + t, n) == |t|
  {
    hide RawLines;
    RawLinesAppend(a, t);
    RawLinesShape(t);
    assert LastN(RawLines(a) + RawLines(t), n) == RawLines(t);
  }

  lemma {:induction false} AllRaw(file: Bytes, n: nat)
    requires |RawLines(file)| <= n
    ensures TailBytes(file, n) == |file| && LastN(Lines(file), n) == Lines(file)
  {
    hide RawLines;
    RawLinesShape(file);
  }

  /** A slice of a well-formed file is well formed, and decoding leaves it alone. */
  lemma {:induction false} CleanSlice(file: Bytes, start: nat, n: nat)
    requires Valid(file) && start <= |file|
    ensures var slice := TailSlice(file, start);
            && Lossy(slice) == slice
            && |TailText(slice, n)| <= |slice| <= |file| - start
  {
    hide Valid, Lossy, Join, RawLines, ChompAll, SkipContinuation;
    var slice := TailSlice(file, start);
    SkipAfterCut(file, start);
    LossyIsIdentity(slice);
    SkipShrinks(file[start..]);
    TailTextFits(slice, n);
  }

  lemma {:induction false} SkipShrinks(s: Bytes)
    ensures |SkipContinuation(s)| <= |s|
  {
    if s != [] && IsContinuation(s[0]) {
      SkipShrinks(s[1..]);
    }
  }

  lemma {:induction false} TailTextFits(text: Bytes, n: nat)
    ensures |TailText(text, n)| <= |text|
  {
    hide RawLines, ChompAll, Join, Concat;
    var raw := RawLines(text);
    RawLinesShape(text);
    var k := if |raw| <= n then 0 else |raw| - n;
    assert raw == raw[..k] + raw[k..];
    ConcatAppend(raw[..k], raw[k..]);
    assert ChompAll(raw)[k..] == ChompAll(raw[k..]) by { ChompAllAppend(raw[..k], raw[k..]); }
    JoinFits(raw[k..]);
  }

  lemma {:induction false} CleanTail(file: Bytes, start: nat, n: nat)
    requires Valid(file) && start <= |file| && (start > 0 ==> file[start - 1] == LF)
    ensures TailSlice(file, start) == file[start..]
  {
    hide Valid, SkipContinuation;
    SkipAfterCut(file, start);
    assert file[0..] == file;
  }

  // ---- the whole tool -------------------------------------------------------------

  function Limit(maxBytes: Option<nat>): (max: nat)
    ensures max > 0
  {
    match maxBytes case Some(b) => (if b > 0 then b else DEFAULT_MAX_BYTES) case None => DEFAULT_MAX_BYTES
  }

  function TailCount(tailLines: Option<nat>): nat
  {
    match tailLines case Some(n) => n case None => DEFAULT_TAIL_LINES
  }

  /** `tail_lines = 0`: the front of the file, up to the byte limit. */
  function Head(file: Bytes, max: nat): FileContent
  {
    var truncated := |file| > max;
    var text := Lossy(if truncated then file[..max] else file);
    var content := if truncated then Clamp(text, max) else text;
    FileContent(content, |Lines(content)|, truncated, |content|)
  }

  method ReadHead(file: Bytes, max: nat) returns (r: FileContent)
    ensures r == Head(file, max)
  {
    var toRead := if |file| < max + 1 then |file| else max + 1;
    var buffer := file[..toRead];
    var truncated := |buffer| > max || |file| > max;
    if |buffer| > max {
      buffer := buffer[..max];
    }
    assert buffer == if |file| > max then file[..max] else file;
    var content := Lossy(buffer);
    if truncated {
      content := Truncate(content, max);
    }
    r := FileContent(content, |Lines(content)|, truncated, |content|);
  }

  method ReadSmall(file: Bytes, n: nat, max: nat) returns (r: FileContent)
    ensures r == Whole(file, n, max)
  {
    hide Lossy, RawLines, ChompAll, Join;
    var lines := Lines(Lossy(file));
    var content := Join(LastN(lines, n));
    var truncated := |lines| > n || |content| > max;
    content := Truncate(content, max);
    r := FileContent(content, |lines|, truncated, |content|);
  }

  lemma {:induction false} BoundaryShift(s: Bytes, n: nat, k: nat)
    requires n <= k <= |s| && (n < |s| ==> !IsContinuation(s[n]))
    ensures BoundaryBefore(s, k) == n + BoundaryBefore(s[n..], k - n)
  {
    if k > n && k < |s| {
      assert IsBoundary(s, k) <==> IsBoundary(s[n..], k - n);
      if !IsBoundary(s, k) {
        BoundaryShift(s, n, k - 1);
      }
    }
  }

  lemma {:induction false} InsideScalar(s: Bytes, k: nat)
    requires 0 < k < ScalarLen(s)
    ensures BoundaryBefore(s, k) == 0 && k <= 3
    ensures Lossy(s[..k]) == REPLACEMENT
  {
    ScalarShape(s, k);
    if k > 1 {
      InsideScalar(s, k - 1);
    }
    assert BrokenLen(s[..k]) == k;
    assert s[..k][k..] == [];
  }

  lemma {:induction false} LossyFront(s: Bytes, k: nat)
    requires 0 < ScalarLen(s) <= k <= |s|
    ensures Lossy(s[..k]) == s[..ScalarLen(s)] + Lossy(s[ScalarLen(s)..][..k - ScalarLen(s)])
  {
    hide ScalarLen, Lossy;
    var n, f := ScalarLen(s), s[..k];
    ScalarOfFront(s, k);
    assert f[..n] == s[..n];
    assert f[n..] == s[n..][..k - n];
    LossyScalar(f);
  }

  lemma {:induction false} ScalarOfFront(s: Bytes, k: nat)
    requires 0 < ScalarLen(s) <= k <= |s|
    ensures ScalarLen(s[..k]) == ScalarLen(s)
  {
  }

  lemma {:induction false} LossyScalar(s: Bytes)
    requires ScalarLen(s) > 0
    ensures Lossy(s) == s[..ScalarLen(s)] + Lossy(s[ScalarLen(s)..])
  {
    hide ScalarLen;
  }

  /** Decoding the front of a well-formed file replaces the part of a scalar that
      the cut leaves at its end by one replacement character. */
  lemma {:induction false} LossyCut(s: Bytes, k: nat)
    requires Valid(s) && k <= |s|
    ensures BoundaryBefore(s, k) + 3 >= k
    ensures Lossy(s[..k]) == s[..BoundaryBefore(s, k)] + (if IsBoundary(s, k) then [] else REPLACEMENT)
  {
    hide Lossy, ScalarLen, Valid, BoundaryBefore;
    if k == 0 {
      assert Lossy([]) == [] by { hide *; NothingLossy(); }
      assert s[..k] == [];
    } else {
      ValidTail(s);
      var n := ScalarLen(s);
      if k < n {
        InsideScalar(s, k);
        ScalarShape(s, k);
      } else {
        ValidStart(s[n..]);
        BoundaryShift(s, n, k);
        LossyFront(s, k);
        LossyCut(s[n..], k - n);
        FrontThen(s, n, BoundaryBefore(s[n..], k - n), if IsBoundary(s, k) then [] else REPLACEMENT);
      }
    }
  }

  lemma NothingLossy()
    ensures Lossy([]) == []
  {
  }

  lemma {:induction false} FrontThen(s: Bytes, n: nat, b: nat, end: Bytes)
    requires n + b <= |s|
    ensures s[..n] + (s[n..][..b] + end) == s[..n + b] + end
  {
  }

  /** So reading the front of a well-formed file gives the file up to the last char
      boundary within the limit, except when the limit cuts off three bytes of a scalar:
      the replacement character for them fits exactly and stays at the end. */
  lemma {:induction false} HeadIsPrefixWhen(file: Bytes, max: nat)
    requires Valid(file)
    ensures |Head(file, max).content| <= max
    ensures Head(file, max).content == Clamp(file, max)
            <==> |file| <= max || BoundaryBefore(file, max) + 3 != max
  {
    hide Valid, Lossy, RawLines, ChompAll;
    if |file| <= max {
      LossyIsIdentity(file);
    } else {
      LossyCut(file, max);
      var b := BoundaryBefore(file, max);
      var text := Lossy(file[..max]);
      if b < max && b + 3 > max {
        BoundaryInReplacement(file[..b], max - b);
      }
    }
  }

  lemma {:induction false} BoundaryInReplacement(front: Bytes, k: nat)
    requires 0 < k < 3
    ensures BoundaryBefore(front + REPLACEMENT, |front| + k) == |front|
  {
    var text := front + REPLACEMENT;
    assert IsContinuation(text[|front| + 1]) && IsContinuation(text[|front| + 2]) && !IsContinuation(text[|front|]);
    assert BoundaryBefore(text, |front|) == |front|;
    assert BoundaryBefore(text, |front| + 1) == |front|;
    assert k == 2 ==> BoundaryBefore(text, |front| + 2) == |front|;
  }

  /** Four bytes, limit three: the three bytes read are a replacement character in the
      result, where the front of the file within the limit is empty. */
  lemma {:induction false} HeadKeepsReplacement()
    ensures var file: Bytes := [0xF0, 0x9F, 0x98, 0x80];
            Valid(file) && Head(file, 3).content == REPLACEMENT && Clamp(file, 3) == []
  {
    var file: Bytes := [0xF0, 0x9F, 0x98, 0x80];
    assert ScalarLen(file) == 4;
    assert file[4..] == [];
    InsideScalar(file, 3);
  }

  /** The front of a file is within the limit exactly when the file is longer than the
      limit, so that the text is clamped, or decoding it whole does not outgrow the limit. */
  lemma {:induction false} HeadFitsWhen(file: Bytes, max: nat)
    ensures |Head(file, max).content| <= max <==> |file| > max || |file| + Growth(file) <= max
  {
    hide Lossy, RawLines, ChompAll, Growth;
    LossyGrows(file);
  }

  /** One byte that is not UTF-8, limit one: three bytes are returned. */
  lemma {:induction false} HeadCanExceedLimit()
    ensures Head([0xFF], 1).content == REPLACEMENT && |REPLACEMENT| > 1
  {
    assert Lossy([0xFF]) == REPLACEMENT + Lossy([0xFF][1..]);
  }

  lemma EmptyFile(n: nat, max: nat)
    ensures Whole([], n, max) == FileContent([], 0, false, 0) == Head([], max)
  {
  }

  /** `read_text_file`, with None for an argument that is absent. */
  method ReadTextFile(file: Bytes, tailLines: Option<nat>, maxBytes: Option<nat>) returns (r: FileContent)
    ensures var n := if tailLines.Some? then tailLines.value else 200;
            var max := if maxBytes.Some? && maxBytes.value > 0 then maxBytes.value else 512_000;
            && r.bytesRead == |r.content|
            && (n == 0 ==> r == Head(file, max))
            && (n > 0 ==> |r.content| <= max)
            && (n > 0 && |file| <= 65_536 ==> r == Whole(file, n, max))
            && (n > 0 && |file| > 65_536 ==> r == Large(file, n, max))
  {
    hide Lossy, RawLines, ChompAll, Join, Valid, SkipContinuation, SuffixBytes;
    var n, max := TailCount(tailLines), Limit(maxBytes);
    if |file| == 0 {
      EmptyFile(n, max);
      return FileContent([], 0, false, 0);
    }
    if n == 0 {
      r := ReadHead(file, max);
    } else if |file| <= CHUNK_SIZE {
      r := ReadSmall(file, n, max);
    } else {
      r := ReadLarge(file, n, max);
    }
  }

  /** So for a well-formed file whose last lines fit, the backward scan agrees with
      the small-file path: same text, same verdict on truncation. */
  lemma {:induction false} ScanAgreesWithWhole(file: Bytes, n: nat, max: nat)
    requires Valid(file) && TailBytes(file, n) <= max
    ensures Whole(file, n, max).content == TailText(file, n)
    ensures Whole(file, n, max).truncated <==> |Lines(file)| > n
  {
    hide Valid, Lossy, RawLines, ChompAll, Join, Concat;
    LossyIsIdentity(file);
    TailTextFitsTail(file, n);
  }

  // ---- when the joined lines fit but their raw text does not ------------------------

  /** Cut at least one byte off the front of a text and its joined lines change, except
      when the text starts with an empty "\r\n" line and just the "\r" goes. */
  lemma {:induction false} CutChangesJoin(t: Bytes, k: nat)
    requires 0 < k < |t|
    ensures Join(Lines(t[k..])) == Join(Lines(t)) <==> k == 1 && t[..2] == [CR, LF]
  {
    hide RawLines, ChompAll, Join;
    var i := FirstLF(t);
    if k <= i < |t| {
      CutFirstLine(t, i, k);
    } else {
      DropsALine(t, i, k);
      assert t[..i] == t || t[0] == LF || k > 1;
      assert k == 1 ==> t[..2] != [CR, LF] by { assert t[..2][0] == t[0] && t[..2][1] == t[1]; }
    }
  }

  /** The cut falls into the first line: the rest of the lines stay as they were. */
  lemma {:induction false} CutFirstLine(t: Bytes, i: nat, k: nat)
    requires 0 < k <= i == FirstLF(t) < |t|
    ensures Join(Lines(t[k..])) == Join(Lines(t)) <==> k == 1 && t[..2] == [CR, LF]
  {
    hide Lines, Join, Chomp;
    var first, rest := t[..i + 1], t[i + 1..];
    var cut := first[k..];
    assert NoLF(first[..i]) by { assert first[..i] == t[..i]; }
    assert NoLF(cut[..i - k]) by { assert cut[..i - k] == t[..i][k..]; }
    FirstThenRest(first, rest);
    FirstThenRest(cut, rest);
    assert t == first + rest;
    assert t[k..] == cut + rest;
    JoinCons(Chomp(first), Chomp(cut), Lines(rest));
    ChompCut(first, k);
    assert t[..2] == first[..2];
  }

  /** The length of a join tells the length of its first line, given the others. */
  lemma {:induction false} JoinCons(a: Bytes, b: Bytes, rest: seq<Bytes>)
    ensures |Join([a] + rest)| - |a| == |Join([b] + rest)| - |b|
    ensures a == b ==> Join([a] + rest) == Join([b] + rest)
  {
    assert ([a] + rest)[1..] == rest;
    assert ([b] + rest)[1..] == rest;
  }

  /** Cutting bytes off the front of a line shortens it, unless only the "\r" of an empty one goes. */
  lemma {:induction false} ChompCut(line: Bytes, k: nat)
    requires IsRawLine(line) && EndsLine(line) && 0 < k < |line|
    ensures |line| >= 2
    ensures if k == 1 && line[..2] == [CR, LF] then Chomp(line) == Chomp(line[k..]) == []
            else |Chomp(line[k..])| < |Chomp(line)|
  {
    var cut := line[k..];
    assert cut[|cut| - 1] == LF;
    assert |line| >= 2 && line[..2] == [CR, LF] <==> line[0] == CR && line[1] == LF;
    assert line[1] == LF ==> |line| == 2 by {
      if |line| > 2 { assert line[..|line| - 1][1] != LF; }
    }
  }

  lemma {:induction false} FirstThenRest(line: Bytes, rest: Bytes)
    requires IsRawLine(line) && EndsLine(line)
    ensures Lines(line + rest) == [Chomp(line)] + Lines(rest)
  {
    RawLinesAppend(line, rest);
    OneRawLine(line);
    assert ([line] + RawLines(rest))[1..] == RawLines(rest);
  }

  /** The cut takes the whole first line, or part of the only one. */
  lemma {:induction false} DropsALine(t: Bytes, i: nat, k: nat)
    requires 0 < k < |t| && i == FirstLF(t) && (k > i || i == |t|)
    ensures Join(Lines(t[k..])) != Join(Lines(t))
  {
    hide RawLines, ChompAll, Join;
    assert t == t[..k] + t[k..];
    CountLFAppend(t[..k], t[k..]);
    if i < |t| {
      CountNoLF(t[..k]);
      assert t[..k][i] == LF;
      LinesCount(t);
      LinesCount(t[k..]);
    } else {
      assert t[..i] == t;
      assert forall j :: 0 <= j < |t[k..]| ==> t[k..][j] == t[j + k];
      OneLine(t);
      OneLine(t[k..]);
    }
  }

  lemma {:induction false} OneLine(t: Bytes)
    requires t != [] && NoLF(t)
    ensures Join(Lines(t)) == t
  {
    OneRawLine(t);
    assert [t][1..] == [];
  }

  /** The line feeds of the joined lines tell how many lines there were. */
  lemma {:induction false} LinesCount(t: Bytes)
    requires t != []
    ensures CountLF(Join(Lines(t))) == CountLF(t) + (if EndsLine(t) then 0 else 1) - 1
  {
    hide RawLines, ChompAll, Join, IsRawLine;
    var raw := RawLines(t);
    RawLinesCount(t);
    RawLinesShape(t);
    assert raw != [] by { assert Concat([]) == []; }
    forall j | 0 <= j < |raw| ensures NoLF(ChompAll(raw)[j]) {
      ChompAllAt(raw, j);
      ChompHasNoLF(raw[j]);
    }
    JoinCount(ChompAll(raw));
  }

  /** The raw text of the last n lines. */
  lemma {:induction false} TailRaw(file: Bytes, n: nat) returns (t: Bytes)
    requires n > 0
    ensures |t| == TailBytes(file, n) && t == file[|file| - |t|..]
    ensures TailText(file, n) == Join(Lines(t)) && |Lines(t)| <= n
    ensures t != [] ==> RawLines(t) == LastN(RawLines(file), n)
  {
    hide RawLines, ChompAll, Join, Concat;
    var raw := RawLines(file);
    RawLinesShape(file);
    var k := if |raw| <= n then 0 else |raw| - n;
    assert raw == raw[..k] + raw[k..];
    ConcatAppend(raw[..k], raw[k..]);
    ChompAllAppend(raw[..k], raw[k..]);
    t := Concat(raw[k..]);
    RawLinesUnique(raw[k..]);
    if t == [] {
      assert RawLines([]) == [] by { RawLinesCount([]); }
    }
  }

  lemma {:induction false} SuffixLines(t: Bytes, k: nat, n: nat)
    requires k < |t| && |Lines(t)| <= n
    ensures TailText(t[k..], n) == Join(Lines(t[k..]))
  {
    hide RawLines, ChompAll, Join;
    assert t == t[..k] + t[k..];
    CountLFAppend(t[..k], t[k..]);
    RawLinesCount(t);
    RawLinesCount(t[k..]);
  }

  lemma {:induction false} SkipIsSuffix(s: Bytes)
    ensures |SkipContinuation(s)| <= |s| && SkipContinuation(s) == s[|s| - |SkipContinuation(s)|..]
    ensures s != [] && !IsContinuation(s[0]) ==> SkipContinuation(s) == s
    ensures s != [] && !IsContinuation(s[|s| - 1]) ==> SkipContinuation(s) != []
  {
    if s != [] && IsContinuation(s[0]) {
      SkipIsSuffix(s[1..]);
    }
  }

  lemma {:induction false} TextNotBlank(t: Bytes)
    requires t != [] && t[|t| - 1] != LF
    ensures Join(Lines(t)) != []
  {
    hide RawLines, ChompAll, Join;
    LinesCount(t);
    CountNoLF(t);
    if NoLF(t) {
      OneLine(t);
    }
  }

  lemma {:induction false} StartsWith(t: Bytes)
    requires t != []
    ensures [[CR, LF]] <= RawLines(t) <==> |t| >= 2 && t[..2] == [CR, LF]
  {
    var i := FirstLF(t);
    var first := RawLines(t)[0];
    assert first == if i == |t| then t else t[..i + 1];
    assert [[CR, LF]] <= RawLines(t) <==> first == [CR, LF];
    if |t| >= 2 && t[..2] == [CR, LF] {
      assert t[..2][0] == CR && t[..2][1] == LF;
      assert i == 1;
    }
  }

  /** The scan compares the byte limit with the raw text of the lines, terminators
      included, and the small-file path with the joined lines. When the joined lines fit,
      the scan still returns them exactly when the raw text fits too, or when it is one
      byte too long and the first of the lines is an empty one ended by "\r\n". */
  lemma {:induction false} ScanIsTailWhen(file: Bytes, n: nat, max: nat)
    requires n > 0 && max > 0
    requires |TailText(file, n)| <= max
    ensures Scan(file, n, max) == TailText(file, n)
            <==> || TailBytes(file, n) <= max
                 || (TailBytes(file, n) == max + 1 && [[CR, LF]] <= LastN(RawLines(file), n))
  {
    hide Lines, Join, LastN, SkipContinuation, RawLines, TailBytes, TailText, IsContinuation;
    if TailBytes(file, n) > max {
      var t := TailRaw(file, n);
      StartsWith(t);
      assert file[|file| - max..] == t[|t| - max..];
      var s := SkippedWindow(t, max);
      WindowChangesTail(t, s, n);
    }
  }

  /** The window of `max` bytes, without a partial scalar, is one byte short of "\r\n..."
      just when the limit is. */
  lemma {:induction false} SkippedWindow(t: Bytes, max: nat) returns (s: Bytes)
    requires 0 < max < |t|
    ensures s == SkipContinuation(t[|t| - max..])
    ensures |s| < |t| && s == t[|t| - |s|..]
    ensures s == [] ==> t[|t| - 1] != LF
    ensures t[..2] == [CR, LF] ==> (|s| + 1 == |t| <==> |t| == max + 1)
  {
    hide SkipContinuation;
    var window := t[|t| - max..];
    s := SkipContinuation(window);
    SkipIsSuffix(window);
    assert t[..2] == [CR, LF] ==> t[..2][1] == t[1] == LF;
    assert |t| == max + 1 ==> window[0] == t[1];
  }

  /** A shorter suffix of some lines joins to something else, except when it drops only
      the "\r" of an empty first line. */
  lemma {:induction false} WindowChangesTail(t: Bytes, s: Bytes, n: nat)
    requires |Lines(t)| <= n && |s| < |t| && s == t[|t| - |s|..]
    requires s == [] ==> t[|t| - 1] != LF
    ensures TailText(s, n) == Join(Lines(t)) <==> |s| + 1 == |t| >= 2 && t[..2] == [CR, LF]
  {
    hide Lines, Join, LastN, TailText;
    if s == [] {
      TextNotBlank(t);
      NoLines(n);
    } else {
      CutChangesJoin(t, |t| - |s|);
      SuffixLines(t, |t| - |s|, n);
    }
  }

  lemma {:induction false} NoLines(n: nat)
    ensures TailText([], n) == []
  {
  }

  /** A large file that ends in "\nab\n", one line wanted, limit two: the line fits, and
      the scan returns only its "b". */
  lemma {:induction false} ScanCutsAFittingLine() returns (file: Bytes)
    ensures |file| > CHUNK_SIZE && Valid(file)
    ensures TailText(file, 1) == [97, 98] && Scan(file, 1, 2) == Large(file, 1, 2).content == [98]
  {
    hide RawLines, ChompAll, Valid, CountLF, SkipContinuation, Large, SuffixBytes;
    var head: Bytes := seq(CHUNK_SIZE, i => 97);
    head := head + [LF];
    var line: Bytes, cut: Bytes := [97, 98, LF], [98, LF];
    file := head + line;
    AsciiIsValid(file);
    OneLineText(line);
    OneLineText(cut);
    assert Chomp(line) == [97, 98] && Chomp(cut) == [98];
    StartsAfter(head, line, 1);
    assert file[|file| - 2..] == cut;
    assert SkipContinuation(cut) == cut by { SkipIsSuffix(cut); }
    LargeIsScan(file, 1, 2);
  }

  lemma {:induction false} OneLineText(line: Bytes)
    requires IsRawLine(line)
    ensures |RawLines(line)| == 1 && Lines(line) == [Chomp(line)]
    ensures TailText(line, 1) == Chomp(line)
  {
    OneRawLine(line);
    assert [line][1..] == [];
  }

  lemma {:induction false} TailTextFitsTail(text: Bytes, n: nat)
    ensures |TailText(text, n)| <= TailBytes(text, n)
  {
    hide RawLines, ChompAll, Join, Concat;
    var raw := RawLines(text);
    RawLinesShape(text);
    var k := if |raw| <= n then 0 else |raw| - n;
    assert raw == raw[..k] + raw[k..];
    assert ChompAll(raw)[k..] == ChompAll(raw[k..]) by { ChompAllAppend(raw[..k], raw[k..]); }
    assert LastN(raw, n) == raw[k..];
    JoinFits(raw[k..]);
  }
}
