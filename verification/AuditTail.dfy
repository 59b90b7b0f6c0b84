/** Reading the newest audit records back across the active log and its archives
    (crates/server/src/audit.rs, `read_recent_path`). JSON parsing is the parameter
    `parse`. */
module AuditTail {
  import opened Wrappers
  import opened Text
  import opened Tail

  const AUDIT_TAIL_MAX_BYTES: nat := 4 * 1024 * 1024

  /** `parse_jsonl_records`: lines that do not parse are dropped. */
  function ParseRecords<R>(parse: Bytes -> Option<R>, lines: seq<Bytes>): (records: seq<R>)
    ensures |records| <= |lines|
  {
    if lines == [] then []
    else (match parse(lines[0]) case None => [] case Some(record) => [record]) + ParseRecords(parse, lines[1..])
  }

  /** The records one file contributes when `limit` are still wanted. */
  function FileRecords<R>(parse: Bytes -> Option<R>, file: Bytes, limit: nat): (records: seq<R>)
    ensures |records| <= limit
  {
    ParseRecords(parse, LastN(Lines(file), Reach(file, limit, AUDIT_TAIL_MAX_BYTES)))
  }

  /** What `read_recent_path` returns for snapshot files listed newest first. */
  function Recent<R>(parse: Bytes -> Option<R>, files: seq<Bytes>, limit: nat): (records: seq<R>)
    ensures |records| <= limit
  {
    if files == [] || limit == 0 then []
    else
      var records := FileRecords(parse, files[0], limit);
      if |files[0]| > AUDIT_TAIL_MAX_BYTES && |records| < limit then records
      else Recent(parse, files[1..], limit - |records|) + records
  }

  /** Every record of the log, oldest first. */
  function AllRecords<R>(parse: Bytes -> Option<R>, files: seq<Bytes>): seq<R>
  {
    if files == [] then [] else AllRecords(parse, files[1..]) + ParseRecords(parse, Lines(files[0]))
  }

  predicate EveryLineParses<R>(parse: Bytes -> Option<R>, files: seq<Bytes>)
  {
    forall f, k :: 0 <= f < |files| && 0 <= k < |Lines(files[f])| ==> parse(Lines(files[f])[k]).Some?
  }

  function Reversed<R>(chunks: seq<seq<R>>): seq<R>
  {
    if chunks == [] then [] else Reversed(chunks[1..]) + chunks[0]
  }

  lemma {:induction false} ReversedSnoc<R>(chunks: seq<seq<R>>, last: seq<R>)
    ensures Reversed(chunks + [last]) == last + Reversed(chunks)
  {
    if chunks == [] {
      assert [last][1..] == [];
      assert Reversed([last]) == Reversed([]) + last;
    } else {
      assert (chunks + [last])[1..] == chunks[1..] + [last];
      ReversedSnoc(chunks[1..], last);
    }
  }

  method ReadRecentPath<R>(parse: Bytes -> Option<R>, files: seq<Bytes>, limit: nat) returns (records: seq<R>)
    ensures records == Recent(parse, files, limit)
  {
    hide FileRecords, Recent, Reach, RawLines, ChompAll, ParseRecords, Reversed;
    if limit == 0 {
      NothingAsked(parse, files);
      return [];
    }
    var remaining: nat := limit;
    var newestFirst: seq<seq<R>> := [];
    ghost var left := Recent(parse, files, limit);
    NoChunks<R>();
    var i := 0;
    while i < |files|
      invariant 0 <= i <= |files|
      invariant left == Recent(parse, files[i..], remaining)
      invariant Recent(parse, files, limit) == left + Reversed(newestFirst)
    {
      if remaining == 0 {
        NothingAsked(parse, files[i..]);
        break;
      }
      var file := files[i];
      var lines, _ := ReadLastNLinesFromFile(file, remaining, AUDIT_TAIL_MAX_BYTES);
      var found := ParseRecords(parse, lines);
      NextFile(parse, files, i, remaining);
      ReversedSnoc(newestFirst, found);
      newestFirst := newestFirst + [found];
      if |file| > AUDIT_TAIL_MAX_BYTES && |found| < remaining {
        left := [];
        break;
      }
      remaining := remaining - |found|;
      i := i + 1;
      left := Recent(parse, files[i..], remaining);
    }
    NothingAsked(parse, []);
    assert i == |files| ==> files[i..] == [];
    records := OldestFirst(newestFirst);
  }

  method OldestFirst<R>(newestFirst: seq<seq<R>>) returns (records: seq<R>)
    ensures records == Reversed(newestFirst)
  {
    records := [];
    var j := |newestFirst|;
    assert newestFirst[..j] == newestFirst;
    while j > 0
      invariant 0 <= j <= |newestFirst|
      invariant records + Reversed(newestFirst[..j]) == Reversed(newestFirst)
    {
      j := j - 1;
      ReversedSnoc(newestFirst[..j], newestFirst[j]);
      assert newestFirst[..j + 1] == newestFirst[..j] + [newestFirst[j]];
      records := records + newestFirst[j];
    }
  }

  lemma NoChunks<R>()
    ensures Reversed<R>([]) == []
  {
  }

  lemma NothingAsked<R>(parse: Bytes -> Option<R>, files: seq<Bytes>)
    ensures Recent(parse, files, 0) == []
    ensures forall n :: Recent(parse, [], n) == []
  {
  }

  lemma {:induction false} NextFile<R>(parse: Bytes -> Option<R>, files: seq<Bytes>, i: nat, n: nat)
    requires i < |files| && n > 0
    ensures var found := ParseRecords(parse, LastN(Lines(files[i]), Reach(files[i], n, AUDIT_TAIL_MAX_BYTES)));
            && |found| <= n
            && Recent(parse, files[i..], n)
               == if |files[i]| > AUDIT_TAIL_MAX_BYTES && |found| < n then found
                  else Recent(parse, files[i + 1..], n - |found|) + found
  {
    hide Reach, RawLines, ChompAll, ParseRecords;
    assert files[i..][1..] == files[i + 1..];
  }

  lemma {:induction false} ParseLastN<R>(parse: Bytes -> Option<R>, lines: seq<Bytes>, n: nat)
    requires forall k :: 0 <= k < |lines| ==> parse(lines[k]).Some?
    ensures |ParseRecords(parse, lines)| == |lines|
    ensures ParseRecords(parse, LastN(lines, n)) == LastN(ParseRecords(parse, lines), n)
  {
    if lines != [] {
      ParseLastN(parse, lines[1..], n);
      if |lines| > n {
        assert LastN(lines, n) == LastN(lines[1..], n);
      }
    }
  }

  /** The records of one file whose lines all parse: a newest run of it, complete
      unless the request or the byte cap cuts it short. */
  lemma {:induction false} FileRecordsAreNewest<R>(parse: Bytes -> Option<R>, file: Bytes, limit: nat)
    requires EveryLineParses(parse, [file])
    ensures var all := ParseRecords(parse, Lines(file));
            && |all| == |Lines(file)|
            && FileRecords(parse, file, limit) == LastN(all, Reach(file, limit, AUDIT_TAIL_MAX_BYTES))
    ensures |FileRecords(parse, file, limit)| == Reach(file, limit, AUDIT_TAIL_MAX_BYTES) <= |Lines(file)|
    ensures |file| <= AUDIT_TAIL_MAX_BYTES ==>
      FileRecords(parse, file, limit) == LastN(ParseRecords(parse, Lines(file)), limit)
  {
    hide RawLines, Reach;
    var lines := Lines(file);
    assert forall k :: 0 <= k < |lines| ==> parse(lines[k]).Some? by { assert [file][0] == file; }
    ParseLastN(parse, lines, Reach(file, limit, AUDIT_TAIL_MAX_BYTES));
    if |file| <= AUDIT_TAIL_MAX_BYTES {
      ParseLastN(parse, lines, limit);
      WholeFileReach(file, limit, AUDIT_TAIL_MAX_BYTES);
    }
  }

  lemma LastNAppend<R>(older: seq<R>, mine: seq<R>, n: nat)
    ensures n <= |mine| ==> LastN(older + mine, n) == LastN(mine, n)
    ensures n >= |mine| ==> LastN(older + mine, n) == LastN(older, n - |mine|) + mine
  {
  }

  /** It is exactly the last `limit` records when no file exceeds the cap. */
  lemma {:induction false} RecentIsLast<R>(parse: Bytes -> Option<R>, files: seq<Bytes>, limit: nat)
    requires EveryLineParses(parse, files)
    requires forall f :: 0 <= f < |files| ==> |files[f]| <= 4_194_304
    ensures Recent(parse, files, limit) == LastN(AllRecords(parse, files), limit)
  {
    hide FileRecords, Reach, RawLines, ChompAll, ParseRecords;
    if files != [] && limit > 0 {
      var file, rest := files[0], files[1..];
      assert EveryLineParses(parse, [file]) && EveryLineParses(parse, rest);
      FileRecordsAreNewest(parse, file, limit);
      RecentIsLast(parse, rest, limit - |FileRecords(parse, file, limit)|);
      LastNAppend(AllRecords(parse, rest), ParseRecords(parse, Lines(file)), limit);
    }
  }

  /** A read that comes up short stopped inside a file longer than the cap, with
      every newer record returned and, from that file, all the cap lets be read. */
  lemma {:induction false} RecentStopsAtCap<R>(parse: Bytes -> Option<R>, files: seq<Bytes>, limit: nat)
    returns (f: nat)
    requires EveryLineParses(parse, files)
    requires |Recent(parse, files, limit)| < limit && |Recent(parse, files, limit)| < |AllRecords(parse, files)|
    ensures f < |files| && |files[f]| > 4_194_304
    ensures var newer := |AllRecords(parse, files[..f])|;
            && newer <= limit
            && |Recent(parse, files, limit)| == newer + Reach(files[f], limit - newer, AUDIT_TAIL_MAX_BYTES)
  {
    hide FileRecords, Reach, RawLines, ChompAll, ParseRecords;
    var file, rest := files[0], files[1..];
    assert EveryLineParses(parse, [file]) && EveryLineParses(parse, rest);
    FileRecordsAreNewest(parse, file, limit);
    var records := FileRecords(parse, file, limit);
    if |file| > AUDIT_TAIL_MAX_BYTES && |records| < limit {
      f := 0;
      assert files[..f] == [];
    } else {
      f := RecentStopsAtCap(parse, rest, limit - |records|);
      assert files[..f + 1][1..] == rest[..f] && files[..f + 1][0] == file;
      f := f + 1;
    }
  }

  /** No record is passed over: each file from which records older than it were
      also wanted and found has given all of its own. */
  predicate NothingHidden<R>(parse: Bytes -> Option<R>, files: seq<Bytes>, limit: nat)
  {
    files == [] || limit == 0 ||
    var found := |FileRecords(parse, files[0], limit)|;
    || (|files[0]| > AUDIT_TAIL_MAX_BYTES && found < limit)
    || (&& NothingHidden(parse, files[1..], limit - found)
        && (found == |ParseRecords(parse, Lines(files[0]))| || Recent(parse, files[1..], limit - found) == []))
  }

  lemma {:induction false} ParseAppend<R>(parse: Bytes -> Option<R>, a: seq<Bytes>, b: seq<Bytes>)
    ensures ParseRecords(parse, a + b) == ParseRecords(parse, a) + ParseRecords(parse, b)
  {
    if a == [] {
      assert a + b == b;
    } else {
      assert (a + b)[1..] == a[1..] + b;
      ParseAppend(parse, a[1..], b);
    }
  }

  /** Whatever the lines hold, one file gives its newest records. */
  lemma {:induction false} FileRecordsAreSuffix<R>(parse: Bytes -> Option<R>, file: Bytes, limit: nat)
    ensures var all, found := ParseRecords(parse, Lines(file)), FileRecords(parse, file, limit);
            |found| <= |all| && found == LastN(all, |found|)
  {
    hide RawLines, Reach, ParseRecords;
    var lines, n := Lines(file), Reach(file, limit, AUDIT_TAIL_MAX_BYTES);
    var cut := if |lines| <= n then 0 else |lines| - n;
    assert lines == lines[..cut] + lines[cut..];
    ParseAppend(parse, lines[..cut], lines[cut..]);
    assert LastN(lines, n) == lines[cut..];
  }

  /** Nothing is made up: what a read returns is in the log. */
  lemma {:induction false} RecentIsAmong<R>(parse: Bytes -> Option<R>, files: seq<Bytes>, limit: nat, k: nat)
    requires k < |Recent(parse, files, limit)|
    ensures Recent(parse, files, limit)[k] in AllRecords(parse, files)
  {
    hide FileRecords, ParseRecords;
    var records := FileRecords(parse, files[0], limit);
    FileRecordsAreSuffix(parse, files[0], limit);
    if !(|files[0]| > AUDIT_TAIL_MAX_BYTES && |records| < limit)
      && k < |Recent(parse, files[1..], limit - |records|)| {
      RecentIsAmong(parse, files[1..], limit - |records|, k);
    }
  }

  lemma {:induction false} DistinctParts<R>(a: seq<R>, b: seq<R>)
    requires NoDuplicates(a + b)
    ensures NoDuplicates(a)
    ensures forall i, j :: 0 <= i < |a| && 0 <= j < |b| ==> a[i] != b[j]
  {
    var c := a + b;
    assert forall i :: 0 <= i < |a| ==> c[i] == a[i];
    forall i, j | 0 <= i < |a| && 0 <= j < |b| ensures a[i] != b[j] {
      assert c[i] == a[i] && c[|a| + j] == b[j];
    }
  }

  /** The tail of `all + mine` of the length of `older + mine[cut..]`, when `older`
      is a non-empty choice from `all`. */
  lemma {:induction false} SplitNewest<R>(all: seq<R>, mine: seq<R>, older: seq<R>, cut: nat)
    requires cut <= |mine| && older != [] && |older| <= |all|
    ensures cut == 0 ==>
      (older + mine[cut..] == LastN(all + mine, |older + mine[cut..]|) <==> older == LastN(all, |older|))
    ensures cut > 0 && older[|older| - 1] in all && NoDuplicates(all + mine) ==>
      older + mine[cut..] != LastN(all + mine, |older + mine[cut..]|)
  {
    var found := older + mine[cut..];
    var newest := LastN(all + mine, |found|);
    if cut == 0 {
      assert mine[0..] == mine;
      LastNAppend(all, mine, |found|);
      assert newest[..|older|] == LastN(all, |older|) && found[..|older|] == older;
    } else if older[|older| - 1] in all && NoDuplicates(all + mine) {
      DistinctParts(all, mine);
      assert newest[|older| - 1] == mine[cut - 1];
      assert found[|older| - 1] == older[|older| - 1];
    }
  }

  lemma {:induction false} RecentIsShort<R>(parse: Bytes -> Option<R>, files: seq<Bytes>, limit: nat)
    ensures |Recent(parse, files, limit)| <= |AllRecords(parse, files)|
  {
    hide FileRecords, ParseRecords;
    if files != [] && limit > 0 {
      FileRecordsAreSuffix(parse, files[0], limit);
      RecentIsShort(parse, files[1..], limit - |FileRecords(parse, files[0], limit)|);
    }
  }

  /** Exactly when a read is a contiguous newest run of the log: when nothing is
      passed over. Only the converse needs the records to be distinct. */
  lemma {:induction false} RecentIsNewestWhen<R>(parse: Bytes -> Option<R>, files: seq<Bytes>, limit: nat)
    ensures var found, all := Recent(parse, files, limit), AllRecords(parse, files);
            && (NothingHidden(parse, files, limit) ==> found == LastN(all, |found|))
            && (NoDuplicates(all) ==> (found == LastN(all, |found|) <==> NothingHidden(parse, files, limit)))
  {
    hide FileRecords, Reach, RawLines, ChompAll, ParseRecords, NoDuplicates, LastN;
    if files == [] || limit == 0 {
      EmptyIsNewest(AllRecords(parse, files));
    } else {
      var file, rest := files[0], files[1..];
      var records, mine := FileRecords(parse, file, limit), ParseRecords(parse, Lines(file));
      var all := AllRecords(parse, rest);
      FileRecordsAreSuffix(parse, file, limit);
      var cut := |mine| - |records|;
      NewestFrom(mine, cut);
      LastNAppend(all, mine, |records|);
      if |file| > AUDIT_TAIL_MAX_BYTES && |records| < limit {
        assert AllRecords(parse, files) == all + mine;
      } else {
        var older := Recent(parse, rest, limit - |records|);
        RecentIsNewestWhen(parse, rest, limit - |records|);
        RecentIsShort(parse, rest, limit - |records|);
        if older == [] {
          EmptyIsNewest(all);
          assert [] + records == records;
          if NoDuplicates(all + mine) { DistinctParts(all, mine); }
        } else {
          RecentIsAmong(parse, rest, limit - |records|, |older| - 1);
          SplitNewest(all, mine, older, cut);
          if NoDuplicates(all + mine) { DistinctParts(all, mine); }
        }
      }
    }
  }

  lemma EmptyIsNewest<R>(all: seq<R>)
    ensures LastN(all, 0) == []
  {
  }

  lemma NewestFrom<R>(all: seq<R>, cut: nat)
    requires cut <= |all|
    ensures LastN(all, |all| - cut) == all[cut..]
  {
  }

  /** When every stored line parses, the read returns a contiguous newest run of the log. */
  lemma {:induction false} RecentIsNewest<R>(parse: Bytes -> Option<R>, files: seq<Bytes>, limit: nat)
    requires EveryLineParses(parse, files)
    ensures NothingHidden(parse, files, limit)
    ensures Recent(parse, files, limit) == LastN(AllRecords(parse, files), |Recent(parse, files, limit)|)
  {
    hide FileRecords, Reach, RawLines, ChompAll, ParseRecords;
    RecentIsNewestWhen(parse, files, limit);
    if files != [] && limit > 0 {
      var file, rest := files[0], files[1..];
      assert EveryLineParses(parse, [file]) && EveryLineParses(parse, rest);
      FileRecordsAreNewest(parse, file, limit);
      RecentIsNewest(parse, rest, limit - |FileRecords(parse, file, limit)|);
      NothingAsked(parse, rest);
    }
  }

  /** The guard of `RecentIsNewest` is needed: the last line of the active log does
      not parse, so a request for one record passes over the newest record "a" and
      returns "b" from the archive. */
  lemma UnparsableLineSkipsARecord(parse: Bytes -> Option<Bytes>, good: Bytes, bad: Bytes, kept: Bytes)
    returns (current: Bytes, archive: Bytes)
    requires good == [97] && bad == [33] && kept == [98]
    requires parse(bad) == None && parse(good) == Some(good) && parse(kept) == Some(kept)
    ensures Lines(current) == [good, bad] && Lines(archive) == [kept]
    ensures Recent(parse, [current, archive], 1) == [kept] && AllRecords(parse, [current, archive]) == [kept, good]
    ensures !NothingHidden(parse, [current, archive], 1)
  {
    hide Recent, AllRecords, NothingHidden;
    current, archive := [97, LF, 33, LF], [98, LF];
    TwoLines();
    assert ParseRecords(parse, []) == [];
    assert ParseRecords(parse, [bad]) == [] && ParseRecords(parse, [kept]) == [kept] by {
      assert [bad][1..] == [] && [kept][1..] == [];
    }
    assert ParseRecords(parse, [good, bad]) == [good] by { assert [good, bad][1..] == [bad]; }
    assert FileRecords(parse, current, 1) == [] by {
      WholeFileReach(current, 1, AUDIT_TAIL_MAX_BYTES);
      assert LastN([good, bad], 1) == [bad];
    }
    assert FileRecords(parse, archive, 1) == [kept] by {
      WholeFileReach(archive, 1, AUDIT_TAIL_MAX_BYTES);
    }
    SkippedRecord(parse, current, archive, good, kept);
    RecentIsNewestWhen(parse, [current, archive], 1);
  }

  lemma SkippedRecord(parse: Bytes -> Option<Bytes>, current: Bytes, archive: Bytes, good: Bytes, kept: Bytes)
    requires |current| < 4_194_304 && |archive| < 4_194_304
    requires FileRecords(parse, current, 1) == [] && FileRecords(parse, archive, 1) == [kept]
    requires ParseRecords(parse, Lines(current)) == [good] && ParseRecords(parse, Lines(archive)) == [kept]
    ensures Recent(parse, [current, archive], 1) == [kept]
    ensures AllRecords(parse, [current, archive]) == [kept, good]
  {
    hide FileRecords, ParseRecords;
    assert [current, archive][1..] == [archive] && [archive][1..] == [];
    assert AllRecords(parse, []) == [] && Recent(parse, [], 0) == [];
    assert AllRecords(parse, [archive]) == [] + [kept];
    assert Recent(parse, [archive], 1) == [] + [kept];
  }

  lemma TwoLines()
    ensures Lines([97, LF, 33, LF]) == [[97], [33]] && Lines([98, LF]) == [[98]]
  {
    hide RawLines;
    var a: Bytes, b: Bytes, c: Bytes := [97, LF], [33, LF], [98, LF];
    assert Concat([]) == [] && [b][1..] == [] && [a, b][1..] == [b];
    assert Concat([b]) == b;
    assert Concat([a, b]) == a + b == [97, LF, 33, LF];
    assert AreRawLines([a, b]);
    RawLinesUnique([a, b]);
    OneRawLine(c);
    assert Chomp(a) == [97] && Chomp(b) == [33] && Chomp(c) == [98];
    assert ChompAll([]) == [] && ChompAll([b]) == [Chomp(b)] + [] && [c][1..] == [];
  }
}
