/** Opening the audit files while a rotation moves them
    (crates/server/src/audit.rs, `open_snapshot_files`). */
module AuditSnapshot {
  import opened Wrappers
  import opened AuditDisk
  import opened AuditWriter
  import opened Text
  import opened XYArithmetic

  /** What tells two open handles apart: the identity of the file behind the name. */
  type Inode = nat
  type Directory = map<nat, Inode>

  datatype Snapshot = Snapshot(current: Option<Inode>, archives: seq<Inode>)
  datatype Opening = Opened(snapshot: Snapshot) | OpenFailed(generation: nat)

  /** The directory after k of the single steps of one rotation of `retain` files: the
      removal of the oldest, the renames from the top down, and the new active log. */
  function Layout(orig: Directory, retain: nat, created: Inode, k: nat): Directory
    requires retain >= 1
  {
    if k == 0 then orig
    else if k <= retain then Shifted(orig, retain, retain - k)
    else Shifted(orig, retain, 0)[0 := created]
  }

  /** Each step of `Layout` is the one call the rotation makes there. */
  lemma LayoutSteps(orig: Directory, retain: nat, created: Inode, k: nat)
    requires retain >= 1 && k <= retain
    ensures Layout(orig, retain, created, k + 1)
            == if k == 0 then Remove(orig, retain - 1)
               else if k < retain then Rename(Layout(orig, retain, created, k), retain - k - 1)
               else Layout(orig, retain, created, k)[0 := created]
  {
    if k == 0 {
      RemoveShifts(orig, retain);
    } else if k < retain {
      RenameShifts(orig, retain, retain - k - 1);
    }
  }

  /** `dirs(g)` is the directory at the moment generation g is opened, and `broken(g)`
      says that opening it fails for another reason than absence. */
  method OpenSnapshotFiles(dirs: nat -> Directory, broken: nat -> bool) returns (r: Opening)
    ensures r == Open(dirs, broken)
  {
    if broken(0) {
      return OpenFailed(0);
    }
    var current := if 0 in dirs(0) then Some(dirs(0)[0]) else None;
    var archives: seq<Inode> := [];
    for generation := 1 to LAST_ARCHIVE + 1
      invariant Open(dirs, broken) == OpenFrom(dirs, broken, current, archives, generation)
    {
      if broken(generation) {
        return OpenFailed(generation);
      }
      if generation !in dirs(generation) {
        break;
      }
      var file := dirs(generation)[generation];
      var duplicate := current == Some(file) || file in archives;
      if !duplicate {
        archives := archives + [file];
      }
    }
    return Opened(Snapshot(current, archives));
  }

  function Open(dirs: nat -> Directory, broken: nat -> bool): Opening
  {
    if broken(0) then OpenFailed(0)
    else OpenFrom(dirs, broken, if 0 in dirs(0) then Some(dirs(0)[0]) else None, [], 1)
  }

  function OpenFrom(dirs: nat -> Directory, broken: nat -> bool, current: Option<Inode>, archives: seq<Inode>,
                    g: nat): Opening
    decreases LAST_ARCHIVE + 1 - g
  {
    if g > LAST_ARCHIVE then Opened(Snapshot(current, archives))
    else if broken(g) then OpenFailed(g)
    else if g !in dirs(g) then Opened(Snapshot(current, archives))
    else
      var file := dirs(g)[g];
      var next := if current == Some(file) || file in archives then archives else archives + [file];
      OpenFrom(dirs, broken, current, next, g + 1)
  }

  lemma OpenStep(dirs: nat -> Directory, broken: nat -> bool, current: Option<Inode>, archives: seq<Inode>, g: nat)
    ensures OpenFrom(dirs, broken, current, archives, g)
            == if g > LAST_ARCHIVE then Opened(Snapshot(current, archives))
               else if broken(g) then OpenFailed(g)
               else if g !in dirs(g) then Opened(Snapshot(current, archives))
               else
                 var file := dirs(g)[g];
                 var next := if current == Some(file) || file in archives then archives else archives + [file];
                 OpenFrom(dirs, broken, current, next, g + 1)
  {
  }

  // ---- no file twice -----------------------------------------------------------

  predicate OpenedOnce(snapshot: Snapshot)
  {
    && (forall i, j :: 0 <= i < j < |snapshot.archives| ==> snapshot.archives[i] != snapshot.archives[j])
    && (forall i :: 0 <= i < |snapshot.archives| ==> snapshot.current != Some(snapshot.archives[i]))
  }

  lemma {:induction false} OpenFromOnce(dirs: nat -> Directory, broken: nat -> bool, current: Option<Inode>,
                                        archives: seq<Inode>, g: nat)
    requires OpenedOnce(Snapshot(current, archives))
    ensures var r := OpenFrom(dirs, broken, current, archives, g);
            r.Opened? ==> OpenedOnce(r.snapshot) && r.snapshot.current == current && archives <= r.snapshot.archives
    decreases LAST_ARCHIVE + 1 - g
  {
    if g <= LAST_ARCHIVE && !broken(g) && g in dirs(g) {
      var file := dirs(g)[g];
      var next := if current == Some(file) || file in archives then archives else archives + [file];
      OpenFromOnce(dirs, broken, current, next, g + 1);
    }
  }

  /** Whatever happens to the directory between the calls, no file is opened twice. */
  lemma {:induction false} SnapshotOpensOnce(dirs: nat -> Directory, broken: nat -> bool, snapshot: Snapshot)
    requires Open(dirs, broken) == Opened(snapshot)
    ensures OpenedOnce(snapshot)
  {
    hide OpenFrom;
    OpenFromOnce(dirs, broken, if 0 in dirs(0) then Some(dirs(0)[0]) else None, [], 1);
  }

  // ---- rotations in between ----------------------------------------------------

  /** The files in the order of their creation: `file(n)` is the active log that the
      n-th rotation creates, and `file(-g)` is what generation g was at the start. */
  ghost predicate Numbered(orig: Directory, retain: nat, file: int -> Inode)
  {
    && Within(orig, retain)
    && (forall g :: g in orig ==> orig[g] == file(-g))
    && (forall m, n :: file(m) == file(n) ==> m == n)
  }

  /** The directory after q whole rotations. */
  function Rotated(orig: Directory, retain: nat, file: int -> Inode, q: nat): Directory
    requires retain >= 1
  {
    if q == 0 then orig else Layout(Rotated(orig, retain, file, q - 1), retain, file(q), retain + 1)
  }

  /** The directory after k single steps of one rotation after another. */
  function After(orig: Directory, retain: nat, file: int -> Inode, k: nat): Directory
    requires retain >= 1
  {
    var q := k / (retain + 1);
    Layout(Rotated(orig, retain, file, q), retain, file(q + 1), k % (retain + 1))
  }

  /** The number of the file that generation g names after k steps: as many rotations
      have passed it as fit whole into k + g steps. */
  function Number(retain: nat, k: nat, g: nat): int { (k + g) / (retain + 1) - g }

  /** No file is named g after k steps: it is beyond the retained ones, or just vacated
      by a rotation, or there never was such a file. */
  predicate Missing(orig: Directory, retain: nat, k: nat, g: nat)
  {
    || g >= retain
    || (k % (retain + 1) > 0 && k % (retain + 1) + g == retain)
    || (Number(retain, k, g) <= 0 && -Number(retain, k, g) !in orig)
  }

  lemma {:induction false} RotationAt(base: Directory, retain: nat, created: Inode, g: nat)
    requires retain >= 1
    ensures var dir := Layout(base, retain, created, retain + 1);
            if g == 0 then g in dir && dir[g] == created
            else if g < retain then (g in dir <==> g - 1 in base) && (g in dir ==> dir[g] == base[g - 1])
            else g in dir <==> g in base
  {
  }

  lemma {:induction false} RotatedAt(orig: Directory, retain: nat, file: int -> Inode, q: nat, g: nat)
    requires retain >= 1 && Numbered(orig, retain, file)
    ensures var dir := Rotated(orig, retain, file, q);
            && (g in dir <==> g < retain && (g < q || g - q in orig))
            && (g in dir ==> dir[g] == file(q - g))
  {
    hide Layout;
    if q > 0 {
      RotationAt(Rotated(orig, retain, file, q - 1), retain, file(q), g);
      RotatedAt(orig, retain, file, q - 1, g);
      if g > 0 { RotatedAt(orig, retain, file, q - 1, g - 1); }
    }
  }

  lemma {:induction false} Passed(retain: nat, k: nat, g: nat)
    requires g <= retain
    ensures (k + g) / (retain + 1) == k / (retain + 1) + (if k % (retain + 1) + g > retain then 1 else 0)
  {
    var n := retain + 1;
    var q, r := k / n, k % n;
    assert k == q * n + r;
    if r + g >= n {
      assert k + g == (q + 1) * n + (r + g - n);
      DivUnique(q + 1, n, r + g - n);
    } else {
      DivUnique(q, n, r + g);
    }
  }

  lemma {:induction false} DivMonotone(x: nat, y: nat, n: nat)
    requires n > 0 && x <= y
    ensures x / n <= y / n
  {
    assert x / n * n <= x <= y < y / n * n + n;
    Product(y / n, 1, n);
    FactorBelow(x / n, y / n + 1, n);
  }

  /** The directory at every single step of any number of rotations. */
  lemma {:induction false} AfterAt(orig: Directory, retain: nat, file: int -> Inode, k: nat, g: nat)
    requires retain >= 1 && Numbered(orig, retain, file)
    ensures var dir := After(orig, retain, file, k);
            && (g in dir <==> !Missing(orig, retain, k, g))
            && (g in dir ==> dir[g] == file(Number(retain, k, g)))
  {
    hide Rotated, Numbered, Layout, Missing;
    var q, r := k / (retain + 1), k % (retain + 1);
    var base := Rotated(orig, retain, file, q);
    LayoutAt(base, retain, file(q + 1), r, g);
    RotatedAt(orig, retain, file, q, g);
    if g > 0 { RotatedAt(orig, retain, file, q, g - 1); }
    MissingAt(orig, retain, k, g);
  }

  /** One generation in the middle of a rotation: moved already, just vacated, or as it was. */
  lemma LayoutAt(base: Directory, retain: nat, created: Inode, r: nat, g: nat)
    requires retain >= 1 && r <= retain
    ensures var dir := Layout(base, retain, created, r);
            if r == 0 || g >= retain || g + r < retain then
              (g in dir <==> g in base) && (g in dir ==> dir[g] == base[g])
            else if g + r == retain then g !in dir
            else g > 0 && (g in dir <==> g - 1 in base) && (g in dir ==> dir[g] == base[g - 1])
  {
  }

  lemma MissingAt(orig: Directory, retain: nat, k: nat, g: nat)
    ensures var q, r := k / (retain + 1), k % (retain + 1);
            if g >= retain then Missing(orig, retain, k, g)
            else if r > 0 && g + r == retain then Missing(orig, retain, k, g)
            else
              var n := Number(retain, k, g);
              && n == q - g + (if r + g > retain then 1 else 0)
              && (Missing(orig, retain, k, g) <==> n <= 0 && -n !in orig)
  {
    if g < retain { Passed(retain, k, g); }
  }

  /** The reader opens generation g after `when(g)` steps. */
  ghost predicate Interleaved(dirs: nat -> Directory, orig: Directory, retain: nat, file: int -> Inode,
                              when: nat -> nat)
    requires retain >= 1
  {
    && (forall g :: dirs(g) == After(orig, retain, file, when(g)))
    && (forall i, j :: i <= j ==> when(i) <= when(j))
  }

  lemma {:induction false} FoundAt(dirs: nat -> Directory, orig: Directory, retain: nat, file: int -> Inode,
                                   when: nat -> nat, g: nat)
    requires retain >= 1 && Numbered(orig, retain, file) && Interleaved(dirs, orig, retain, file, when)
    ensures g in dirs(g) <==> !Missing(orig, retain, when(g), g)
    ensures g in dirs(g) ==> dirs(g)[g] == file(Number(retain, when(g), g))
    ensures g > 0 ==> Number(retain, when(g), g) >= Number(retain, when(g - 1), g - 1) - 1
  {
    hide After, Missing, Numbered;
    AfterAt(orig, retain, file, when(g), g);
    if g > 0 {
      assert when(g - 1) <= when(g);
      DivMonotone(when(g - 1) + g - 1, when(g) + g, retain + 1);
    }
  }

  /** All files of a snapshot, newest first as the reader lists them. */
  function Files(current: Option<Inode>, archives: seq<Inode>): seq<Inode>
  {
    (if current.Some? then [current.value] else []) + archives
  }

  /** Consecutive files, newest first, from number `top` down. */
  predicate RunFrom(file: int -> Inode, files: seq<Inode>, top: int)
  {
    forall i :: 0 <= i < |files| ==> files[i] == file(top - i)
  }

  ghost predicate IsRun(file: int -> Inode, files: seq<Inode>) { exists top :: RunFrom(file, files, top) }

  /** The generation at which the reader stops. */
  function End(dirs: nat -> Directory, g: nat): (e: nat)
    ensures e >= g
    ensures e > LAST_ARCHIVE || e !in dirs(e)
    decreases LAST_ARCHIVE + 1 - g
  {
    if g > LAST_ARCHIVE || g !in dirs(g) then g else End(dirs, g + 1)
  }

  /** From the first file opened on, no more rotations pass than generations are opened. */
  predicate InOrder(retain: nat, when: nat -> nat, first: nat, end: nat)
  {
    forall g :: first <= g < end ==> Number(retain, when(g), g) <= Number(retain, when(first), first)
  }

  /** What is opened is what the names meant at the moments of opening. */
  lemma {:induction false} OpenFromHolds(dirs: nat -> Directory, broken: nat -> bool, current: Option<Inode>,
                                         archives: seq<Inode>, g: nat, x: Inode)
    requires OpenFrom(dirs, broken, current, archives, g).Opened?
    ensures x in Files(current, OpenFrom(dirs, broken, current, archives, g).snapshot.archives)
            <==> x in Files(current, archives) || Among(dirs, g, End(dirs, g), x)
    decreases LAST_ARCHIVE + 1 - g
  {
    if g <= LAST_ARCHIVE && g in dirs(g) {
      var file := dirs(g)[g];
      var next := if current == Some(file) || file in archives then archives else archives + [file];
      OpenFromHolds(dirs, broken, current, next, g + 1, x);
      assert x in Files(current, next) <==> x in Files(current, archives) || x == file;
      AmongStep(dirs, g, End(dirs, g), x);
    }
  }

  /** x is what one of the generations g, ..., end - 1 named when it was opened. */
  ghost predicate Among(dirs: nat -> Directory, g: nat, end: nat, x: Inode)
  {
    exists h :: g <= h < end && h in dirs(h) && dirs(h)[h] == x
  }

  lemma AmongStep(dirs: nat -> Directory, g: nat, end: nat, x: Inode)
    requires g < end && g in dirs(g)
    ensures Among(dirs, g, end, x) <==> x == dirs(g)[g] || Among(dirs, g + 1, end, x)
  {
  }

  /** Opening on, while every file found is at most as new as the first: each is one
      already open or the next older one, so the files stay a run. */
  lemma {:induction false} OpenFromIsRun(dirs: nat -> Directory, orig: Directory, retain: nat, file: int -> Inode,
                                         when: nat -> nat, broken: nat -> bool, current: Option<Inode>,
                                         archives: seq<Inode>, g: nat, first: nat)
    requires retain >= 1 && first <= g && g >= 1
    requires Numbered(orig, retain, file) && Interleaved(dirs, orig, retain, file, when)
    requires InOrder(retain, when, first, End(dirs, g))
    requires RunFrom(file, Files(current, archives), Number(retain, when(first), first))
    requires if g == first then Files(current, archives) == []
             else Number(retain, when(g - 1), g - 1) > Number(retain, when(first), first) - |Files(current, archives)|
    ensures var r := OpenFrom(dirs, broken, current, archives, g);
            r.Opened? ==> RunFrom(file, Files(current, r.snapshot.archives), Number(retain, when(first), first))
    decreases LAST_ARCHIVE + 1 - g
  {
    hide Numbered, Interleaved, Number, Missing, Files, RunFrom, OpenFrom;
    OpenStep(dirs, broken, current, archives, g);
    if g <= LAST_ARCHIVE && !broken(g) && g in dirs(g) {
      FoundAt(dirs, orig, retain, file, when, g);
      var top, n := Number(retain, when(first), first), Number(retain, when(g), g);
      var files := Files(current, archives);
      var found := dirs(g)[g];
      var next := if current == Some(found) || found in archives then archives else archives + [found];
      assert End(dirs, g) == End(dirs, g + 1) > g;
      assert n <= top;
      assert forall m, n :: file(m) == file(n) ==> m == n by { hide *; Injective(orig, retain, file); }
      OpenedOrNext(file, current, archives, top, n);
      OpenFromIsRun(dirs, orig, retain, file, when, broken, current, next, g + 1, first);
    }
  }

  lemma Injective(orig: Directory, retain: nat, file: int -> Inode)
    requires Numbered(orig, retain, file)
    ensures forall m, n :: file(m) == file(n) ==> m == n
  {
  }

  lemma {:induction false} OpenedOrNext(file: int -> Inode, current: Option<Inode>, archives: seq<Inode>, top: int,
                                        n: int)
    requires forall m, n :: file(m) == file(n) ==> m == n
    requires RunFrom(file, Files(current, archives), top)
    requires top - |Files(current, archives)| <= n <= top
    ensures var found := file(n);
            var next := if current == Some(found) || found in archives then archives else archives + [found];
            RunFrom(file, Files(current, next), top) && n > top - |Files(current, next)|
  {
    var files, found := Files(current, archives), file(n);
    var next := if current == Some(found) || found in archives then archives else archives + [found];
    assert found in files <==> current == Some(found) || found in archives;
    if n > top - |files| {
      var i := top - n;
      assert files[i] == file(top - i);
    } else {
      assert found !in files ==> Files(current, next) == files + [found];
    }
  }

  lemma {:induction false} EndFound(dirs: nat -> Directory, g: nat, h: nat)
    requires g <= h < End(dirs, g)
    ensures h in dirs(h)
    decreases LAST_ARCHIVE + 1 - g
  {
    if h > g {
      EndFound(dirs, g + 1, h);
    }
  }

  /** x is a file that a name from g up to `end` meant when it was opened. */
  ghost predicate Met(retain: nat, file: int -> Inode, when: nat -> nat, g: nat, end: nat, x: Inode)
  {
    exists h :: g <= h < end && x == file(Number(retain, when(h), h))
  }

  lemma {:induction false} AmongIsMet(dirs: nat -> Directory, orig: Directory, retain: nat, file: int -> Inode,
                                      when: nat -> nat, x: Inode)
    requires retain >= 1 && Numbered(orig, retain, file) && Interleaved(dirs, orig, retain, file, when)
    ensures Among(dirs, 1, End(dirs, 1), x) <==> Met(retain, file, when, 1, End(dirs, 1), x)
  {
    hide Numbered, Interleaved, Number, Missing, End;
    var end := End(dirs, 1);
    forall g | 1 <= g < end ensures g in dirs(g) && dirs(g)[g] == file(Number(retain, when(g), g)) {
      EndFound(dirs, 1, g);
      FoundAt(dirs, orig, retain, file, when, g);
    }
    if Among(dirs, 1, end, x) {
      var h :| 1 <= h < end && h in dirs(h) && dirs(h)[h] == x;
      assert x == file(Number(retain, when(h), h));
    }
    if Met(retain, file, when, 1, end, x) {
      var h :| 1 <= h < end && x == file(Number(retain, when(h), h));
      assert h in dirs(h) && dirs(h)[h] == x;
    }
  }

  lemma {:induction false} MetFromZero(retain: nat, file: int -> Inode, when: nat -> nat, end: nat, x: Inode)
    requires end >= 1
    ensures Met(retain, file, when, 0, end, x)
            <==> x == file(Number(retain, when(0), 0)) || Met(retain, file, when, 1, end, x)
  {
    hide Number;
  }

  /** What a snapshot holds, told by the numbers of the files. */
  lemma {:induction false} SnapshotHolds(dirs: nat -> Directory, orig: Directory, retain: nat, file: int -> Inode,
                                         when: nat -> nat, broken: nat -> bool, snapshot: Snapshot, x: Inode)
    requires retain >= 1 && Numbered(orig, retain, file) && Interleaved(dirs, orig, retain, file, when)
    requires Open(dirs, broken) == Opened(snapshot)
    ensures x in Files(snapshot.current, snapshot.archives)
            <==> Met(retain, file, when, First(orig, retain, when), End(dirs, 1), x)
  {
    hide Numbered, Interleaved, Number, Missing, OpenFrom, Met, Among, End;
    var current := if 0 in dirs(0) then Some(dirs(0)[0]) else None;
    OpenFromOnce(dirs, broken, current, [], 1);
    OpenFromHolds(dirs, broken, current, [], 1, x);
    FoundAt(dirs, orig, retain, file, when, 0);
    MetFromZero(retain, file, when, End(dirs, 1), x);
    AmongIsMet(dirs, orig, retain, file, when, x);
  }

  /** The first generation the reader finds a file for, if it finds any. */
  function First(orig: Directory, retain: nat, when: nat -> nat): (first: nat)
    ensures first <= 1
  {
    if Missing(orig, retain, when(0), 0) then 1 else 0
  }

  /** The first file of a snapshot is the first one found. */
  lemma {:induction false} StartsWithFirst(dirs: nat -> Directory, orig: Directory, retain: nat, file: int -> Inode,
                                           when: nat -> nat, broken: nat -> bool, snapshot: Snapshot)
    requires retain >= 1 && Numbered(orig, retain, file) && Interleaved(dirs, orig, retain, file, when)
    requires Open(dirs, broken) == Opened(snapshot)
    ensures var first := First(orig, retain, when);
            && snapshot.current == (if first == 0 then Some(file(Number(retain, when(0), 0))) else None)
            && (first < End(dirs, 1) ==>
                  && Files(snapshot.current, snapshot.archives) != []
                  && Files(snapshot.current, snapshot.archives)[0] == file(Number(retain, when(first), first)))
  {
    hide Numbered, Interleaved, Number, Missing, OpenFrom, End;
    var current := if 0 in dirs(0) then Some(dirs(0)[0]) else None;
    OpenFromOnce(dirs, broken, current, [], 1);
    FoundAt(dirs, orig, retain, file, when, 0);
    if current.None? && 1 < End(dirs, 1) {
      EndFound(dirs, 1, 1);
      FoundAt(dirs, orig, retain, file, when, 1);
      OpensFirstArchive(dirs, broken);
      OpenFromOnce(dirs, broken, None, [dirs(1)[1]], 2);
    }
  }

  lemma OpensFirstArchive(dirs: nat -> Directory, broken: nat -> bool)
    requires 1 in dirs(1) && OpenFrom(dirs, broken, None, [], 1).Opened?
    ensures OpenFrom(dirs, broken, None, [], 1) == OpenFrom(dirs, broken, None, [dirs(1)[1]], 2)
  {
    assert [] + [dirs(1)[1]] == [dirs(1)[1]];
  }

  /** Rotations may go on while the files are opened. A snapshot holds exactly what the
      names meant when they were opened, up to a name that is missing for a reason; and it
      is a run of consecutive files, newest first, exactly when no file opened is newer
      than the first one. */
  lemma {:induction false} SnapshotIsRunWhen(dirs: nat -> Directory, orig: Directory, retain: nat, file: int -> Inode,
                                             when: nat -> nat, broken: nat -> bool, snapshot: Snapshot)
    returns (end: nat)
    requires retain >= 1 && Numbered(orig, retain, file) && Interleaved(dirs, orig, retain, file, when)
    requires Open(dirs, broken) == Opened(snapshot)
    ensures end >= 1 && (end > LAST_ARCHIVE || Missing(orig, retain, when(end), end))
    ensures forall g :: 1 <= g < end ==> !Missing(orig, retain, when(g), g)
    ensures var first, files := First(orig, retain, when), Files(snapshot.current, snapshot.archives);
            && (snapshot.current.Some? <==> first == 0)
            && (forall x :: x in files <==> Met(retain, file, when, first, end, x))
            && (IsRun(file, files) <==> InOrder(retain, when, first, end))
  {
    hide Numbered, Interleaved, Number, Missing, Open, RunFrom, InOrder, First, Met;
    end := End(dirs, 1);
    FoundAt(dirs, orig, retain, file, when, end);
    forall g | 1 <= g < end ensures !Missing(orig, retain, when(g), g) {
      EndFound(dirs, 1, g);
      FoundAt(dirs, orig, retain, file, when, g);
    }
    StartsWithFirst(dirs, orig, retain, file, when, broken, snapshot);
    forall x
      ensures x in Files(snapshot.current, snapshot.archives)
              <==> Met(retain, file, when, First(orig, retain, when), end, x)
    {
      SnapshotHolds(dirs, orig, retain, file, when, broken, snapshot, x);
    }
    if InOrder(retain, when, First(orig, retain, when), end) {
      InOrderIsRun(dirs, orig, retain, file, when, broken, snapshot);
    } else {
      NotARun(dirs, orig, retain, file, when, broken, snapshot);
    }
  }

  lemma StartsRun(file: int -> Inode, current: Option<Inode>, top: int)
    requires current.Some? ==> current.value == file(top)
    ensures RunFrom(file, Files(current, []), top)
    ensures if current.Some? then |Files(current, [])| == 1 else Files(current, []) == []
  {
  }

  lemma {:induction false} InOrderIsRun(dirs: nat -> Directory, orig: Directory, retain: nat, file: int -> Inode,
                                        when: nat -> nat, broken: nat -> bool, snapshot: Snapshot)
    requires retain >= 1 && Numbered(orig, retain, file) && Interleaved(dirs, orig, retain, file, when)
    requires Open(dirs, broken) == Opened(snapshot)
    requires InOrder(retain, when, First(orig, retain, when), End(dirs, 1))
    ensures IsRun(file, Files(snapshot.current, snapshot.archives))
  {
    hide Numbered, Interleaved, Missing, OpenFrom, InOrder, Number, RunFrom, Files, End;
    var current := if 0 in dirs(0) then Some(dirs(0)[0]) else None;
    var first := First(orig, retain, when);
    var top := Number(retain, when(first), first);
    FoundAt(dirs, orig, retain, file, when, 0);
    OpenFromOnce(dirs, broken, current, [], 1);
    StartsRun(file, current, top);
    OpenFromIsRun(dirs, orig, retain, file, when, broken, current, [], 1, first);
    assert RunFrom(file, Files(snapshot.current, snapshot.archives), top);
  }

  lemma {:induction false} NotARun(dirs: nat -> Directory, orig: Directory, retain: nat, file: int -> Inode,
                                   when: nat -> nat, broken: nat -> bool, snapshot: Snapshot)
    requires retain >= 1 && Numbered(orig, retain, file) && Interleaved(dirs, orig, retain, file, when)
    requires Open(dirs, broken) == Opened(snapshot)
    requires !InOrder(retain, when, First(orig, retain, when), End(dirs, 1))
    ensures !IsRun(file, Files(snapshot.current, snapshot.archives))
  {
    hide Numbered, Interleaved, Missing, Open, Number, First;
    var files, first := Files(snapshot.current, snapshot.archives), First(orig, retain, when);
    var top := Number(retain, when(first), first);
    var g :| first <= g < End(dirs, 1) && Number(retain, when(g), g) > top;
    SnapshotHolds(dirs, orig, retain, file, when, broken, snapshot, file(Number(retain, when(g), g)));
    StartsWithFirst(dirs, orig, retain, file, when, broken, snapshot);
    Injective(orig, retain, file);
    NewerBreaksRun(file, files, top, Number(retain, when(g), g));
  }

  lemma {:induction false} NewerBreaksRun(file: int -> Inode, files: seq<Inode>, top: int, n: int)
    requires forall i, j :: file(i) == file(j) ==> i == j
    requires files != [] && files[0] == file(top) && file(n) in files && n > top
    ensures !IsRun(file, files)
  {
    var k :| 0 <= k < |files| && files[k] == file(n);
    forall start ensures !RunFrom(file, files, start) {
      RunAt(file, files, start, 0);
      RunAt(file, files, start, k);
    }
  }

  lemma RunAt(file: int -> Inode, files: seq<Inode>, top: int, i: nat)
    requires i < |files|
    ensures RunFrom(file, files, top) ==> files[i] == file(top - i)
  {
  }

  /** So with at most one rotation in between, at any of its steps, it is always a run. */
  lemma {:induction false} SnapshotIsRun(dirs: nat -> Directory, orig: Directory, retain: nat, file: int -> Inode,
                                         when: nat -> nat, broken: nat -> bool, snapshot: Snapshot)
    requires retain >= 1 && Numbered(orig, retain, file) && Interleaved(dirs, orig, retain, file, when)
    requires Open(dirs, broken) == Opened(snapshot)
    requires forall g :: when(g) <= retain + 1
    ensures IsRun(file, Files(snapshot.current, snapshot.archives))
  {
    hide Numbered, Interleaved, Open, IsRun, First, Number, Missing, RunFrom;
    var first := First(orig, retain, when);
    var end := SnapshotIsRunWhen(dirs, orig, retain, file, when, broken, snapshot);
    forall g | first <= g < end
      ensures Number(retain, when(g), g) <= Number(retain, when(first), first)
    {
      if first < g {
        WithinRetained(orig, retain, when(g), g);
        OnePasses(retain, when(g), g, when(first), first);
      }
    }
  }

  lemma WithinRetained(orig: Directory, retain: nat, k: nat, g: nat)
    requires !Missing(orig, retain, k, g)
    ensures g < retain
  {
  }

  /** While at most one rotation runs, no later generation names a newer file. */
  lemma {:induction false} OnePasses(retain: nat, k: nat, g: nat, k0: nat, first: nat)
    requires first < g < retain && first <= 1 && k <= retain + 1
    ensures Number(retain, k, g) <= Number(retain, k0, first)
  {
    var n := retain + 1;
    DivMonotone(k + g, n + g, n);
    DivUnique(1, n, g);
    DivMonotone(0, k0 + first, n);
  }

  lemma FirstRotation()
    ensures Layout(map[0 := 10], 3, 11, 4) == map[0 := 11, 1 := 10]
  {
  }

  lemma SecondRotation()
    ensures Layout(map[0 := 11, 1 := 10], 3, 12, 4) == map[0 := 12, 1 := 11, 2 := 10]
  {
  }

  /** A second rotation can break it: only the active log 10 is there when it is opened;
      two rotations pass; the file then named 1 is newer, and is listed as an older one. */
  lemma {:induction false} TwoRotationsMixOrder(dirs: nat -> Directory, broken: nat -> bool)
    requires dirs(0) == map[0 := 10] && forall g :: g > 0 ==> dirs(g) == Layout(Layout(dirs(0), 3, 11, 4), 3, 12, 4)
    requires forall g :: !broken(g)
    ensures Open(dirs, broken) == Opened(Snapshot(Some(10), [11]))
  {
    hide OpenFrom, Layout;
    FirstRotation();
    SecondRotation();
    OpenStep(dirs, broken, Some(10), [], 1);
    OpenStep(dirs, broken, Some(10), [11], 2);
    OpenStep(dirs, broken, Some(10), [11], 3);
    assert [] + [11] == [11];
  }

  // ---- no rotation in between --------------------------------------------------

  /** The names of a log nobody rotates, each standing for its own file. */
  function Names(disk: Disk): Directory { map g | g in disk :: g }

  function Contents(disk: Disk, files: seq<Inode>): seq<Bytes>
  {
    if files == [] then []
    else Contents(disk, files[..|files| - 1]) + [Data(disk, files[|files| - 1])]
  }

  lemma {:induction false} QuietFrom(disk: Disk, dirs: nat -> Directory, broken: nat -> bool,
                                     archives: seq<Inode>, g: nat, current: Option<Inode>)
    requires forall i :: dirs(i) == Names(disk) && !broken(i)
    requires g >= 1 && forall i :: 0 <= i < |archives| ==> archives[i] < g
    requires current == if 0 in disk then Some(0) else None
    ensures var r := OpenFrom(dirs, broken, current, archives, g);
            && r.Opened? && r.snapshot.current == current
            && Contents(disk, Files(current, r.snapshot.archives))
               == Contents(disk, Files(current, archives)) + Archives(disk, g, LAST_ARCHIVE)
    decreases LAST_ARCHIVE + 1 - g
  {
    hide OpenFrom, Contents;
    OpenStep(dirs, broken, current, archives, g);
    if g <= LAST_ARCHIVE && g in disk {
      QuietFrom(disk, dirs, broken, archives + [g], g + 1, current);
      var files := Files(current, archives);
      assert Files(current, archives + [g]) == files + [g];
      ContentsSnoc(disk, files, g);
      Regroup(Contents(disk, files), [disk[g].data], Archives(disk, g + 1, LAST_ARCHIVE));
    }
  }

  lemma ContentsSnoc(disk: Disk, files: seq<Inode>, g: Inode)
    ensures Contents(disk, files + [g]) == Contents(disk, files) + [Data(disk, g)]
  {
    assert (files + [g])[..|files|] == files;
  }

  /** While the log is quiet the opened files are the ones the writer thread reads when
      it exports the log or answers a tail. */
  lemma {:induction false} QuietSnapshot(disk: Disk, dirs: nat -> Directory, broken: nat -> bool)
    returns (snapshot: Snapshot)
    requires forall i :: dirs(i) == Names(disk) && !broken(i)
    ensures Open(dirs, broken) == Opened(snapshot)
    ensures Contents(disk, Files(snapshot.current, snapshot.archives)) == SnapshotFiles(disk)
  {
    hide OpenFrom, Archives;
    var current := if 0 in disk then Some(0) else None;
    QuietFrom(disk, dirs, broken, [], 1, current);
    snapshot := OpenFrom(dirs, broken, current, [], 1).snapshot;
    assert Files(current, []) == if 0 in disk then [0] else [];
    assert [0][..0] == [];
  }
}
