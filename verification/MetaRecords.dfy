/** The records of the terminal metadata store in crates/server/src/meta_store.rs: how
    registrations and operators change them, and the snapshots these changes take. */
module MetaRecords {
  import opened Wrappers
  import opened MetaStore

  /** What a terminal reports about itself. */
  datatype Info = Info(terminalId: string, details: string)

  datatype Meta = Meta(
    terminalId: string, customName: Option<string>, notes: Option<string>, tags: seq<string>,
    lastKnownInfo: Option<Info>, createdAt: int, updatedAt: int)

  type Records = map<string, Meta>

  // ---- cleaning what an operator typed -----------------------------------------------

  /** White_Space of the Unicode character database. */
  predicate IsWhitespace(c: char)
  {
    var n := c as int;
    || 0x9 <= n <= 0xD || n == 0x20 || n == 0x85 || n == 0xA0 || n == 0x1680 || 0x2000 <= n <= 0x200A
    || n == 0x2028 || n == 0x2029 || n == 0x202F || n == 0x205F || n == 0x3000
  }

  /** The white space one character at a time. */
  lemma {:induction false} WhitespaceIs(c: char)
    ensures IsWhitespace(c) <==>
      c in {'\t', '\n', '\U{B}', '\U{C}', '\r', ' ', '\U{85}', '\U{A0}', '\U{1680}', '\U{2000}', '\U{2001}', '\U{2002}',
            '\U{2003}', '\U{2004}', '\U{2005}', '\U{2006}', '\U{2007}', '\U{2008}', '\U{2009}', '\U{200A}', '\U{2028}',
            '\U{2029}', '\U{202F}', '\U{205F}', '\U{3000}'}
  {
    var n := c as int;
    assert c == n as char;
  }

  predicate IsTrimmed(s: string)
  {
    s == [] || (!IsWhitespace(s[0]) && !IsWhitespace(s[|s| - 1]))
  }

  function TrimStart(s: string): string
  {
    if s != [] && IsWhitespace(s[0]) then TrimStart(s[1..]) else s
  }

  function TrimEnd(s: string): string
  {
    if s != [] && IsWhitespace(s[|s| - 1]) then TrimEnd(s[..|s| - 1]) else s
  }

  /** `str::trim` */
  function Trim(s: string): string { TrimEnd(TrimStart(s)) }

  lemma {:induction false} StartTrimmed(s: string)
    ensures TrimStart(s) == [] || !IsWhitespace(TrimStart(s)[0])
  {
    if s != [] && IsWhitespace(s[0]) {
      StartTrimmed(s[1..]);
    }
  }

  lemma {:induction false} EndTrimmed(s: string)
    ensures TrimEnd(s) == [] || (!IsWhitespace(TrimEnd(s)[|TrimEnd(s)| - 1]) && TrimEnd(s)[0] == s[0])
  {
    if s != [] && IsWhitespace(s[|s| - 1]) {
      EndTrimmed(s[..|s| - 1]);
    }
  }

  /** Trimming leaves trimmed text, and trimmed text alone. */
  lemma {:induction false} TrimIsTrimmed(s: string)
    ensures IsTrimmed(Trim(s))
    ensures IsTrimmed(s) ==> Trim(s) == s
  {
    hide IsWhitespace;
    StartTrimmed(s);
    EndTrimmed(TrimStart(s));
  }

  predicate IsBlank(s: string) { forall k :: 0 <= k < |s| ==> IsWhitespace(s[k]) }

  lemma {:induction false} StartOf(a: string, t: string)
    requires IsBlank(a) && (t == [] || !IsWhitespace(t[0]))
    ensures TrimStart(a + t) == t
  {
    hide IsWhitespace;
    if a == [] {
      assert a + t == t;
    } else {
      assert (a + t)[1..] == a[1..] + t && (a + t)[0] == a[0];
      assert forall k :: 0 <= k < |a[1..]| ==> a[1..][k] == a[k + 1];
      StartOf(a[1..], t);
    }
  }

  lemma {:induction false} EndOf(t: string, b: string)
    requires IsBlank(b) && (t == [] || !IsWhitespace(t[|t| - 1]))
    ensures TrimEnd(t + b) == t
  {
    hide IsWhitespace;
    if b == [] {
      assert t + b == t;
    } else {
      var c := b[..|b| - 1];
      assert (t + b)[..|t + b| - 1] == t + c && (t + b)[|t + b| - 1] == b[|b| - 1];
      EndOf(t, c);
    }
  }

  /** Trimming takes off white space at both ends and nothing else. */
  lemma {:induction false} TrimOf(a: string, t: string, b: string)
    requires IsBlank(a) && IsBlank(b) && IsTrimmed(t)
    ensures Trim(a + t + b) == t
  {
    hide TrimStart, TrimEnd, IsWhitespace;
    if t == [] {
      assert a + t + b == a + b;
      assert IsBlank(a + b);
      assert a + b + [] == a + b;
      StartOf(a + b, []);
      var none: string := [];
      assert none + none == none;
      EndOf(none, none);
    } else {
      Regroup(a, t, b);
      StartOf(a, t + b);
      EndOf(t, b);
    }
  }

  /** Every text is white space, what trimming leaves of it, and white space. */
  lemma {:induction false} TrimParts(s: string) returns (a: string, b: string)
    ensures IsBlank(a) && IsBlank(b) && s == a + Trim(s) + b
  {
    hide IsWhitespace;
    a := StartParts(s);
    b := EndParts(TrimStart(s));
    Regroup(a, Trim(s), b);
  }

  lemma {:induction false} StartParts(s: string) returns (a: string)
    ensures IsBlank(a) && s == a + TrimStart(s)
  {
    hide IsWhitespace;
    if s != [] && IsWhitespace(s[0]) {
      var rest := StartParts(s[1..]);
      a := [s[0]] + rest;
      assert s == [s[0]] + s[1..];
      Regroup([s[0]], rest, TrimStart(s[1..]));
    } else {
      a := [];
    }
  }

  lemma {:induction false} EndParts(s: string) returns (b: string)
    ensures IsBlank(b) && s == TrimEnd(s) + b
  {
    hide IsWhitespace;
    if s != [] && IsWhitespace(s[|s| - 1]) {
      var rest := EndParts(s[..|s| - 1]);
      b := rest + [s[|s| - 1]];
      assert s == s[..|s| - 1] + [s[|s| - 1]];
      Regroup(TrimEnd(s[..|s| - 1]), rest, [s[|s| - 1]]);
    } else {
      b := [];
    }
  }

  predicate Contains(tags: seq<string>, tag: string) { exists k :: 0 <= k < |tags| && tags[k] == tag }

  /** The tags trimmed, without empty ones, each once, in the order they first came. */
  function CleanFrom(kept: seq<string>, tags: seq<string>): seq<string>
    decreases |tags|
  {
    if tags == [] then kept
    else
      var tag := Trim(tags[0]);
      CleanFrom(if tag != "" && !Contains(kept, tag) then kept + [tag] else kept, tags[1..])
  }

  /** The loop over the tags of `update_meta`. */
  method CleanTags(tags: seq<string>) returns (clean: seq<string>)
    ensures clean == CleanFrom([], tags)
  {
    hide Trim;
    clean := [];
    var k := 0;
    while k < |tags|
      invariant 0 <= k <= |tags| && CleanFrom([], tags) == CleanFrom(clean, tags[k..])
    {
      assert tags[k..][1..] == tags[k + 1..];
      var tag := Trim(tags[k]);
      if tag != "" && !Contains(clean, tag) {
        clean := clean + [tag];
      }
      k := k + 1;
    }
  }

  ghost predicate AreClean(tags: seq<string>)
  {
    && (forall k :: 0 <= k < |tags| ==> tags[k] != "" && IsTrimmed(tags[k]))
    && (forall i, j :: 0 <= i < j < |tags| ==> tags[i] != tags[j])
  }

  lemma {:induction false} OneMoreClean(kept: seq<string>, tag: string)
    requires AreClean(kept) && tag != "" && IsTrimmed(tag) && !Contains(kept, tag)
    ensures AreClean(kept + [tag])
  {
    hide IsTrimmed;
  }

  /** Every kept tag is trimmed, not empty and there once; a tag is kept exactly when
      some given tag trims to it. */
  lemma {:induction false} CleanTagsAreClean(kept: seq<string>, tags: seq<string>)
    requires AreClean(kept)
    ensures AreClean(CleanFrom(kept, tags))
    ensures forall t :: Contains(CleanFrom(kept, tags), t) <==> Contains(kept, t) || (t != "" && TrimsTo(tags, t))
    decreases |tags|
  {
    hide Trim, AreClean, Contains;
    if tags == [] {
      assert forall t :: !TrimsTo([], t);
    } else {
      var tag := Trim(tags[0]);
      TrimIsTrimmed(tags[0]);
      FirstTrims(tags);
      if tag != "" && !Contains(kept, tag) {
        OneMoreClean(kept, tag);
        ContainsMore(kept, tag);
        CleanTagsAreClean(kept + [tag], tags[1..]);
      } else {
        CleanTagsAreClean(kept, tags[1..]);
      }
    }
  }

  /** The kept tags stand in the order in which they first came. */
  lemma {:induction false} FirstOccurrences(kept: seq<string>, tags: seq<string>) returns (at: seq<nat>)
    requires AreClean(kept)
    ensures kept <= CleanFrom(kept, tags) && CameInOrder(tags, CleanFrom(kept, tags)[|kept|..], at)
    decreases |tags|
  {
    hide Trim, IsTrimmed, AreClean, CameInOrder, Contains;
    if tags == [] {
      at := [];
      assert CameInOrder(tags, CleanFrom(kept, tags)[|kept|..], at) by {
        hide *;
        NoneCame(tags, CleanFrom(kept, tags)[|kept|..]);
      }
    } else {
      var tag := Trim(tags[0]);
      TrimIsTrimmed(tags[0]);
      var added := tag != "" && !Contains(kept, tag);
      var next := if added then kept + [tag] else kept;
      if added {
        OneMoreClean(kept, tag);
        ContainsMore(kept, tag);
      }
      var rest := FirstOccurrences(next, tags[1..]);
      var clean := CleanFrom(next, tags[1..]);
      CleanTagsAreClean(next, tags[1..]);
      NotAgain(clean, next, tag);
      CameLater(tags, clean[|next|..], rest);
      if added {
        CameFirst(tags, clean[|next|..], Later(rest));
        assert clean[|kept|..] == [tag] + clean[|next|..];
        at := [0] + Later(rest);
      } else {
        at := Later(rest);
      }
    }
  }

  /** `kept` are the tags first given at the places `at`, which ascend. */
  ghost predicate CameInOrder(tags: seq<string>, kept: seq<string>, at: seq<nat>)
  {
    && |at| == |kept|
    && (forall i, j :: 0 <= i < j < |at| ==> at[i] < at[j])
    && (forall i :: 0 <= i < |at| ==> FirstTrimsAt(tags, at[i], kept[i]))
  }

  lemma NoneCame(tags: seq<string>, kept: seq<string>)
    requires kept == []
    ensures CameInOrder(tags, kept, [])
  {
  }

  function Later(at: seq<nat>): seq<nat> { seq(|at|, i requires 0 <= i < |at| => at[i] + 1) }

  lemma {:induction false} CameLater(tags: seq<string>, kept: seq<string>, at: seq<nat>)
    requires tags != [] && CameInOrder(tags[1..], kept, at)
    requires forall i :: 0 <= i < |kept| ==> kept[i] != Trim(tags[0])
    ensures CameInOrder(tags, kept, Later(at))
  {
    hide Trim;
    forall i | 0 <= i < |at| ensures FirstTrimsAt(tags, Later(at)[i], kept[i]) {
      assert FirstTrimsAt(tags[1..], at[i], kept[i]);
      forall k | 0 <= k < Later(at)[i] ensures Trim(tags[k]) != kept[i] {
        assert k > 0 ==> tags[1..][k - 1] == tags[k];
      }
    }
  }

  lemma {:induction false} CameFirst(tags: seq<string>, kept: seq<string>, at: seq<nat>)
    requires tags != [] && CameInOrder(tags, kept, at) && forall i :: 0 <= i < |at| ==> at[i] > 0
    ensures CameInOrder(tags, [Trim(tags[0])] + kept, [0] + at)
  {
    hide Trim;
    var all, places: seq<nat> := [Trim(tags[0])] + kept, [0] + at;
    forall i | 0 <= i < |places| ensures FirstTrimsAt(tags, places[i], all[i]) {
      assert i > 0 ==> places[i] == at[i - 1] && all[i] == kept[i - 1];
    }
  }

  /** The tag at `at` is the first that trims to t. */
  ghost predicate FirstTrimsAt(tags: seq<string>, at: nat, t: string)
  {
    at < |tags| && Trim(tags[at]) == t && forall k :: 0 <= k < at ==> Trim(tags[k]) != t
  }

  lemma {:induction false} NotAgain(clean: seq<string>, kept: seq<string>, tag: string)
    requires AreClean(clean) && kept <= clean
    requires tag == "" || Contains(kept, tag)
    ensures forall i :: 0 <= i < |clean[|kept|..]| ==> clean[|kept|..][i] != tag
  {
    hide IsTrimmed;
    if tag != "" {
      var k :| 0 <= k < |kept| && kept[k] == tag;
      assert clean[k] == tag;
    }
  }

  ghost predicate TrimsTo(tags: seq<string>, t: string) { exists k :: 0 <= k < |tags| && Trim(tags[k]) == t }

  lemma {:induction false} FirstTrims(tags: seq<string>)
    requires tags != []
    ensures forall t :: TrimsTo(tags, t) <==> Trim(tags[0]) == t || TrimsTo(tags[1..], t)
  {
    hide Trim;
    forall t ensures TrimsTo(tags, t) <==> Trim(tags[0]) == t || TrimsTo(tags[1..], t) {
      if TrimsTo(tags[1..], t) {
        var k :| 0 <= k < |tags[1..]| && Trim(tags[1..][k]) == t;
        assert Trim(tags[k + 1]) == t;
      }
      if TrimsTo(tags, t) && Trim(tags[0]) != t {
        var k :| 0 <= k < |tags| && Trim(tags[k]) == t;
        assert tags[1..][k - 1] == tags[k];
      }
    }
  }

  lemma {:induction false} ContainsMore(kept: seq<string>, tag: string)
    ensures forall t :: Contains(kept + [tag], t) <==> Contains(kept, t) || t == tag
  {
    assert (kept + [tag])[|kept|] == tag;
    forall t | Contains(kept, t) ensures Contains(kept + [tag], t) {
      var k :| 0 <= k < |kept| && kept[k] == t;
      assert (kept + [tag])[k] == t;
    }
  }

  /** Cleaning tags that are clean changes nothing. */
  lemma {:induction false} CleanTwice(kept: seq<string>, tags: seq<string>)
    requires AreClean(kept + tags)
    ensures CleanFrom(kept, tags) == kept + tags
    decreases |tags|
  {
    hide Trim, IsTrimmed;
    if tags == [] {
      assert kept + tags == kept;
    } else {
      var all := kept + tags;
      assert all[|kept|] == tags[0];
      TrimIsTrimmed(tags[0]);
      assert forall k :: 0 <= k < |kept| ==> kept[k] == all[k] && all[k] != all[|kept|];
      assert (kept + [tags[0]]) + tags[1..] == all;
      CleanTwice(kept + [tags[0]], tags[1..]);
    }
  }

  // ---- changing the records ---------------------------------------------------------------

  function Blank(id: string, now: int): Meta { Meta(id, None, None, [], None, now, now) }

  function EntryOf(records: Records, id: string, now: int): Meta
  {
    if id in records then records[id] else Blank(id, now)
  }

  /** A trimmed text, or nothing when nothing is left of it. */
  function Text(s: string): Option<string> { if Trim(s) == "" then None else Some(Trim(s)) }

  datatype Edit = Edit(customName: Option<string>, notes: Option<string>, tags: Option<seq<string>>)

  function Edited(meta: Meta, edit: Edit, now: int): Meta
  {
    meta.(customName := if edit.customName.Some? then Text(edit.customName.value) else meta.customName,
          notes := if edit.notes.Some? then Text(edit.notes.value) else meta.notes,
          tags := if edit.tags.Some? then CleanFrom([], edit.tags.value) else meta.tags,
          updatedAt := now)
  }

  datatype Change = Register(info: Info, now: int) | Amend(id: string, edit: Edit, now: int) | Remove(id: string)

  /** The records after a change, or nothing when it changes none. */
  function After(records: Records, change: Change): Option<Records>
  {
    match change
    case Register(info, now) =>
      var entry := EntryOf(records, info.terminalId, now);
      Some(records[info.terminalId := entry.(lastKnownInfo := Some(info), updatedAt := now)])
    case Amend(id, edit, now) => Some(records[id := Edited(EntryOf(records, id, now), edit, now)])
    case Remove(id) => if id in records then Some(records - {id}) else None
  }

  class TerminalMetaStore {
    const isInMemory: bool
    var records: Records
    var version: nat

    constructor (records: Records, isInMemory: bool)
      ensures this.records == records && version == 0 && this.isInMemory == isInMemory
    {
      this.records, version, this.isInMemory := records, 0, isInMemory;
    }

    function SnapshotLocked(): Option<Snapshot<Records>>
      reads this
    {
      if isInMemory then None else Some(Snapshot(records, version))
    }

    /** Each change returns the snapshot it hands to the writer, if there is one. */
    method RecordRegistration(info: Info, now: int) returns (snapshot: Option<Snapshot<Records>>)
      modifies this
      ensures After(old(records), Register(info, now)) == Some(records) && version == old(version) + 1
      ensures snapshot == if isInMemory then None else Some(Snapshot(records, version))
    {
      var entry := EntryOf(records, info.terminalId, now);
      entry := entry.(lastKnownInfo := Some(info));
      entry := entry.(updatedAt := now);
      records := records[info.terminalId := entry];
      version := version + 1;
      snapshot := SnapshotLocked();
    }

    method UpdateMeta(id: string, edit: Edit, now: int) returns (meta: Meta, snapshot: Option<Snapshot<Records>>)
      modifies this
      ensures After(old(records), Amend(id, edit, now)) == Some(records) && version == old(version) + 1
      ensures id in records && meta == records[id]
      ensures snapshot == if isInMemory then None else Some(Snapshot(records, version))
    {
      meta := EntryOf(records, id, now);
      if edit.customName.Some? {
        var trimmed := Trim(edit.customName.value);
        meta := meta.(customName := if trimmed != "" then Some(trimmed) else None);
      }
      if edit.notes.Some? {
        var trimmed := Trim(edit.notes.value);
        meta := meta.(notes := if trimmed != "" then Some(trimmed) else None);
      }
      if edit.tags.Some? {
        var clean := CleanTags(edit.tags.value);
        meta := meta.(tags := clean);
      }
      meta := meta.(updatedAt := now);
      records := records[id := meta];
      version := version + 1;
      snapshot := SnapshotLocked();
    }

    method RemoveMeta(id: string) returns (removed: bool, snapshot: Option<Snapshot<Records>>)
      modifies this
      ensures removed <==> id in old(records)
      ensures removed ==> After(old(records), Remove(id)) == Some(records) && version == old(version) + 1
      ensures removed ==> snapshot == if isInMemory then None else Some(Snapshot(records, version))
      ensures !removed ==> records == old(records) && version == old(version) && snapshot == None
    {
      if id !in records {
        return false, None;
      }
      records := records - {id};
      version := version + 1;
      removed, snapshot := true, SnapshotLocked();
    }
  }

  // ---- what stays ------------------------------------------------------------------------------

  ghost predicate IsText(t: Option<string>) { t.Some? ==> t.value != "" && IsTrimmed(t.value) }

  /** Records sit under their own ids, with clean texts and tags. */
  ghost predicate Tidy(records: Records)
  {
    forall id :: id in records ==>
      && records[id].terminalId == id && IsText(records[id].customName) && IsText(records[id].notes)
      && AreClean(records[id].tags)
  }

  ghost function RecordsAfter(records: Records, changes: seq<Change>): Records
  {
    if changes == [] then records
    else
      var before := RecordsAfter(records, changes[..|changes| - 1]);
      var next := After(before, changes[|changes| - 1]);
      if next.Some? then next.value else before
  }

  lemma {:induction false} TextIsText(s: string)
    ensures IsText(Text(s))
    ensures IsTrimmed(s) && s != "" ==> Text(s) == Some(s)
  {
    hide Trim, IsTrimmed;
    TrimIsTrimmed(s);
  }

  lemma {:induction false} EditedIsTidy(meta: Meta, edit: Edit, now: int)
    requires IsText(meta.customName) && IsText(meta.notes) && AreClean(meta.tags)
    ensures var next := Edited(meta, edit, now);
            IsText(next.customName) && IsText(next.notes) && AreClean(next.tags) && next.terminalId == meta.terminalId
  {
    hide IsText, AreClean, Text, CleanFrom;
    if edit.customName.Some? {
      TextIsText(edit.customName.value);
    }
    if edit.notes.Some? {
      TextIsText(edit.notes.value);
    }
    if edit.tags.Some? {
      assert AreClean([]) by { NoTags(); }
      CleanTagsAreClean([], edit.tags.value);
    }
  }

  lemma {:induction false} NoTags()
    ensures AreClean([])
  {
  }

  /** Whatever changes are made to clean records, they stay clean. */
  lemma {:induction false} ChangesKeepTidy(records: Records, changes: seq<Change>)
    requires Tidy(records)
    ensures Tidy(RecordsAfter(records, changes))
    decreases |changes|
  {
    hide IsText, AreClean, Edited;
    if changes != [] {
      var before, change := RecordsAfter(records, changes[..|changes| - 1]), changes[|changes| - 1];
      ChangesKeepTidy(records, changes[..|changes| - 1]);
      match change
      case Register(info, now) => BlankIsTidy(before, info.terminalId, now);
      case Amend(id, edit, now) =>
        BlankIsTidy(before, id, now);
        EditedIsTidy(EntryOf(before, id, now), edit, now);
      case Remove(_) =>
    }
  }

  lemma {:induction false} BlankIsTidy(records: Records, id: string, now: int)
    requires Tidy(records)
    ensures var entry := EntryOf(records, id, now);
            entry.terminalId == id && IsText(entry.customName) && IsText(entry.notes) && AreClean(entry.tags)
  {
  }

  /** What the white space around a given text leaves of it is what is stored. */
  ghost predicate Stores(given: Option<string>, before: Option<string>, after: Option<string>)
  {
    match given
    case None => after == before
    case Some(s) => forall a, t, b :: s == a + t + b && IsBlank(a) && IsBlank(b) && IsTrimmed(t) ==>
                      after == if t == "" then None else Some(t)
  }

  lemma {:induction false} TextStores(s: string, before: Option<string>)
    ensures Stores(Some(s), before, Text(s))
  {
    hide Trim, IsBlank, IsTrimmed;
    forall a, t, b | s == a + t + b && IsBlank(a) && IsBlank(b) && IsTrimmed(t)
      ensures Text(s) == if t == "" then None else Some(t)
    {
      TrimOf(a, t, b);
    }
  }

  /** The tags that are stored are clean; they are those some given tag trims to, in the
      order in which these first came. */
  ghost predicate StoresTags(given: seq<string>, after: seq<string>)
  {
    && AreClean(after)
    && (forall t :: Contains(after, t) <==> t != "" && TrimsTo(given, t))
    && exists at: seq<nat> :: CameInOrder(given, after, at)
  }

  lemma {:induction false} CleanStores(given: seq<string>)
    ensures StoresTags(given, CleanFrom([], given))
  {
    hide CleanFrom, CameInOrder, AreClean, Contains, TrimsTo;
    NoTags();
    assert forall t :: !Contains([], t) by { hide *; NoneContained(); }
    CleanTagsAreClean([], given);
    var at := FirstOccurrences([], given);
    assert CleanFrom([], given)[0..] == CleanFrom([], given);
  }

  lemma NoneContained()
    ensures forall t :: !Contains([], t)
  {
  }

  /** An edit takes effect: each text that is given is stored without the white space
      around it, or cleared when nothing is left; given tags are cleaned; what is not given
      stays, in a new record empty; and no other record changes. */
  lemma {:induction false} EditTakesEffect(records: Records, id: string, edit: Edit, now: int)
    ensures After(records, Amend(id, edit, now)).Some?
    ensures var next := After(records, Amend(id, edit, now)).value;
            && id in next && next.Keys == records.Keys + {id}
            && (forall other :: other in records && other != id ==> next[other] == records[other])
            && (if id in records
                then EditStored(records[id], edit, next[id])
                     && next[id] == records[id].(customName := next[id].customName, notes := next[id].notes,
                                                 tags := next[id].tags, updatedAt := now)
                else EditStored(Meta(id, None, None, [], None, now, now), edit, next[id])
                     && next[id] == Meta(id, next[id].customName, next[id].notes, next[id].tags, None, now, now))
  {
    hide Text, CleanFrom, Stores, StoresTags;
    var before := EntryOf(records, id, now);
    if edit.customName.Some? { TextStores(edit.customName.value, before.customName); }
    if edit.notes.Some? { TextStores(edit.notes.value, before.notes); }
    if edit.tags.Some? { CleanStores(edit.tags.value); }
    StoresNothing(before.customName);
    StoresNothing(before.notes);
  }

  lemma StoresNothing(before: Option<string>)
    ensures Stores(None, before, before)
  {
  }

  ghost predicate EditStored(before: Meta, edit: Edit, after: Meta)
  {
    && Stores(edit.customName, before.customName, after.customName)
    && Stores(edit.notes, before.notes, after.notes)
    && (if edit.tags.Some? then StoresTags(edit.tags.value, after.tags) else after.tags == before.tags)
  }

  /** Registering and removing take effect too. */
  lemma RegistrationTakesEffect(records: Records, info: Info, now: int)
    requires info.terminalId !in records
    ensures After(records, Register(info, now))
            == Some(records[info.terminalId := Meta(info.terminalId, None, None, [], Some(info), now, now)])
  {
  }

  lemma RemovalTakesEffect(records: Records, id: string)
    ensures After(records, Remove(id)).Some? <==> id in records
    ensures id in records ==>
      var next := After(records, Remove(id)).value;
      next.Keys == records.Keys - {id} && forall other :: other in next ==> next[other] == records[other]
  {
  }

  /** An operator's edit sent twice is the same as once, but for the time of it. */
  lemma {:induction false} EditIsIdempotent(meta: Meta, edit: Edit, now: int, later: int)
    ensures Edited(Edited(meta, edit, now), edit, later) == Edited(meta, edit, now).(updatedAt := later)
  {
    hide Text, CleanFrom;
  }

  /** Writing back what the store shows changes nothing but the time. */
  lemma {:induction false} EditWithOwnValues(records: Records, id: string, now: int)
    requires Tidy(records) && id in records
    ensures var meta := records[id];
            var edit := Edit(if meta.customName.Some? then meta.customName else Some(""),
                             if meta.notes.Some? then meta.notes else Some(""), Some(meta.tags));
            After(records, Amend(id, edit, now)) == Some(records[id := meta.(updatedAt := now)])
  {
    hide AreClean, CleanFrom, Trim, IsTrimmed;
    var meta := records[id];
    assert Trim("") == "" by { EmptyTrim(); }
    if meta.customName.Some? {
      TextIsText(meta.customName.value);
    }
    if meta.notes.Some? {
      TextIsText(meta.notes.value);
    }
    assert [] + meta.tags == meta.tags;
    CleanTwice([], meta.tags);
  }

  lemma {:induction false} EmptyTrim()
    ensures Trim("") == ""
  {
  }

  /** Registrations keep what operators set, and edits keep what terminals reported;
      neither changes when a record was created, and all other records stay. */
  lemma {:induction false} ChangesAreSeparate(records: Records, info: Info, id: string, edit: Edit, now: int)
    requires id in records && info.terminalId in records
    ensures var registered := After(records, Register(info, now)).value;
            var edited := After(records, Amend(id, edit, now)).value;
            && registered.Keys == edited.Keys == records.Keys
            && registered[info.terminalId] == records[info.terminalId].(lastKnownInfo := Some(info), updatedAt := now)
            && edited[id].lastKnownInfo == records[id].lastKnownInfo && edited[id].createdAt == records[id].createdAt
            && (forall other :: other in records && other != info.terminalId ==> registered[other] == records[other])
            && (forall other :: other in records && other != id ==> edited[other] == records[other])
  {
    hide Text, CleanFrom;
  }

  /** Each change that takes effect is one mutation of the store the writer serves: the
      snapshot it takes is the next version of the history. */
  lemma {:induction false} ChangeIsMutation(io: nat -> WriteOutcome, debounce: nat, s: Store<Records>,
                                            records: Records, version: nat, change: Change)
    requires s.history != [] && Current(s) == Snapshot(records, version)
    requires After(records, change).Some?
    ensures var next := After(records, change).value;
            var after := Act(io, debounce, s, Mutate(next));
            && Current(after) == Snapshot(next, version + 1)
            && after.inFlight == s.inFlight + [Update(Snapshot(next, version + 1))]
            && IsVersion(after.history, Snapshot(next, version + 1))
  {
    hide After;
  }
}
