/** The life of API keys in crates/server/src/keystore.rs: issue, revoke, rotate, delete
    and verify over a map of records and a file. Times are in nanoseconds. */
module KeyStore {
  import opened Wrappers
  import opened Credential

  const HOUR: nat := 3600 * 1_000_000_000
  const TOUCH_INTERVAL: nat := 60 * 1_000_000_000

  datatype Role = Admin | Other(name: string)

  /** A stored expiry that does not parse as a time is kept as it is. */
  datatype Expiry = At(time: nat) | Unreadable(text: string)

  datatype Record = Record(
    id: string, name: string, kind: KeyKind, role: Option<Role>, scopes: seq<string>, deviceId: Option<string>,
    salt: string, hash: string, createdAt: nat, expiresAt: Option<Expiry>, revokedAt: Option<nat>,
    lastUsedAt: Option<nat>)

  type Records = map<string, Record>

  datatype Outcome<+T> = Done(value: T) | Failed(reason: Failure)

  datatype Failure = NotFound | LastAdmin | NoRandomness | NotSaved

  datatype AuthError = BadFormat | KeyNotFound | WrongKind | HashMismatch | Revoked | Expired

  datatype Verdict = Accepted(principal: Record) | Rejected(error: AuthError)

  /** What a call draws from the random generator: bytes for ids, one after the other, and
      the secret and salt made from further bytes; each may be missing. */
  datatype Draws = Draws(ids: seq<IdBytes>, secret: Option<string>, salt: Option<string>)

  // ---- the operations on the records -------------------------------------------------------

  predicate ActiveAdmin(r: Record) { r.kind == SecretKey && r.role == Some(Admin) && r.revokedAt == None }

  function ActiveAdmins(records: Records): set<string>
  {
    set id | id in records && ActiveAdmin(records[id])
  }

  /** The first drawn id that is not taken; the loop ends with an error when the
      generator does. */
  function FreshId(records: Records, ids: seq<IdBytes>): (id: Option<string>)
  {
    if ids == [] then None
    else if CrockfordId(ids[0]) !in records then Some(CrockfordId(ids[0]))
    else FreshId(records, ids[1..])
  }

  /** A new record for these draws, and the credential handed to the caller. */
  function NewKey(records: Records, like: Record, draws: Draws, hash: (string, string) -> string, now: nat)
    : Outcome<(Record, string)>
  {
    var id := FreshId(records, draws.ids);
    if id.None? || draws.secret.None? || draws.salt.None? then Failed(NoRandomness)
    else
      var salt, secret := draws.salt.value, draws.secret.value;
      Done((Record(id.value, like.name, like.kind, like.role, like.scopes, like.deviceId, salt, hash(salt, secret),
                   now, like.expiresAt, None, None),
            Format(like.kind, id.value, secret)))
  }

  function AfterRevoke(records: Records, id: string, now: nat): Outcome<Records>
  {
    if id !in records then Failed(NotFound)
    else if ActiveAdmin(records[id]) && |ActiveAdmins(records)| <= 1 then Failed(LastAdmin)
    else Done(records[id := records[id].(revokedAt := Some(now))])
  }

  function AfterDelete(records: Records, id: string): Outcome<Records>
  {
    if id !in records then Failed(NotFound)
    else if ActiveAdmin(records[id]) && |ActiveAdmins(records)| <= 1 then Failed(LastAdmin)
    else Done(records - {id})
  }

  function Retired(prior: Record, graceHours: Option<nat>, now: nat): Record
  {
    if graceHours == Some(0) then prior.(revokedAt := Some(now))
    else prior.(expiresAt := Some(At(now + (if graceHours.Some? then graceHours.value else 24) * HOUR)))
  }

  function AfterRotate(records: Records, id: string, graceHours: Option<nat>, draws: Draws,
                       hash: (string, string) -> string, now: nat): Outcome<(Records, Record, string)>
  {
    if id !in records then Failed(NotFound)
    else
      match NewKey(records, records[id].(expiresAt := None), draws, hash, now)
      case Failed(reason) => Failed(reason)
      case Done((made, credential)) =>
        Done((records[made.id := made][id := Retired(records[id], graceHours, now)], made, credential))
  }

  /** `verify`, apart from noting the use: the first check that fails names the error. */
  function Judge(records: Records, credential: string, hash: (string, string) -> string, now: nat): Verdict
  {
    match Parse(credential)
    case InvalidFormat => Rejected(BadFormat)
    case Ok(p) =>
      if p.id !in records then Rejected(KeyNotFound)
      else
        var r := records[p.id];
        if r.kind != p.kind then Rejected(WrongKind)
        else if hash(r.salt, p.secret) != r.hash then Rejected(HashMismatch)
        else if r.revokedAt.Some? then Rejected(Revoked)
        else if r.expiresAt.Some? && (r.expiresAt.value.Unreadable? || r.expiresAt.value.time <= now) then
          Rejected(Expired)
        else Accepted(r)
  }

  // ---- the file ----------------------------------------------------------------------------

  /** What loading a list of records yields: a later record replaces an earlier one of the
      same id. */
  function Load(list: seq<Record>): Records
  {
    if list == [] then map[]
    else Load(list[..|list| - 1])[list[|list| - 1].id := list[|list| - 1]]
  }

  /** Every record sits under its own id. */
  ghost predicate Keyed(records: Records) { forall id :: id in records ==> records[id].id == id }

  ghost predicate ByCreation(list: seq<Record>)
  {
    forall i, j :: 0 <= i < j < |list| ==> list[i].createdAt <= list[j].createdAt
  }

  /** The list holds the records and nothing else. */
  ghost predicate Lists(list: seq<Record>, records: Records)
  {
    && (forall k :: 0 <= k < |list| ==> list[k].id in records && records[list[k].id] == list[k])
    && (forall id :: id in records ==> Listed(list, records[id]))
  }

  ghost predicate Listed(list: seq<Record>, r: Record) { exists k :: 0 <= k < |list| && list[k] == r }

  lemma {:induction false} LoadIsKeyed(list: seq<Record>)
    ensures Keyed(Load(list))
  {
    if list != [] {
      LoadIsKeyed(list[..|list| - 1]);
    }
  }

  lemma {:induction false} LoadFinds(list: seq<Record>, records: Records)
    requires forall k :: 0 <= k < |list| ==> list[k].id in records && records[list[k].id] == list[k]
    ensures forall id :: id in Load(list) ==> id in records && Load(list)[id] == records[id]
    ensures forall k :: 0 <= k < |list| ==> list[k].id in Load(list)
  {
    if list != [] {
      LoadFinds(list[..|list| - 1], records);
    }
  }

  /** Loading what was saved restores the records, in whatever order they were listed. */
  lemma {:induction false} LoadOfSave(list: seq<Record>, records: Records)
    requires Keyed(records) && Lists(list, records)
    ensures Load(list) == records
  {
    hide Load;
    LoadFinds(list, records);
    forall id | id in records ensures id in Load(list) {
      var k :| 0 <= k < |list| && list[k] == records[id];
      assert list[k].id == id;
    }
  }

  function InsertByCreation(list: seq<Record>, r: Record): seq<Record>
  {
    if list == [] || list[|list| - 1].createdAt <= r.createdAt then list + [r]
    else InsertByCreation(list[..|list| - 1], r) + [list[|list| - 1]]
  }

  lemma {:induction false} InsertKeepsOrder(list: seq<Record>, r: Record)
    requires ByCreation(list)
    ensures ByCreation(InsertByCreation(list, r)) && |InsertByCreation(list, r)| == |list| + 1
    ensures forall q :: Listed(InsertByCreation(list, r), q) <==> Listed(list, q) || q == r
  {
    if list == [] || list[|list| - 1].createdAt <= r.createdAt {
      ListedAppend(list, r);
    } else {
      var rest, last := list[..|list| - 1], list[|list| - 1];
      InsertKeepsOrder(rest, r);
      ListedAppend(rest, last);
      assert rest + [last] == list;
      ListedAppend(InsertByCreation(rest, r), last);
      forall i | 0 <= i < |rest| + 1 ensures InsertByCreation(rest, r)[i].createdAt <= last.createdAt {
        assert Listed(InsertByCreation(rest, r), InsertByCreation(rest, r)[i]);
      }
    }
  }

  lemma {:induction false} ListedAppend(list: seq<Record>, r: Record)
    ensures forall q :: Listed(list + [r], q) <==> Listed(list, q) || q == r
  {
    assert (list + [r])[|list|] == r;
    forall q | Listed(list, q) ensures Listed(list + [r], q) {
      var k :| 0 <= k < |list| && list[k] == q;
      assert (list + [r])[k] == q;
    }
  }

  /** `save_to_disk` collects the values, in any order, and sorts them by creation. */
  method SortedList(records: Records) returns (list: seq<Record>)
    requires Keyed(records)
    ensures ByCreation(list) && Lists(list, records) && |list| == |records|
  {
    hide InsertByCreation, Listed;
    list := [];
    assert forall q :: !Listed([], q) by { NoneListed(); }
    var left := records.Keys;
    while left != {}
      invariant left <= records.Keys && ByCreation(list)
      invariant |list| + |left| == |records.Keys|
      invariant forall q :: Listed(list, q) <==> q.id in records && q.id !in left && records[q.id] == q
      decreases left
    {
      var id :| id in left;
      InsertKeepsOrder(list, records[id]);
      list := InsertByCreation(list, records[id]);
      left := left - {id};
    }
    ListedMeans(list, records);
  }

  lemma {:induction false} NoneListed()
    ensures forall q :: !Listed([], q)
  {
  }

  lemma {:induction false} ListedMeans(list: seq<Record>, records: Records)
    requires Keyed(records)
    requires forall q :: Listed(list, q) <==> q.id in records && records[q.id] == q
    ensures Lists(list, records)
  {
    forall k | 0 <= k < |list| ensures list[k].id in records && records[list[k].id] == list[k] {
      assert Listed(list, list[k]);
    }
  }

  // ---- the store ------------------------------------------------------------------------------

  /** The records in memory, those a restart would load, and when the last use of each key
      was written down. */
  datatype Store = Store(records: Records, saved: Records, touched: map<string, nat>)

  /** An operation with its time and whether the file can be written. Issue takes the new
      record's name, kind, role, scopes, device and expiry from `like`. */
  datatype Op =
    | Issue(like: Record, draws: Draws)
    | Revoke(id: string)
    | Rotate(id: string, graceHours: Option<nat>, draws: Draws)
    | Delete(id: string)
    | Verify(credential: string)
    | Restart

  /** The records change in memory whether or not they can then be saved. */
  function Commit(s: Store, records: Records, saves: bool): Store
  {
    s.(records := records, saved := if saves then records else s.saved)
  }

  function IsRecent(touched: map<string, nat>, id: string, now: nat): bool
  {
    id in touched && (touched[id] >= now || now - touched[id] < TOUCH_INTERVAL)
  }

  /** `touch_last_used` */
  function Touch(s: Store, id: string, now: nat, saves: bool): Store
  {
    if IsRecent(s.touched, id, now) then s
    else
      var t := s.(touched := s.touched[id := now]);
      if id in s.records then Commit(t, s.records[id := s.records[id].(lastUsedAt := Some(now))], saves) else t
  }

  function Apply(s: Store, op: Op, hash: (string, string) -> string, now: nat, saves: bool): Store
  {
    match op
    case Issue(like, draws) =>
      (match NewKey(s.records, like, draws, hash, now)
       case Done((r, _)) => Commit(s, s.records[r.id := r], saves)
       case Failed(_) => s)
    case Revoke(id) =>
      (match AfterRevoke(s.records, id, now) case Done(records) => Commit(s, records, saves) case Failed(_) => s)
    case Rotate(id, graceHours, draws) =>
      (match AfterRotate(s.records, id, graceHours, draws, hash, now)
       case Done((records, _, _)) => Commit(s, records, saves)
       case Failed(_) => s)
    case Delete(id) =>
      (match AfterDelete(s.records, id) case Done(records) => Commit(s, records, saves) case Failed(_) => s)
    case Verify(credential) =>
      (match Judge(s.records, credential, hash, now)
       case Accepted(_) => Touch(s, Parse(credential).value.id, now, saves)
       case Rejected(_) => s)
    case Restart => Store(s.saved, s.saved, map[])
  }

  lemma {:induction false} KeyedAt(records: Records, id: string)
    requires Keyed(records) && id in records
    ensures records[id].id == id
  {
  }

  lemma {:induction false} KeyedUpdate(records: Records, id: string, r: Record)
    requires Keyed(records) && r.id == id
    ensures Keyed(records[id := r])
  {
  }

  lemma {:induction false} FreshIdIsFresh(records: Records, ids: seq<IdBytes>)
    ensures FreshId(records, ids).Some? ==>
      FreshId(records, ids).value !in records && ValidId(FreshId(records, ids).value)
  {
    hide CrockfordId, ValidId;
    if ids != [] {
      IdIsValid(ids[0]);
      FreshIdIsFresh(records, ids[1..]);
    }
  }

  /** A new key has an id of its own and what the request asked for. */
  lemma {:induction false} NewKeyFor(records: Records, like: Record, draws: Draws, hash: (string, string) -> string,
                                     now: nat)
    ensures match NewKey(records, like, draws, hash, now)
            case Done((r, credential)) =>
              && r.id !in records && ValidId(r.id) && draws.secret.Some?
              && credential == Format(r.kind, r.id, draws.secret.value)
              && r.hash == hash(r.salt, draws.secret.value)
              && Some(r.salt) == draws.salt && r.createdAt == now && r.revokedAt.None? && r.lastUsedAt.None?
              && r.name == like.name && r.kind == like.kind && r.role == like.role && r.scopes == like.scopes
              && r.deviceId == like.deviceId && r.expiresAt == like.expiresAt
            case Failed(_) => true
  {
    hide FreshId, ValidId;
    FreshIdIsFresh(records, draws.ids);
  }

  /** A key is made exactly when the generator gives a secret, a salt and some id that is not
      taken; it gets the first such id. */
  lemma {:induction false} NewKeyWhen(records: Records, like: Record, draws: Draws, hash: (string, string) -> string,
                                      now: nat)
    ensures match NewKey(records, like, draws, hash, now)
            case Done((r, _)) =>
              && draws.secret.Some? && draws.salt.Some?
              && exists k :: 0 <= k < |draws.ids| && CrockfordId(draws.ids[k]) == r.id
                             && forall i :: 0 <= i < k ==> CrockfordId(draws.ids[i]) in records
            case Failed(reason) =>
              && reason == NoRandomness
              && (draws.secret.None? || draws.salt.None?
                  || forall k :: 0 <= k < |draws.ids| ==> CrockfordId(draws.ids[k]) in records)
  {
    hide FreshId;
    FreshIdWhen(records, draws.ids);
  }

  lemma {:induction false} FreshIdWhen(records: Records, ids: seq<IdBytes>)
    ensures match FreshId(records, ids)
            case Some(id) => exists k :: 0 <= k < |ids| && CrockfordId(ids[k]) == id
                                         && forall i :: 0 <= i < k ==> CrockfordId(ids[i]) in records
            case None => forall k :: 0 <= k < |ids| ==> CrockfordId(ids[k]) in records
  {
    hide CrockfordId;
    if ids != [] && CrockfordId(ids[0]) in records {
      FreshIdWhen(records, ids[1..]);
      if FreshId(records, ids[1..]).Some? {
        var k :| 0 <= k < |ids[1..]| && CrockfordId(ids[1..][k]) == FreshId(records, ids[1..]).value
                 && forall i :: 0 <= i < k ==> CrockfordId(ids[1..][i]) in records;
        assert CrockfordId(ids[k + 1]) == CrockfordId(ids[1..][k]);
        forall i | 0 <= i < k + 1 ensures CrockfordId(ids[i]) in records {
          assert i == 0 || CrockfordId(ids[i]) == CrockfordId(ids[1..][i - 1]);
        }
      } else {
        forall k | 0 <= k < |ids| ensures CrockfordId(ids[k]) in records {
          assert k == 0 || CrockfordId(ids[k]) == CrockfordId(ids[1..][k - 1]);
        }
      }
    }
  }

  class KeyStore {
    const hash: (string, string) -> string
    var records: Records
    var disk: seq<Record>
    var touched: map<string, nat>

    ghost function State(): Store
      reads this
    {
      Store(records, Load(disk), touched)
    }

    ghost predicate Valid()
      reads this
    {
      Keyed(records)
    }

    /** Loads the file of a store that exists already. */
    constructor (hash: (string, string) -> string, file: seq<Record>)
      ensures Valid() && this.hash == hash && State() == Store(Load(file), Load(file), map[])
    {
      this.hash := hash;
      records, disk, touched := LoadFile(file), file, map[];
      new;
      LoadIsKeyed(file);
    }

    static function LoadFile(file: seq<Record>): (records: Records)
      ensures records == Load(file)
    {
      Load(file)
    }

    /** Writes the records, sorted, to a temporary file and renames it, which takes effect
        at once or not at all. */
    method SaveToDisk(saves: bool)
      requires Valid()
      modifies this`disk
      ensures Valid()
      ensures if saves then Load(disk) == records && ByCreation(disk) else disk == old(disk)
    {
      var list := SortedList(records);
      LoadOfSave(list, records);
      if saves {
        disk := list;
      }
    }

    method DrawId(ids: seq<IdBytes>) returns (id: Option<string>)
      ensures id == FreshId(records, ids)
    {
      var k := 0;
      while k < |ids|
        invariant 0 <= k <= |ids| && FreshId(records, ids) == FreshId(records, ids[k..])
      {
        assert ids[k..][1..] == ids[k + 1..];
        var candidate := CrockfordId(ids[k]);
        if candidate !in records {
          return Some(candidate);
        }
        k := k + 1;
      }
      id := None;
    }

    method MakeKey(like: Record, draws: Draws, now: nat) returns (made: Outcome<(Record, string)>)
      ensures made == NewKey(records, like, draws, hash, now)
    {
      var id := DrawId(draws.ids);
      if id.None? || draws.secret.None? || draws.salt.None? {
        return Failed(NoRandomness);
      }
      var salt, secret := draws.salt.value, draws.secret.value;
      var credential := "atpc_" + KindString(like.kind) + "_" + id.value + "_" + secret;
      made := Done((Record(id.value, like.name, like.kind, like.role, like.scopes, like.deviceId, salt,
                           hash(salt, secret), now, like.expiresAt, None, None), credential));
    }

    method IssueKey(like: Record, draws: Draws, now: nat, saves: bool) returns (r: Outcome<(Record, string)>)
      requires Valid()
      modifies this
      ensures Valid() && State() == Apply(old(State()), Issue(like, draws), hash, now, saves)
      ensures r == if NewKey(old(records), like, draws, hash, now).Done? && !saves then Failed(NotSaved)
                   else NewKey(old(records), like, draws, hash, now)
    {
      r := MakeKey(like, draws, now);
      if r.Done? {
        records := records[r.value.0.id := r.value.0];
        SaveToDisk(saves);
        if !saves {
          r := Failed(NotSaved);
        }
      }
    }

    method CountAdmins() returns (n: nat)
      ensures n == |ActiveAdmins(records)|
    {
      n := 0;
      var left := records.Keys;
      ghost var seen: set<string> := {};
      while left != {}
        invariant left <= records.Keys && seen == records.Keys - left
        invariant n == |AdminsAmong(records, seen)|
        decreases left
      {
        var id :| id in left;
        AdminsAmongMore(records, seen, id);
        if ActiveAdmin(records[id]) {
          n := n + 1;
        }
        left, seen := left - {id}, seen + {id};
      }
      assert AdminsAmong(records, seen) == ActiveAdmins(records);
    }

    /** The guard of `revoke` and `delete`. */
    method MayRetire(id: string) returns (refusal: Option<Failure>)
      ensures refusal == if id !in records then Some(NotFound)
                         else if ActiveAdmin(records[id]) && |ActiveAdmins(records)| <= 1 then Some(LastAdmin)
                         else None
    {
      if id !in records {
        return Some(NotFound);
      }
      if ActiveAdmin(records[id]) {
        var n := CountAdmins();
        if n <= 1 {
          return Some(LastAdmin);
        }
      }
      refusal := None;
    }

    method RevokeKey(id: string, now: nat, saves: bool) returns (r: Outcome<()>)
      requires Valid()
      modifies this
      ensures Valid() && State() == Apply(old(State()), Revoke(id), hash, now, saves)
      ensures match AfterRevoke(old(records), id, now)
              case Done(_) => r == if saves then Done(()) else Failed(NotSaved)
              case Failed(reason) => r == Failed(reason)
    {
      var refusal := MayRetire(id);
      if refusal.Some? {
        return Failed(refusal.value);
      }
      records := records[id := records[id].(revokedAt := Some(now))];
      SaveToDisk(saves);
      r := if saves then Done(()) else Failed(NotSaved);
    }

    method DeleteKey(id: string, now: nat, saves: bool) returns (r: Outcome<()>)
      requires Valid()
      modifies this
      ensures Valid() && State() == Apply(old(State()), Delete(id), hash, now, saves)
      ensures match AfterDelete(old(records), id)
              case Done(_) => r == if saves then Done(()) else Failed(NotSaved)
              case Failed(reason) => r == Failed(reason)
    {
      var refusal := MayRetire(id);
      if refusal.Some? {
        return Failed(refusal.value);
      }
      records := records - {id};
      SaveToDisk(saves);
      r := if saves then Done(()) else Failed(NotSaved);
    }

    method RotateKey(id: string, graceHours: Option<nat>, draws: Draws, now: nat, saves: bool)
      returns (r: Outcome<(Record, string)>)
      requires Valid()
      modifies this
      ensures Valid() && State() == Apply(old(State()), Rotate(id, graceHours, draws), hash, now, saves)
      ensures match AfterRotate(old(records), id, graceHours, draws, hash, now)
              case Done((_, made, credential)) => r == if saves then Done((made, credential)) else Failed(NotSaved)
              case Failed(reason) => r == Failed(reason)
    {
      hide Load, ByCreation, Keyed, NewKey;
      if id !in records {
        return Failed(NotFound);
      }
      var prior := records[id];
      KeyedAt(records, id);
      r := MakeKey(prior.(expiresAt := None), draws, now);
      if r.Failed? {
        return;
      }
      NewKeyFor(records, prior.(expiresAt := None), draws, hash, now);
      KeyedUpdate(records, r.value.0.id, r.value.0);
      records := records[r.value.0.id := r.value.0];
      if graceHours == Some(0) {
        prior := prior.(revokedAt := Some(now));
      } else if graceHours.Some? {
        prior := prior.(expiresAt := Some(At(now + graceHours.value * HOUR)));
      } else {
        prior := prior.(expiresAt := Some(At(now + 24 * HOUR)));
      }
      assert prior == Retired(old(records[id]), graceHours, now);
      KeyedUpdate(records, id, prior);
      records := records[id := prior];
      SaveToDisk(saves);
      if !saves {
        r := Failed(NotSaved);
      }
    }

    method TouchLastUsed(id: string, now: nat, saves: bool)
      requires Valid()
      modifies this
      ensures Valid() && State() == Touch(old(State()), id, now, saves)
    {
      if id in touched && (touched[id] >= now || now - touched[id] < TOUCH_INTERVAL) {
        return;
      }
      touched := touched[id := now];
      if id in records {
        records := records[id := records[id].(lastUsedAt := Some(now))];
        SaveToDisk(saves);
      }
    }

    method VerifyCredential(credential: string, now: nat, saves: bool) returns (v: Verdict)
      requires Valid()
      modifies this
      ensures Valid() && State() == Apply(old(State()), Verify(credential), hash, now, saves)
      ensures v == Judge(old(records), credential, hash, now)
    {
      var parsed := Parse(credential);
      if parsed.InvalidFormat? {
        return Rejected(BadFormat);
      }
      var id := parsed.value.id;
      if id !in records {
        return Rejected(KeyNotFound);
      }
      var record := records[id];
      if record.kind != parsed.value.kind {
        return Rejected(WrongKind);
      }
      if hash(record.salt, parsed.value.secret) != record.hash {
        return Rejected(HashMismatch);
      }
      if record.revokedAt.Some? {
        return Rejected(Revoked);
      }
      if record.expiresAt.Some? {
        if record.expiresAt.value.Unreadable? || record.expiresAt.value.time <= now {
          return Rejected(Expired);
        }
      }
      TouchLastUsed(id, now, saves);
      v := Accepted(record);
    }
  }

  function AdminsAmong(records: Records, ids: set<string>): set<string>
  {
    set id | id in ids && id in records && ActiveAdmin(records[id])
  }

  lemma {:induction false} AdminsAmongMore(records: Records, ids: set<string>, id: string)
    requires id in records && id !in ids
    ensures |AdminsAmong(records, ids + {id})|
            == |AdminsAmong(records, ids)| + (if ActiveAdmin(records[id]) then 1 else 0)
  {
    if ActiveAdmin(records[id]) {
      assert AdminsAmong(records, ids + {id}) == AdminsAmong(records, ids) + {id};
    } else {
      assert AdminsAmong(records, ids + {id}) == AdminsAmong(records, ids);
    }
  }

  // ---- runs -----------------------------------------------------------------------------------

  datatype Event = Event(op: Op, now: nat, saves: bool)

  function Run(s: Store, events: seq<Event>, hash: (string, string) -> string): Store
    decreases |events|
  {
    if events == [] then s
    else Run(Apply(s, events[0].op, hash, events[0].now, events[0].saves), events[1..], hash)
  }

  ghost predicate SoundRecords(records: Records) { Keyed(records) && HasAdmin(records) }

  /** The key under this id lets somebody in as an administrator: what the guards keep. */
  ghost predicate AdminAt(records: Records, id: string)
  {
    && id in records
    && records[id].kind == SecretKey && records[id].role == Some(Admin) && records[id].revokedAt.None?
  }

  /** No other key but this one lets an administrator in. */
  ghost predicate OnlyAdmin(records: Records, id: string)
  {
    AdminAt(records, id) && forall a :: AdminAt(records, a) ==> a == id
  }

  ghost predicate HasAdmin(records: Records) { exists id :: AdminAt(records, id) }

  ghost predicate Sound(s: Store) { SoundRecords(s.records) && SoundRecords(s.saved) }

  /** Replacing a record by one that is an admin key if it was keeps an admin key. */
  lemma {:induction false} UpdateKeepsAdmin(records: Records, id: string, r: Record)
    requires HasAdmin(records)
    requires AdminAt(records, id) ==> AdminAt(records[id := r], id)
    ensures HasAdmin(records[id := r])
  {
    var a :| AdminAt(records, a);
    assert AdminAt(records[id := r], a);
  }

  /** With two admin keys, or one that is not `id`, another is left. */
  lemma {:induction false} AnotherAdmin(records: Records, id: string) returns (a: string)
    requires HasAdmin(records)
    requires AdminAt(records, id) ==> |ActiveAdmins(records)| > 1
    ensures a != id && AdminAt(records, a)
  {
    if AdminAt(records, id) {
      assert |ActiveAdmins(records) - {id}| == |ActiveAdmins(records)| - 1;
      a :| a in ActiveAdmins(records) - {id};
    } else {
      a :| AdminAt(records, a);
    }
  }

  /** The guard of `revoke` and `delete`, in both directions: they refuse exactly a key that
      is not there and the only one left that lets an administrator in, and otherwise mark
      that key as revoked, or remove it, and touch no other. */
  lemma {:induction false} RetiresWhen(records: Records, id: string, now: nat)
    ensures var revoked, deleted := AfterRevoke(records, id, now), AfterDelete(records, id);
            if id !in records then revoked == deleted == Failed(NotFound)
            else if OnlyAdmin(records, id) then revoked == deleted == Failed(LastAdmin)
            else
              && revoked == Done(records[id := records[id].(revokedAt := Some(now))])
              && deleted == Done(map a | a in records && a != id :: records[a])
  {
    if AdminAt(records, id) {
      if |ActiveAdmins(records)| > 1 {
        var a := AnotherAdmin(records, id);
      } else {
        forall a | AdminAt(records, a) ensures a == id {
          AtMostOne(ActiveAdmins(records), id, a);
        }
      }
    }
    assert records - {id} == map a | a in records && a != id :: records[a];
  }

  lemma {:induction false} AtMostOne(ids: set<string>, a: string, b: string)
    requires |ids| <= 1 && a in ids && b in ids
    ensures a == b
  {
    assert |ids - {a}| == |ids| - 1;
  }

  lemma {:induction false} RevokeKeepsSound(records: Records, id: string, now: nat)
    requires SoundRecords(records)
    ensures AfterRevoke(records, id, now).Done? ==> SoundRecords(AfterRevoke(records, id, now).value)
  {
    hide ActiveAdmins;
    if AfterRevoke(records, id, now).Done? {
      var a := AnotherAdmin(records, id);
      assert AdminAt(AfterRevoke(records, id, now).value, a);
    }
  }

  lemma {:induction false} DeleteKeepsSound(records: Records, id: string)
    requires SoundRecords(records)
    ensures AfterDelete(records, id).Done? ==> SoundRecords(AfterDelete(records, id).value)
  {
    hide ActiveAdmins;
    if AfterDelete(records, id).Done? {
      var a := AnotherAdmin(records, id);
      assert AdminAt(AfterDelete(records, id).value, a);
    }
  }

  lemma {:induction false} IssueKeepsSound(records: Records, r: Record)
    requires SoundRecords(records) && r.id !in records
    ensures SoundRecords(records[r.id := r])
  {
    UpdateKeepsAdmin(records, r.id, r);
    KeyedUpdate(records, r.id, r);
  }

  /** Rotating the last admin key is safe even with no grace: its successor is one too. */
  lemma {:induction false} RotateKeepsSound(records: Records, id: string, graceHours: Option<nat>, draws: Draws,
                                            hash: (string, string) -> string, now: nat)
    requires SoundRecords(records)
    ensures AfterRotate(records, id, graceHours, draws, hash, now).Done? ==>
              SoundRecords(AfterRotate(records, id, graceHours, draws, hash, now).value.0)
  {
    hide NewKey, Keyed, HasAdmin;
    if AfterRotate(records, id, graceHours, draws, hash, now).Done? {
      var prior := records[id];
      var (next, made, _) := AfterRotate(records, id, graceHours, draws, hash, now).value;
      NewKeyFor(records, prior.(expiresAt := None), draws, hash, now);
      KeyedAt(records, id);
      KeyedUpdate(records, made.id, made);
      var retired := Retired(prior, graceHours, now);
      KeyedUpdate(records[made.id := made], id, retired);
      RotatedHasAdmin(records, id, made, retired);
    }
  }

  lemma {:induction false} RotatedHasAdmin(records: Records, id: string, made: Record, retired: Record)
    requires HasAdmin(records) && id in records && made.id !in records
    requires AdminAt(records, id) ==> AdminAt(records[made.id := made], made.id)
    ensures HasAdmin(records[made.id := made][id := retired])
  {
    var a :| AdminAt(records, a);
    var next := records[made.id := made][id := retired];
    assert AdminAt(next, if a == id then made.id else a);
  }

  lemma {:induction false} TouchKeepsSound(s: Store, id: string, now: nat, saves: bool)
    requires Sound(s)
    ensures Sound(Touch(s, id, now, saves))
  {
    if id in s.records {
      var r := s.records[id].(lastUsedAt := Some(now));
      KeyedAt(s.records, id);
      KeyedUpdate(s.records, id, r);
      UpdateKeepsAdmin(s.records, id, r);
    }
  }

  lemma {:induction false} ApplyKeepsSound(s: Store, op: Op, hash: (string, string) -> string, now: nat, saves: bool)
    requires Sound(s)
    ensures Sound(Apply(s, op, hash, now, saves))
  {
    hide NewKey, AfterRevoke, AfterRotate, AfterDelete, Touch, Judge, SoundRecords;
    match op
    case Issue(like, draws) =>
      NewKeyFor(s.records, like, draws, hash, now);
      if NewKey(s.records, like, draws, hash, now).Done? {
        IssueKeepsSound(s.records, NewKey(s.records, like, draws, hash, now).value.0);
      }
    case Revoke(id) => RevokeKeepsSound(s.records, id, now);
    case Rotate(id, graceHours, draws) => RotateKeepsSound(s.records, id, graceHours, draws, hash, now);
    case Delete(id) => DeleteKeepsSound(s.records, id);
    case Verify(credential) =>
      if Judge(s.records, credential, hash, now).Accepted? {
        JudgedParses(s.records, credential, hash, now);
        TouchKeepsSound(s, Parse(credential).value.id, now, saves);
      }
    case Restart =>
  }

  lemma {:induction false} JudgedParses(records: Records, credential: string, hash: (string, string) -> string,
                                        now: nat)
    requires Judge(records, credential, hash, now).Accepted?
    ensures Parse(credential).Ok? && Parse(credential).value.id in records
  {
    hide Parse;
  }

  /** From a store with an unrevoked admin key, no run reaches one without, in memory or
      after a restart, whichever saves fail; and every record stays under its own id. */
  lemma {:induction false} AlwaysAnAdmin(s: Store, events: seq<Event>, hash: (string, string) -> string)
    requires Sound(s)
    ensures Sound(Run(s, events, hash))
    decreases |events|
  {
    hide Sound, Apply;
    if events != [] {
      ApplyKeepsSound(s, events[0].op, hash, events[0].now, events[0].saves);
      AlwaysAnAdmin(Apply(s, events[0].op, hash, events[0].now, events[0].saves), events[1..], hash);
    }
  }

  // ---- what a restart brings back ---------------------------------------------------

  /** A change that could be saved survives a restart, one that could not is gone after it;
      and a call that changes nothing leaves the file alone. */
  lemma {:induction false} SavedSurvives(s: Store, op: Op, hash: (string, string) -> string, now: nat, saves: bool,
                                         later: nat)
    requires !op.Restart?
    ensures var t := Apply(s, op, hash, now, saves);
            var restarted := Apply(t, Restart, hash, later, saves).records;
            if saves && t.records != s.records then restarted == t.records
            else restarted == s.saved || restarted == t.records == s.records
  {
    hide NewKey, AfterRevoke, AfterRotate, AfterDelete, Judge, Parse;
  }

  /** As long as every save succeeds a restart loses nothing. */
  lemma {:induction false} NothingLost(s: Store, events: seq<Event>, hash: (string, string) -> string, now: nat)
    requires s.saved == s.records && forall k :: 0 <= k < |events| ==> events[k].saves
    ensures var t := Run(s, events, hash);
            t.saved == t.records && Apply(t, Restart, hash, now, true).records == t.records
    decreases |events|
  {
    hide NewKey, AfterRevoke, AfterRotate, AfterDelete, Judge, Parse;
    if events != [] {
      NothingLost(Apply(s, events[0].op, hash, events[0].now, events[0].saves), events[1..], hash, now);
    }
  }

  // ---- which credentials are accepted -----------------------------------------------------------

  predicate Unexpired(r: Record, now: nat)
  {
    r.expiresAt.None? || (r.expiresAt.value.At? && r.expiresAt.value.time > now)
  }

  /** The answer to the credential of a record that is in the store. */
  lemma {:induction false} OwnCredential(records: Records, r: Record, secret: string, hash: (string, string) -> string,
                                         now: nat)
    requires ValidId(r.id) && ValidSecret(secret) && r.hash == hash(r.salt, secret)
    ensures var v := Judge(records, Format(r.kind, r.id, secret), hash, now);
            && (r.id !in records ==> v == Rejected(KeyNotFound))
            && (r.id in records && records[r.id] == r ==>
                  v == if r.revokedAt.Some? then Rejected(Revoked)
                       else if Unexpired(r, now) then Accepted(r)
                       else Rejected(Expired))
  {
    hide ValidId, ValidSecret, Parse;
    ParseOfFormat(r.kind, r.id, secret);
  }

  /** The answer to any well-formed credential: the first check that fails names the error. */
  lemma {:induction false} JudgedInOrder(records: Records, kind: KeyKind, id: string, secret: string,
                                         hash: (string, string) -> string, now: nat)
    requires ValidId(id) && ValidSecret(secret)
    ensures var v := Judge(records, Format(kind, id, secret), hash, now);
            && (id !in records ==> v == Rejected(KeyNotFound))
            && (id in records ==>
                  var r := records[id];
                  && (r.kind != kind ==> v == Rejected(WrongKind))
                  && (r.kind == kind && hash(r.salt, secret) != r.hash ==> v == Rejected(HashMismatch))
                  && (r.kind == kind && hash(r.salt, secret) == r.hash ==>
                        && (r.revokedAt.Some? ==> v == Rejected(Revoked))
                        && (r.revokedAt.None? && !Unexpired(r, now) ==> v == Rejected(Expired))
                        && (r.revokedAt.None? && Unexpired(r, now) ==> v == Accepted(r))))
  {
    hide ValidId, ValidSecret, Parse, Format;
    ParseOfFormat(kind, id, secret);
  }

  /** The string is the credential of the record under this id, with the right secret. */
  ghost predicate Opens(records: Records, credential: string, hash: (string, string) -> string,
                        id: string, secret: string)
  {
    && ValidId(id) && ValidSecret(secret) && id in records
    && credential == Format(records[id].kind, id, secret)
    && hash(records[id].salt, secret) == records[id].hash
  }

  /** A string is accepted for a record exactly when it is its credential, with a secret
      that hashes to what is stored, and the record is neither revoked nor expired. */
  lemma {:induction false} AcceptedWhen(records: Records, credential: string, hash: (string, string) -> string,
                                        now: nat, r: Record)
    ensures Judge(records, credential, hash, now) == Accepted(r)
            <==> exists id, secret :: Opens(records, credential, hash, id, secret)
                                      && records[id] == r && r.revokedAt.None? && Unexpired(r, now)
  {
    hide ValidId, ValidSecret, Parse, Format;
    FormatOfParse(credential);
    if Judge(records, credential, hash, now) == Accepted(r) {
      var p := Parse(credential).value;
      assert Opens(records, credential, hash, p.id, p.secret);
    }
    if id, secret :| Opens(records, credential, hash, id, secret)
                     && records[id] == r && r.revokedAt.None? && Unexpired(r, now) {
      JudgedInOrder(records, r.kind, id, secret, hash, now);
    }
  }

  /** A string is called badly formed exactly when it is no credential of any key. */
  lemma {:induction false} BadFormatWhen(records: Records, credential: string, hash: (string, string) -> string,
                                         now: nat)
    ensures Judge(records, credential, hash, now) == Rejected(BadFormat)
            <==> forall kind, id, secret ::
                   ValidId(id) && ValidSecret(secret) ==> credential != Format(kind, id, secret)
  {
    hide ValidId, ValidSecret, Parse, Format;
    FormatOfParse(credential);
    forall kind, id, secret | ValidId(id) && ValidSecret(secret) && credential == Format(kind, id, secret)
      ensures Parse(credential).Ok?
    {
      ParseOfFormat(kind, id, secret);
    }
  }

  /** The credential handed out with a new key is unknown before, accepted from then on until
      the key expires, refused as revoked once it is revoked, and unknown once it is deleted,
      if it is not the only admin key, which stays. */
  lemma {:induction false} IssuedKeyLives(s: Store, like: Record, draws: Draws, hash: (string, string) -> string,
                                          at: nat, saves: bool, now: nat)
    requires NewKey(s.records, like, draws, hash, at).Done?
    requires ValidSecret(draws.secret.value)
    ensures var (r, credential) := NewKey(s.records, like, draws, hash, at).value;
            var issued := Apply(s, Issue(like, draws), hash, at, saves);
            var revoked := Apply(issued, Revoke(r.id), hash, at, saves);
            var deleted := Apply(issued, Delete(r.id), hash, at, saves);
            var live := if Unexpired(like, now) then Accepted(r) else Rejected(Expired);
            && Judge(s.records, credential, hash, now) == Rejected(KeyNotFound)
            && Judge(issued.records, credential, hash, now) == live
            && Judge(revoked.records, credential, hash, now)
               == (if OnlyAdmin(issued.records, r.id) then live else Rejected(Revoked))
            && Judge(deleted.records, credential, hash, now)
               == (if OnlyAdmin(issued.records, r.id) then live else Rejected(KeyNotFound))
  {
    hide NewKey, Judge, AfterRevoke, AfterDelete, AdminAt, ValidId, ValidSecret, Format;
    NewKeyFor(s.records, like, draws, hash, at);
    var (r, credential) := NewKey(s.records, like, draws, hash, at).value;
    var secret, issued := draws.secret.value, s.records[r.id := r];
    RetiresWhen(issued, r.id, at);
    OwnCredential(s.records, r, secret, hash, now);
    OwnCredential(issued, r, secret, hash, now);
    OwnCredential(issued[r.id := r.(revokedAt := Some(at))], r.(revokedAt := Some(at)), secret, hash, now);
    OwnCredential(map a | a in issued && a != r.id :: issued[a], r, secret, hash, now);
  }

  /** After a rotation the new credential is accepted without limit, and the one before it
      no longer, or, given a grace, until that is over: whatever expiry the key had. */
  lemma {:induction false} RotationHandsOver(s: Store, id: string, secret: string, graceHours: Option<nat>,
                                             draws: Draws, hash: (string, string) -> string,
                                             at: nat, saves: bool, now: nat)
    requires Keyed(s.records) && id in s.records
    requires NewKey(s.records, s.records[id].(expiresAt := None), draws, hash, at).Done?
    requires ValidId(id) && ValidSecret(secret) && s.records[id].hash == hash(s.records[id].salt, secret)
    requires ValidSecret(draws.secret.value)
    ensures var prior := s.records[id];
            var (made, credential) := NewKey(s.records, prior.(expiresAt := None), draws, hash, at).value;
            var next := Apply(s, Rotate(id, graceHours, draws), hash, at, saves).records;
            var verdict := Judge(next, Format(prior.kind, id, secret), hash, now);
            && AfterRotate(s.records, id, graceHours, draws, hash, at) == Done((next, made, credential))
            && Judge(next, credential, hash, now) == Accepted(made)
            && made.(id := id, salt := prior.salt, hash := prior.hash, createdAt := prior.createdAt)
               == prior.(expiresAt := None, revokedAt := None, lastUsedAt := None)
            && (prior.revokedAt.Some? || graceHours == Some(0) ==> verdict == Rejected(Revoked))
            && (prior.revokedAt.None? && graceHours != Some(0) ==>
                  var end := at + (if graceHours.Some? then graceHours.value else 24) * 3_600_000_000_000;
                  verdict == if now < end then Accepted(prior.(expiresAt := Some(At(end)))) else Rejected(Expired))
  {
    hide NewKey, Judge, ValidId, ValidSecret, Format, Keyed;
    KeyedAt(s.records, id);
    var prior := s.records[id];
    NewKeyFor(s.records, prior.(expiresAt := None), draws, hash, at);
    var (next, made, credential) := AfterRotate(s.records, id, graceHours, draws, hash, at).value;
    OwnCredential(next, made, draws.secret.value, hash, now);
    OwnCredential(next, Retired(prior, graceHours, at), secret, hash, now);
  }

  /** The keys an operation is about: the one it names and the one it makes. */
  function Concerned(s: Store, op: Op, hash: (string, string) -> string, now: nat): set<string>
    requires !op.Restart?
  {
    match op
    case Issue(like, draws) => Made(NewKey(s.records, like, draws, hash, now))
    case Revoke(id) => {id}
    case Rotate(id, _, draws) =>
      if id !in s.records then {id}
      else {id} + Made(NewKey(s.records, s.records[id].(expiresAt := None), draws, hash, now))
    case Delete(id) => {id}
    case Verify(credential) => if Parse(credential).Ok? then {Parse(credential).value.id} else {}
  }

  function Made(made: Outcome<(Record, string)>): set<string>
  {
    match made case Done((r, _)) => {r.id} case Failed(_) => {}
  }

  lemma {:induction false} OthersStay(s: Store, op: Op, hash: (string, string) -> string, now: nat, saves: bool,
                                      id: string)
    requires !op.Restart? && id !in Concerned(s, op, hash, now)
    ensures var next := Apply(s, op, hash, now, saves).records;
            (id in next <==> id in s.records) && (id in next ==> next[id] == s.records[id])
  {
    hide NewKey, Parse, ActiveAdmin, ActiveAdmins;
  }

  /** Every operation but a restart leaves the verdict on the credentials of all keys it is
      not about as it was, at any later time. */
  lemma {:induction false} OthersUnaffected(s: Store, op: Op, hash: (string, string) -> string, at: nat, saves: bool,
                                            credential: string, now: nat)
    requires !op.Restart?
    requires Parse(credential).Ok? ==> Parse(credential).value.id !in Concerned(s, op, hash, at)
    ensures Judge(Apply(s, op, hash, at, saves).records, credential, hash, now)
            == Judge(s.records, credential, hash, now)
  {
    hide Parse, Apply, Concerned;
    if Parse(credential).Ok? {
      OthersStay(s, op, hash, at, saves, Parse(credential).value.id);
    }
  }

  /** Verifying changes no later verdict: only the time of use of the key accepted. */
  lemma {:induction false} VerifyChangesNoVerdict(s: Store, used: string, hash: (string, string) -> string, at: nat,
                                                  saves: bool, credential: string, now: nat)
    ensures var before := Judge(s.records, credential, hash, now);
            var after := Judge(Apply(s, Verify(used), hash, at, saves).records, credential, hash, now);
            match before
            case Rejected(error) => after == Rejected(error)
            case Accepted(r) => after.Accepted? && after.principal.(lastUsedAt := None) == r.(lastUsedAt := None)
  {
    hide Parse;
  }

  /** The time of last use that is stored for this key changes. */
  ghost predicate NotesUse(s: Store, e: Event, id: string, hash: (string, string) -> string)
  {
    var next := Apply(s, e.op, hash, e.now, e.saves);
    && id in s.records && id in next.records
    && next.records[id].lastUsedAt != s.records[id].lastUsedAt && !e.op.Restart?
  }

  /** An accepted credential leaves the time of its use, if none was noted in the minute
      before. */
  lemma {:induction false} UseIsNoted(s: Store, credential: string, id: string, secret: string, now: nat, saves: bool,
                                      hash: (string, string) -> string)
    requires Opens(s.records, credential, hash, id, secret) && Judge(s.records, credential, hash, now).Accepted?
    ensures var t := Apply(s, Verify(credential), hash, now, saves);
            if id in s.touched && now < s.touched[id] + 60_000_000_000 then t == s
            else
              && t.touched == s.touched[id := now]
              && t.records == s.records[id := s.records[id].(lastUsedAt := Some(now))]
              && t.saved == if saves then t.records else s.saved
  {
    hide Parse, Format, ValidId, ValidSecret, Judge;
    ParseOfFormat(s.records[id].kind, id, secret);
  }

  lemma {:induction false} NoteIsTouch(s: Store, e: Event, id: string, hash: (string, string) -> string)
    requires !e.op.Restart?
    ensures var t := Apply(s, e.op, hash, e.now, e.saves).touched;
            && (id in s.touched ==> id in t && t[id] >= s.touched[id])
            && (NotesUse(s, e, id, hash) ==>
                  && (id in s.touched ==> e.now >= s.touched[id] + 60_000_000_000)
                  && id in t && t[id] == e.now)
  {
    hide NewKey, AfterRevoke, AfterRotate, AfterDelete, Judge, Parse;
    match e.op
    case Issue(like, draws) => NewKeyFor(s.records, like, draws, hash, e.now);
    case Revoke(a) => RetiresWhen(s.records, a, e.now);
    case Rotate(a, graceHours, draws) =>
      if AfterRotate(s.records, a, graceHours, draws, hash, e.now).Done? && id in s.records {
        RotateKeepsUse(s.records, a, graceHours, draws, hash, e.now, id);
      }
    case Delete(a) => RetiresWhen(s.records, a, e.now);
    case Verify(_) =>
    case Restart =>
  }

  lemma {:induction false} RotateKeepsUse(records: Records, id: string, graceHours: Option<nat>, draws: Draws,
                                          hash: (string, string) -> string, now: nat, other: string)
    requires AfterRotate(records, id, graceHours, draws, hash, now).Done? && other in records
    ensures var next := AfterRotate(records, id, graceHours, draws, hash, now).value.0;
            other in next && next[other].lastUsedAt == records[other].lastUsedAt
  {
    hide NewKey;
    NewKeyFor(records, records[id].(expiresAt := None), draws, hash, now);
  }

  /** Between two restarts the stored time of last use of a key changes at most once a minute. */
  lemma {:induction false} NotesAreAMinuteApart(s: Store, events: seq<Event>, i: nat, j: nat, id: string,
                                                hash: (string, string) -> string)
    requires i < j < |events| && forall k :: i <= k <= j ==> !events[k].op.Restart?
    requires NotesUse(Run(s, events[..i], hash), events[i], id, hash)
    requires NotesUse(Run(s, events[..j], hash), events[j], id, hash)
    ensures events[j].now >= events[i].now + 60_000_000_000
  {
    hide Apply, NotesUse, Run;
    RunMore(s, events, i, hash);
    NoteIsTouch(Run(s, events[..i], hash), events[i], id, hash);
    TouchesGrow(s, events, i + 1, j, id, hash);
    NoteIsTouch(Run(s, events[..j], hash), events[j], id, hash);
  }

  lemma {:induction false} TouchesGrow(s: Store, events: seq<Event>, i: nat, j: nat, id: string,
                                       hash: (string, string) -> string)
    requires i <= j <= |events| && forall k :: i <= k < j ==> !events[k].op.Restart?
    requires id in Run(s, events[..i], hash).touched
    ensures var t := Run(s, events[..j], hash).touched; id in t && t[id] >= Run(s, events[..i], hash).touched[id]
    decreases j - i
  {
    hide Apply, Run;
    if i < j {
      TouchesGrow(s, events, i, j - 1, id, hash);
      NoteIsTouch(Run(s, events[..j - 1], hash), events[j - 1], id, hash);
      RunMore(s, events, j - 1, hash);
    }
  }

  lemma {:induction false} RunMore(s: Store, events: seq<Event>, k: nat, hash: (string, string) -> string)
    requires k < |events|
    ensures var e := events[k];
            Run(s, events[..k + 1], hash) == Apply(Run(s, events[..k], hash), e.op, hash, e.now, e.saves)
    decreases k
  {
    hide Apply;
    if k > 0 {
      var e := events[0];
      RunMore(Apply(s, e.op, hash, e.now, e.saves), events[1..], k - 1, hash);
      RestOfFront(events, k + 1);
      RestOfFront(events, k);
    }
  }

  lemma RestOfFront<T>(s: seq<T>, k: nat)
    requires 0 < k <= |s|
    ensures s[..k][1..] == s[1..][..k - 1]
  {
  }

  /** The admin keys that can still be used. */
  ghost function UsableAdmins(records: Records, now: nat): set<string>
  {
    set id | id in records && AdminAt(records, id) && Unexpired(records[id], now)
  }

  /** The guard counts keys that are not revoked, expired or not: it lets the only usable
      admin key be revoked or deleted while an expired one is left. */
  lemma {:induction false} GuardCountsExpiredKeys(a: Record, b: Record, now: nat)
    requires a.id != b.id && AdminAt(map[a.id := a], a.id) && AdminAt(map[b.id := b], b.id)
    requires !Unexpired(a, now) && Unexpired(b, now)
    ensures var records := map[a.id := a, b.id := b];
            var revoked, deleted := AfterRevoke(records, b.id, now), AfterDelete(records, b.id);
            && UsableAdmins(records, now) == {b.id}
            && revoked.Done? && UsableAdmins(revoked.value, now) == {}
            && deleted.Done? && UsableAdmins(deleted.value, now) == {}
  {
    hide Unexpired;
    var records := map[a.id := a, b.id := b];
    assert ActiveAdmins(records) == {a.id, b.id};
    assert UsableAdmins(records, now) == {b.id};
    UsableAdminLeft(records, b.id, now);
  }

  lemma {:induction false} UsableAdminsAfter(records: Records, id: string, now: nat)
    ensures AfterRevoke(records, id, now).Done? ==>
      UsableAdmins(AfterRevoke(records, id, now).value, now) == UsableAdmins(records, now) - {id}
    ensures AfterDelete(records, id).Done? ==>
      UsableAdmins(AfterDelete(records, id).value, now) == UsableAdmins(records, now) - {id}
  {
    hide Unexpired, ActiveAdmins;
  }

  /** So `revoke` and `delete` take the last usable admin key exactly when the key is that
      one and the guard sees another, which must have expired. */
  lemma {:induction false} UsableAdminLeft(records: Records, id: string, now: nat)
    requires UsableAdmins(records, now) != {}
    ensures var another := exists a :: a != id && AdminAt(records, a);
            var revoked, deleted := AfterRevoke(records, id, now), AfterDelete(records, id);
            && (revoked.Done? && UsableAdmins(revoked.value, now) == {}
                <==> UsableAdmins(records, now) == {id} && another)
            && (deleted.Done? && UsableAdmins(deleted.value, now) == {}
                <==> UsableAdmins(records, now) == {id} && another)
  {
    hide ActiveAdmin, ActiveAdmins, AfterRevoke, AfterDelete, Unexpired;
    UsableAdminsAfter(records, id, now);
    RetiresWhen(records, id, now);
    OnlyElement(UsableAdmins(records, now), id);
    assert id in UsableAdmins(records, now) ==> AdminAt(records, id);
  }

  lemma {:induction false} OnlyElement(ids: set<string>, id: string)
    requires ids != {}
    ensures ids - {id} == {} <==> ids == {id}
  {
    var a :| a in ids;
    assert a in ids - {id} || a == id;
  }
}
