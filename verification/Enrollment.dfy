/** Pending enrollments and their challenges in crates/server/src/enrollment_store.rs.
    Times are in whole seconds. */
module Enrollment {
  import opened Wrappers

  const DEFAULT_CHALLENGE_TTL_SECS: nat := 120
  const U32_MAX: nat := 0xFFFF_FFFF

  datatype Hello = Hello(device: string, publicKey: string, facts: string, capabilities: seq<string>)

  datatype Record = Record(
    id: string, device: string, publicKey: string, fingerprint: string, facts: string, capabilities: seq<string>,
    requestedAt: nat, lastSeenAt: nat, expiresAt: nat, requestCount: nat, sourceIp: Option<string>)

  datatype Challenge = Challenge(id: string, nonce: string, expiresAt: nat, hello: Hello, sourceIp: Option<string>)

  datatype Error =
    | CapacityExceeded | IdentityConflict | ChallengeNotFound | ChallengeExpired | RandomnessUnavailable | Persistence

  datatype Result<+T> = Ok(value: T) | Err(error: Error)

  datatype Upsert = Upsert(record: Record, created: bool)

  type Records = map<string, Record>

  /** The limits of a store, and the fingerprint of a public key. */
  datatype Config = Config(pendingTtl: nat, challengeTtl: nat, maxPending: nat, fingerprint: string -> string)

  function Pruned(records: Records, now: nat): Records
  {
    map id | id in records && records[id].expiresAt > now :: records[id]
  }

  ghost predicate SameDevice(records: Records, id: string, device: string)
  {
    id in records && records[id].device == device
  }

  ghost predicate SameKey(records: Records, id: string, key: string) { id in records && records[id].fingerprint == key }

  /** Live records pair devices with keys one to one. */
  ghost predicate Paired(records: Records)
  {
    && (forall id :: id in records ==> records[id].id == id)
    && (forall a, b :: a in records && b in records && a != b ==>
          records[a].device != records[b].device && records[a].fingerprint != records[b].fingerprint)
  }

  /** A live record has the device but another key, or the key but another device. */
  ghost predicate Conflicts(records: Records, device: string, key: string)
  {
    exists id :: Mismatch(records, id, device, key)
  }

  ghost predicate Mismatch(records: Records, id: string, device: string, key: string)
  {
    id in records && (records[id].device == device) != (records[id].fingerprint == key)
  }

  ghost predicate Knows(records: Records, id: string, device: string, key: string)
  {
    SameDevice(records, id, device) && SameKey(records, id, key)
  }

  ghost predicate Known(records: Records, device: string, key: string) { exists id :: Knows(records, id, device, key) }

  // ---- what the operations do --------------------------------------------------------------

  function Refreshed(r: Record, hello: Hello, sourceIp: Option<string>, now: nat, ttl: nat): Record
  {
    r.(facts := hello.facts, capabilities := hello.capabilities, lastSeenAt := now, expiresAt := now + ttl,
       requestCount := if r.requestCount < U32_MAX then r.requestCount + 1 else U32_MAX, sourceIp := sourceIp)
  }

  function Requested(c: Config, id: string, hello: Hello, sourceIp: Option<string>, now: nat): Record
  {
    Record(id, hello.device, hello.publicKey, c.fingerprint(hello.publicKey), hello.facts, hello.capabilities,
           now, now, now + c.pendingTtl, 0, sourceIp)
  }

  /** `create_or_refresh_pending` in memory, with `draw` for the id of a new record. */
  ghost function AfterCreate(c: Config, records: Records, hello: Hello, sourceIp: Option<string>, now: nat,
                             draw: string)
    : (Records, Result<Upsert>)
  {
    var live, key := Pruned(records, now), c.fingerprint(hello.publicKey);
    if Conflicts(live, hello.device, key) then (live, Err(IdentityConflict))
    else if Known(live, hello.device, key) then
      var id :| Knows(live, id, hello.device, key);
      var r := Refreshed(live[id], hello, sourceIp, now, c.pendingTtl);
      (live[id := r], Ok(Upsert(r, false)))
    else if |live| >= c.maxPending then (live, Err(CapacityExceeded))
    else
      var first := if draw in live then live[draw] else Requested(c, draw, hello, sourceIp, now);
      var r := Refreshed(first, hello, sourceIp, now, c.pendingTtl);
      (live[draw := r], Ok(Upsert(r, true)))
  }

  /** What keeps `issue_challenge` from issuing one. */
  ghost function Refusal(c: Config, live: Records, hello: Hello): Option<Error>
  {
    var key := c.fingerprint(hello.publicKey);
    if Conflicts(live, hello.device, key) then Some(IdentityConflict)
    else if !Known(live, hello.device, key) && |live| >= c.maxPending then Some(CapacityExceeded)
    else None
  }

  function NewChallenge(c: Config, id: string, nonce: string, hello: Hello, sourceIp: Option<string>,
                        now: nat): Challenge
  {
    var ttl := if c.challengeTtl < DEFAULT_CHALLENGE_TTL_SECS then DEFAULT_CHALLENGE_TTL_SECS else c.challengeTtl;
    Challenge(id, nonce, now + ttl, hello, sourceIp)
  }

  function Unexpired(challenges: map<string, Challenge>, now: nat): map<string, Challenge>
  {
    map id | id in challenges && challenges[id].expiresAt > now :: challenges[id]
  }

  function AfterConsume(challenges: map<string, Challenge>, id: string, now: nat)
    : (map<string, Challenge>, Result<Challenge>)
  {
    if id !in challenges then (challenges, Err(ChallengeNotFound))
    else if challenges[id].expiresAt <= now then (challenges - {id}, Err(ChallengeExpired))
    else (challenges - {id}, Ok(challenges[id]))
  }

  class EnrollmentStore {
    const config: Config
    var records: Records
    var challenges: map<string, Challenge>

    ghost predicate Valid()
      reads this
    {
      Paired(records)
    }

    /** An empty store; the limits have lower bounds. */
    constructor (pendingTtl: nat, challengeTtl: nat, maxPending: nat, fingerprint: string -> string)
      ensures config == Config(AtLeast(pendingTtl, 60), AtLeast(challengeTtl, 1), AtLeast(maxPending, 1), fingerprint)
      ensures records == map[] && challenges == map[] && Valid()
    {
      config := Config(AtLeast(pendingTtl, 60), AtLeast(challengeTtl, 1), AtLeast(maxPending, 1), fingerprint);
      records, challenges := map[], map[];
    }

    method PruneExpired(now: nat)
      modifies this`records
      ensures records == Pruned(old(records), now)
    {
      records := map id | id in records && records[id].expiresAt > now :: records[id];
    }

    /** The first live record of a device, in whatever order the map is walked. */
    method FindDevice(device: string) returns (found: Option<string>)
      ensures found.Some? ==> SameDevice(records, found.value, device)
      ensures found.None? ==> forall id :: !SameDevice(records, id, device)
    {
      var left := records.Keys;
      while left != {}
        invariant left <= records.Keys
        invariant forall id :: SameDevice(records, id, device) ==> id in left
        decreases left
      {
        var id :| id in left;
        if records[id].device == device {
          return Some(id);
        }
        left := left - {id};
      }
      found := None;
    }

    method FindKey(key: string) returns (found: Option<string>)
      ensures found.Some? ==> SameKey(records, found.value, key)
      ensures found.None? ==> forall id :: !SameKey(records, id, key)
    {
      var left := records.Keys;
      while left != {}
        invariant left <= records.Keys
        invariant forall id :: SameKey(records, id, key) ==> id in left
        decreases left
      {
        var id :| id in left;
        if records[id].fingerprint == key {
          return Some(id);
        }
        left := left - {id};
      }
      found := None;
    }

    /** `persists` says whether the snapshot taken at the end can be written. */
    method CreateOrRefreshPending(hello: Hello, sourceIp: Option<string>, now: nat, draw: string, persists: bool)
      returns (r: Result<Upsert>)
      requires Valid()
      modifies this`records
      ensures records == AfterCreate(config, old(records), hello, sourceIp, now, draw).0
      ensures var result := AfterCreate(config, old(records), hello, sourceIp, now, draw).1;
              r == if result.Ok? && !persists then Err(Persistence) else result
    {
      hide AfterCreate;
      var key := config.fingerprint(hello.publicKey);
      PruneKeepsPaired(records, now);
      PruneExpired(now);
      ghost var live := records;
      var matchingId := FindDevice(hello.device);
      var matchingKey := FindKey(key);
      CreateCases(config, old(records), hello, sourceIp, now, draw, matchingId, matchingKey);
      if matchingId.Some? && records[matchingId.value].fingerprint != key {
        return Err(IdentityConflict);
      }
      if matchingKey.Some? && records[matchingKey.value].device != hello.device {
        return Err(IdentityConflict);
      }
      var existing := if matchingId.Some? then matchingId else matchingKey;
      var created := existing.None?;
      if created && |records| >= config.maxPending {
        return Err(CapacityExceeded);
      }
      var id := if existing.Some? then existing.value else draw;
      if id !in records {
        records := records[id := Requested(config, id, hello, sourceIp, now)];
      }
      records := records[id := Refreshed(records[id], hello, sourceIp, now, config.pendingTtl)];
      assert records == live[id := records[id]];
      r := if persists then Ok(Upsert(records[id], created)) else Err(Persistence);
    }

    /** The check under the records lock. */
    method RefuseChallenge(hello: Hello, now: nat) returns (refusal: Option<Error>)
      modifies this`records
      ensures records == Pruned(old(records), now) && refusal == Refusal(config, records, hello)
    {
      hide Pruned;
      var key := config.fingerprint(hello.publicKey);
      PruneExpired(now);
      var conflict, known, left := false, false, records.Keys;
      while left != {}
        invariant left <= records.Keys && records == Pruned(old(records), now)
        invariant conflict <==> exists id :: id !in left && Mismatch(records, id, hello.device, key)
        invariant known <==> exists id :: id !in left && Knows(records, id, hello.device, key)
        decreases left
      {
        var id :| id in left;
        var sameDevice, sameKey := records[id].device == hello.device, records[id].fingerprint == key;
        conflict := conflict || sameDevice != sameKey;
        known := known || (sameDevice && sameKey);
        assert Knows(records, id, hello.device, key) <==> sameDevice && sameKey;
        assert Mismatch(records, id, hello.device, key) <==> sameDevice != sameKey;
        left := left - {id};
      }
      refusal :=
        if conflict then Some(IdentityConflict)
        else if !known && |records| >= config.maxPending then Some(CapacityExceeded)
        else None;
    }

    method IssueChallenge(hello: Hello, sourceIp: Option<string>, now: nat, id: Option<string>, nonce: Option<string>)
      returns (r: Result<Challenge>)
      modifies this
      ensures (Store(records, challenges), r)
           == AfterIssue(config, Store(old(records), old(challenges)), hello, sourceIp, now, id, nonce)
    {
      hide Refusal, Pruned;
      var refusal := RefuseChallenge(hello, now);
      if refusal.Some? {
        return Err(refusal.value);
      }
      if id.None? || nonce.None? {
        return Err(RandomnessUnavailable);
      }
      var challenge := NewChallenge(config, id.value, nonce.value, hello, sourceIp, now);
      challenges := Unexpired(challenges, now);
      challenges := challenges[id.value := challenge];
      r := Ok(challenge);
    }

    /** The challenge is removed before anything else is decided. */
    method ConsumeChallenge(id: string, now: nat) returns (r: Result<Challenge>)
      modifies this`challenges
      ensures (challenges, r) == AfterConsume(old(challenges), id, now)
    {
      if id !in challenges {
        return Err(ChallengeNotFound);
      }
      var challenge := challenges[id];
      challenges := challenges - {id};
      if challenge.expiresAt <= now {
        return Err(ChallengeExpired);
      }
      r := Ok(challenge);
    }
  }

  lemma {:induction false} PruneKeepsPaired(records: Records, now: nat)
    requires Paired(records)
    ensures Paired(Pruned(records, now))
  {
  }

  /** With devices and keys paired, whichever matches are found decide the outcome: it does
      not depend on the order of the map. */
  lemma {:induction false} CreateCases(c: Config, records: Records, hello: Hello, sourceIp: Option<string>, now: nat,
                                       draw: string, matchingId: Option<string>, matchingKey: Option<string>)
    requires Paired(Pruned(records, now))
    requires var live := Pruned(records, now);
             var key := c.fingerprint(hello.publicKey);
             && (matchingId.Some? ==> SameDevice(live, matchingId.value, hello.device))
             && (matchingId.None? ==> forall id :: !SameDevice(live, id, hello.device))
             && (matchingKey.Some? ==> SameKey(live, matchingKey.value, key))
             && (matchingKey.None? ==> forall id :: !SameKey(live, id, key))
    ensures var live := Pruned(records, now);
            var key := c.fingerprint(hello.publicKey);
            var result := AfterCreate(c, records, hello, sourceIp, now, draw);
            if matchingId.Some? && live[matchingId.value].fingerprint != key then
              result == (live, Err(IdentityConflict))
            else if matchingKey.Some? && live[matchingKey.value].device != hello.device then
              result == (live, Err(IdentityConflict))
            else if matchingId.Some? || matchingKey.Some? then
              var id := if matchingId.Some? then matchingId.value else matchingKey.value;
              var r := Refreshed(live[id], hello, sourceIp, now, c.pendingTtl);
              id in live && result == (live[id := r], Ok(Upsert(r, false)))
            else if |live| >= c.maxPending then result == (live, Err(CapacityExceeded))
            else
              var first := if draw in live then live[draw] else Requested(c, draw, hello, sourceIp, now);
              var r := Refreshed(first, hello, sourceIp, now, c.pendingTtl);
              result == (live[draw := r], Ok(Upsert(r, true)))
  {
    hide Pruned, Refreshed, Requested, Paired;
    var live := Pruned(records, now);
    var key := c.fingerprint(hello.publicKey);
    if matchingId.None? && matchingKey.None? {
      Unknown(live, hello.device, key);
    } else {
      var id := if matchingId.Some? then matchingId.value else matchingKey.value;
      OneMatch(live, id, hello.device, key);
    }
    if matchingKey.Some? {
      OneMatch(live, matchingKey.value, hello.device, key);
    }
  }

  lemma {:induction false} Unknown(live: Records, device: string, key: string)
    requires forall id :: !SameDevice(live, id, device)
    requires forall id :: !SameKey(live, id, key)
    ensures !Conflicts(live, device, key) && !Known(live, device, key)
  {
    forall id ensures !Mismatch(live, id, device, key) {
      assert !SameDevice(live, id, device) && !SameKey(live, id, key);
    }
  }

  /** A record that matches in part is a conflict; one that matches in full is the only
      record that matches at all. */
  lemma {:induction false} OneMatch(live: Records, id: string, device: string, key: string)
    requires Paired(live) && (SameDevice(live, id, device) || SameKey(live, id, key))
    ensures Conflicts(live, device, key) <==> !Knows(live, id, device, key)
    ensures Knows(live, id, device, key) ==>
      Known(live, device, key) && forall b :: Knows(live, b, device, key) ==> b == id
  {
    assert Mismatch(live, id, device, key) <==> !Knows(live, id, device, key);
    if Knows(live, id, device, key) {
      forall b ensures !Mismatch(live, b, device, key) {
        assert b in live && b != id ==>
          live[b].device != live[id].device && live[b].fingerprint != live[id].fingerprint;
      }
    }
  }

  // ---- runs ---------------------------------------------------------------------------------------

  datatype Store = Store(records: Records, challenges: map<string, Challenge>)

  /** A call with its time; random ids and nonces are given, or missing when the random
      generator fails. */
  datatype Event =
    | IssueChallenge(hello: Hello, sourceIp: Option<string>, id: Option<string>, nonce: Option<string>)
    | Consume(target: string)
    | Create(hello: Hello, sourceIp: Option<string>, draw: string)
    | List

  datatype Call = Call(event: Event, now: nat)

  /** `issue_challenge` */
  ghost function AfterIssue(c: Config, s: Store, hello: Hello, sourceIp: Option<string>, now: nat, id: Option<string>,
                            nonce: Option<string>)
    : (Store, Result<Challenge>)
  {
    var live := s.(records := Pruned(s.records, now));
    var refusal := Refusal(c, live.records, hello);
    if refusal.Some? then (live, Err(refusal.value))
    else if id.None? || nonce.None? then (live, Err(RandomnessUnavailable))
    else
      var challenge := NewChallenge(c, id.value, nonce.value, hello, sourceIp, now);
      (live.(challenges := Unexpired(s.challenges, now)[id.value := challenge]), Ok(challenge))
  }

  ghost function Apply(c: Config, s: Store, call: Call): Store
  {
    match call.event
    case IssueChallenge(hello, sourceIp, id, nonce) => AfterIssue(c, s, hello, sourceIp, call.now, id, nonce).0
    case Consume(target) => s.(challenges := AfterConsume(s.challenges, target, call.now).0)
    case Create(hello, sourceIp, draw) => s.(records := AfterCreate(c, s.records, hello, sourceIp, call.now, draw).0)
    case List => s.(records := Pruned(s.records, call.now))
  }

  ghost function Run(c: Config, calls: seq<Call>): Store
  {
    if calls == [] then Store(map[], map[]) else Apply(c, Run(c, calls[..|calls| - 1]), calls[|calls| - 1])
  }

  /** The id drawn for a new record is not the id of another: sixteen random bytes. */
  ghost predicate FreshDraw(c: Config, s: Store, call: Call)
  {
    call.event.Create? ==> call.event.draw !in s.records
  }

  ghost predicate FreshDraws(c: Config, calls: seq<Call>)
  {
    || calls == []
    || (&& FreshDraws(c, calls[..|calls| - 1])
        && FreshDraw(c, Run(c, calls[..|calls| - 1]), calls[|calls| - 1]))
  }

  lemma {:induction false} PairedUpdate(live: Records, id: string, r: Record)
    requires Paired(live) && id in live && r.id == id
    requires r.device == live[id].device && r.fingerprint == live[id].fingerprint
    ensures Paired(live[id := r]) && |live[id := r]| == |live|
  {
    var next := live[id := r];
    assert next.Keys == live.Keys;
    assert |next| == |next.Keys| && |live| == |live.Keys|;
    forall a, b | a in next && b in next && a != b
      ensures next[a].device != next[b].device && next[a].fingerprint != next[b].fingerprint
    {
      assert live[a].device != live[b].device && live[a].fingerprint != live[b].fingerprint;
    }
  }

  lemma {:induction false} NoneShares(live: Records, device: string, key: string)
    requires !Conflicts(live, device, key) && !Known(live, device, key)
    ensures forall b :: b in live ==> live[b].device != device && live[b].fingerprint != key
  {
    forall b | b in live ensures live[b].device != device && live[b].fingerprint != key {
      assert !Mismatch(live, b, device, key) && !Knows(live, b, device, key);
    }
  }

  lemma {:induction false} OneLarger(live: Records, id: string, r: Record)
    requires id !in live
    ensures |live[id := r]| == |live| + 1
  {
    assert live[id := r].Keys == live.Keys + {id};
    assert |live[id := r]| == |live[id := r].Keys| && |live| == |live.Keys|;
  }

  lemma {:induction false} PairedInsert(live: Records, id: string, r: Record)
    requires Paired(live) && id !in live && r.id == id
    requires !Conflicts(live, r.device, r.fingerprint) && !Known(live, r.device, r.fingerprint)
    ensures Paired(live[id := r]) && |live[id := r]| == |live| + 1
  {
    hide Conflicts, Known;
    NoneShares(live, r.device, r.fingerprint);
    OneLarger(live, id, r);
  }

  lemma {:induction false} CreateKeepsPaired(c: Config, records: Records, hello: Hello, sourceIp: Option<string>,
                                             now: nat, draw: string)
    requires Paired(records) && draw !in records
    requires |records| <= c.maxPending
    ensures var next := AfterCreate(c, records, hello, sourceIp, now, draw).0;
            Paired(next) && |next| <= c.maxPending
  {
    hide Paired, Conflicts, Known;
    PruneKeepsPaired(records, now);
    PruneShrinks(records, now);
    var live, key := Pruned(records, now), c.fingerprint(hello.publicKey);
    if !Conflicts(live, hello.device, key) {
      if Known(live, hello.device, key) {
        KnownBySome(live, hello.device, key);
        var r := AfterCreate(c, records, hello, sourceIp, now, draw).1.value.record;
        KeyedAt(live);
        PairedUpdate(live, r.id, r);
      } else if |live| < c.maxPending {
        PairedInsert(live, draw, AfterCreate(c, records, hello, sourceIp, now, draw).1.value.record);
      }
    }
  }

  lemma {:induction false} KeyedAt(records: Records)
    requires Paired(records)
    ensures forall id :: id in records ==> records[id].id == id
  {
  }

  lemma {:induction false} PruneShrinks(records: Records, now: nat)
    ensures Pruned(records, now).Keys <= records.Keys && |Pruned(records, now)| <= |records|
  {
    var live := Pruned(records, now);
    assert records.Keys == live.Keys + (records.Keys - live.Keys);
    assert |live| == |live.Keys| && |records| == |records.Keys|;
  }

  /** Starting empty, live records always pair devices with keys one to one, and there are
      never more than the limit allows. */
  lemma {:induction false} RunIsPaired(c: Config, calls: seq<Call>)
    requires FreshDraws(c, calls)
    ensures Paired(Run(c, calls).records) && |Run(c, calls).records| <= c.maxPending
    decreases |calls|
  {
    hide Pruned, AfterCreate, Paired, Refusal;
    if calls == [] {
      NonePaired();
    } else {
      var before, call := Run(c, calls[..|calls| - 1]), calls[|calls| - 1];
      RunIsPaired(c, calls[..|calls| - 1]);
      PruneKeepsPaired(before.records, call.now);
      PruneShrinks(before.records, call.now);
      if call.event.Create? {
        CreateKeepsPaired(c, before.records, call.event.hello, call.event.sourceIp, call.now, call.event.draw);
      }
    }
  }

  lemma {:induction false} NonePaired()
    ensures Paired(map[])
  {
  }

  // ---- what a request for enrollment gets -----------------------------------------------------------

  /** A challenge is refused with the same error, at the same time, as the enrollment it
      would lead to. */
  lemma {:induction false} ChallengeAgreesWithCreate(c: Config, s: Store, hello: Hello, sourceIp: Option<string>,
                                                     now: nat, id: string, nonce: string, draw: string)
    ensures var issued := AfterIssue(c, s, hello, sourceIp, now, Some(id), Some(nonce)).1;
            var created := AfterCreate(c, s.records, hello, sourceIp, now, draw).1;
            && (issued.Ok? <==> created.Ok?)
            && (issued.Err? ==> created == Err(issued.error))
  {
    hide Pruned, Conflicts, Known, Knows;
    var live, key := Pruned(s.records, now), c.fingerprint(hello.publicKey);
    assert Known(live, hello.device, key) ==> exists i :: Knows(live, i, hello.device, key) by {
      KnownBySome(live, hello.device, key);
    }
  }

  lemma {:induction false} KnownBySome(live: Records, device: string, key: string)
    ensures Known(live, device, key) ==> exists i :: Knows(live, i, device, key)
  {
  }

  /** What an accepted request leaves behind: one live record for the device, with its key,
      good for the full time. A device that is known keeps its id, its key and the time of
      its first request. */
  lemma {:induction false} AcceptedRequest(c: Config, records: Records, hello: Hello, sourceIp: Option<string>,
                                           now: nat, draw: string)
    requires Paired(records) && draw !in records
    requires AfterCreate(c, records, hello, sourceIp, now, draw).1.Ok?
    ensures var live, key := Pruned(records, now), c.fingerprint(hello.publicKey);
            var (next, result) := AfterCreate(c, records, hello, sourceIp, now, draw);
            var r := result.value.record;
            && r.id in next && next[r.id] == r
            && r.device == hello.device && r.fingerprint == key
            && r.facts == hello.facts && r.capabilities == hello.capabilities && r.sourceIp == sourceIp
            && r.lastSeenAt == now && r.expiresAt == now + c.pendingTtl
            && (result.value.created <==> !Known(live, hello.device, key))
            && (result.value.created ==>
                  r.id == draw && r.publicKey == hello.publicKey && r.requestedAt == now && r.requestCount == 1)
            && (!result.value.created ==> Knows(live, r.id, hello.device, key))
            && (!result.value.created ==>
                  && r.publicKey == live[r.id].publicKey && r.requestedAt == live[r.id].requestedAt
                  && r.requestCount == if live[r.id].requestCount < 4_294_967_295 then live[r.id].requestCount + 1
                                       else 4_294_967_295)
            && (forall id :: id != r.id ==> (id in next <==> id in live) && (id in live ==> next[id] == live[id]))
  {
    PruneKeepsPaired(records, now);
    var live, key := Pruned(records, now), c.fingerprint(hello.publicKey);
    assert draw !in live;
    if Known(live, hello.device, key) {
      var id :| Knows(live, id, hello.device, key);
      OneMatch(live, id, hello.device, key);
    }
  }

  /** The records that a request at this time still meets. */
  function Live(records: Records, now: nat): set<string>
  {
    set id | id in records && now < records[id].expiresAt
  }

  /** A request is accepted exactly when every live record that has its device or its key has
      both, and either there is one or there is room for another. */
  lemma {:induction false} AcceptedWhen(c: Config, records: Records, hello: Hello, sourceIp: Option<string>,
                                        now: nat, draw: string)
    ensures var key := c.fingerprint(hello.publicKey);
            var conflict := exists id :: id in Live(records, now)
                                         && (records[id].device == hello.device) != (records[id].fingerprint == key);
            var known := exists id :: id in Live(records, now)
                                      && records[id].device == hello.device && records[id].fingerprint == key;
            var result := AfterCreate(c, records, hello, sourceIp, now, draw).1;
            && (result == Err(IdentityConflict) <==> conflict)
            && (result == Err(CapacityExceeded) <==> !conflict && !known && |Live(records, now)| >= c.maxPending)
            && (result.Ok? <==> !conflict && (known || |Live(records, now)| < c.maxPending))
  {
    hide Knows, Mismatch, Pruned, Refreshed, Requested;
    var live, key := Pruned(records, now), c.fingerprint(hello.publicKey);
    LiveIsPruned(records, now);
    forall id ensures id in Live(records, now) && records[id].device == hello.device && records[id].fingerprint == key
                      <==> Knows(live, id, hello.device, key) {
      MatchesLive(records, now, id, hello.device, key);
    }
    forall id ensures id in Live(records, now)
                      && (records[id].device == hello.device) != (records[id].fingerprint == key)
                      <==> Mismatch(live, id, hello.device, key) {
      MatchesLive(records, now, id, hello.device, key);
    }
  }

  lemma {:induction false} LiveIsPruned(records: Records, now: nat)
    ensures |Pruned(records, now)| == |Live(records, now)|
  {
    assert Pruned(records, now).Keys == Live(records, now);
    assert |Pruned(records, now).Keys| == |Pruned(records, now)|;
  }

  lemma {:induction false} MatchesLive(records: Records, now: nat, id: string, device: string, key: string)
    ensures Knows(Pruned(records, now), id, device, key)
            <==> id in Live(records, now) && records[id].device == device && records[id].fingerprint == key
    ensures Mismatch(Pruned(records, now), id, device, key)
            <==> id in Live(records, now) && (records[id].device == device) != (records[id].fingerprint == key)
  {
  }

  /** A device that was accepted is refused under another key exactly until the full time
      after its last request is over, if no other device has that key. */
  lemma {:induction false} KeyChangeRefusedUntil(c: Config, records: Records, first: Hello, second: Hello,
                                                 sourceIp: Option<string>, at: nat, now: nat, draw: string,
                                                 anotherDraw: string)
    requires Paired(records) && |records| <= c.maxPending && draw !in records
    requires AfterCreate(c, records, first, sourceIp, at, draw).1.Ok?
    requires second.device == first.device && c.fingerprint(second.publicKey) != c.fingerprint(first.publicKey)
    requires forall id :: id in records && records[id].fingerprint == c.fingerprint(second.publicKey) ==>
               records[id].device == first.device
    ensures var next := AfterCreate(c, records, first, sourceIp, at, draw).0;
            AfterCreate(c, next, second, sourceIp, now, anotherDraw).1 == Err(IdentityConflict)
            <==> now < at + c.pendingTtl
  {
    hide AfterCreate, Pruned, Paired, Conflicts, Known;
    var (next, result) := AfterCreate(c, records, first, sourceIp, at, draw);
    var r, key := result.value.record, c.fingerprint(second.publicKey);
    AcceptedRequest(c, records, first, sourceIp, at, draw);
    CreateKeepsPaired(c, records, first, sourceIp, at, draw);
    AcceptedWhen(c, next, second, sourceIp, now, anotherDraw);
    forall id | id in next && id != r.id ensures next[id].device != second.device && next[id].fingerprint != key {
      OtherDevice(next, id, r.id);
      PrunedKeeps(records, at, id);
    }
    assert now < at + c.pendingTtl ==> r.id in Live(next, now);
  }

  lemma {:induction false} OtherDevice(records: Records, a: string, b: string)
    requires Paired(records) && a in records && b in records && a != b
    ensures records[a].device != records[b].device
  {
  }

  lemma {:induction false} PrunedKeeps(records: Records, now: nat, id: string)
    ensures id in Pruned(records, now) ==> id in records && Pruned(records, now)[id] == records[id]
  {
  }

  // ---- every challenge is used at most once ------------------------------------------------------------

  /** How many challenges with this id were issued. */
  ghost function Issued(c: Config, calls: seq<Call>, id: string): nat
  {
    if calls == [] then 0
    else
      var s, call := Run(c, calls[..|calls| - 1]), calls[|calls| - 1];
      Issued(c, calls[..|calls| - 1], id)
      + (if call.event.IssueChallenge? && call.event.id == Some(id)
            && AfterIssue(c, s, call.event.hello, call.event.sourceIp, call.now, call.event.id, call.event.nonce).1.Ok?
         then 1 else 0)
  }

  /** How many times one was consumed with success. */
  ghost function Consumed(c: Config, calls: seq<Call>, id: string): nat
  {
    if calls == [] then 0
    else
      var s, call := Run(c, calls[..|calls| - 1]), calls[|calls| - 1];
      Consumed(c, calls[..|calls| - 1], id)
      + (if call.event == Consume(id) && AfterConsume(s.challenges, id, call.now).1.Ok? then 1 else 0)
  }

  lemma {:induction false} ConsumptionBalance(c: Config, calls: seq<Call>, id: string)
    ensures Consumed(c, calls, id) + (if id in Run(c, calls).challenges then 1 else 0) <= Issued(c, calls, id)
    decreases |calls|
  {
    hide AfterCreate, Refusal, Pruned;
    if calls != [] {
      ConsumptionBalance(c, calls[..|calls| - 1], id);
    }
  }

  /** However the calls are interleaved: a challenge whose id was issued once is consumed
      with success at most once. */
  lemma {:induction false} ConsumedAtMostOnce(c: Config, calls: seq<Call>, id: string)
    requires Issued(c, calls, id) <= 1
    ensures Consumed(c, calls, id) <= 1
  {
    ConsumptionBalance(c, calls, id);
  }

  /** A stored challenge was issued by one of the calls, and expires as that call set. */
  ghost predicate IssuedBy(c: Config, calls: seq<Call>, k: nat, challenge: Challenge)
  {
    && k < |calls| && calls[k].event.IssueChallenge? && calls[k].event.id.Some? && calls[k].event.nonce.Some?
    && challenge == NewChallenge(c, calls[k].event.id.value, calls[k].event.nonce.value, calls[k].event.hello,
                                 calls[k].event.sourceIp, calls[k].now)
  }

  ghost predicate WasIssued(c: Config, calls: seq<Call>, challenge: Challenge)
  {
    exists k: nat :: IssuedBy(c, calls, k, challenge)
  }

  lemma {:induction false} StoredWasIssued(c: Config, calls: seq<Call>, id: string)
    requires id in Run(c, calls).challenges
    ensures Run(c, calls).challenges[id].id == id && WasIssued(c, calls, Run(c, calls).challenges[id])
    decreases |calls|
  {
    hide AfterCreate, Refusal, Pruned;
    var before, call := calls[..|calls| - 1], calls[|calls| - 1];
    var challenge := Run(c, calls).challenges[id];
    if id in Run(c, before).challenges && Run(c, before).challenges[id] == challenge {
      StoredWasIssued(c, before, id);
      var k: nat :| IssuedBy(c, before, k, challenge);
      assert IssuedBy(c, calls, k, challenge);
    } else {
      assert IssuedBy(c, calls, |calls| - 1, challenge);
    }
  }

  /** A challenge that is consumed with success was issued under that id, and its time is
      not over: at its expiry and after, it is refused. */
  lemma {:induction false} ConsumedBeforeExpiry(c: Config, calls: seq<Call>, id: string, now: nat)
    ensures match AfterConsume(Run(c, calls).challenges, id, now).1
            case Ok(challenge) => challenge.id == id && now < challenge.expiresAt && WasIssued(c, calls, challenge)
            case Err(error) => error == ChallengeNotFound || error == ChallengeExpired
  {
    hide Run, WasIssued;
    if id in Run(c, calls).challenges {
      StoredWasIssued(c, calls, id);
    }
  }

  /** The call neither consumes this id nor issues a challenge under it. */
  ghost predicate LeavesAlone(call: Call, id: string)
  {
    match call.event
    case IssueChallenge(_, _, drawn, _) => drawn != Some(id)
    case Consume(target) => target != id
    case _ => true
  }

  /** A challenge that was issued is consumed with success by the next attempt, whatever
      other calls come between, for at least two minutes, or for longer if the store is set
      to that. */
  lemma {:induction false} IssuedIsConsumed(c: Config, calls: seq<Call>, k: nat, id: string, now: nat)
    requires k < |calls| && calls[k].event.IssueChallenge? && calls[k].event.id == Some(id)
    requires var e := calls[k].event;
             AfterIssue(c, Run(c, calls[..k]), e.hello, e.sourceIp, calls[k].now, e.id, e.nonce).1.Ok?
    requires forall j :: k < j < |calls| ==> LeavesAlone(calls[j], id)
    requires forall j :: k < j < |calls| ==>
               calls[j].now < calls[k].now + 120 || calls[j].now < calls[k].now + c.challengeTtl
    requires now < calls[k].now + 120 || now < calls[k].now + c.challengeTtl
    ensures var e := calls[k].event;
            var consumed := AfterConsume(Run(c, calls).challenges, id, now).1;
            && consumed.Ok? && e.nonce == Some(consumed.value.nonce)
            && consumed.value.id == id && consumed.value.hello == e.hello && consumed.value.sourceIp == e.sourceIp
  {
    hide Run;
    StaysStored(c, calls, k, id);
  }

  lemma {:induction false} StaysStored(c: Config, calls: seq<Call>, k: nat, id: string)
    requires k < |calls| && calls[k].event.IssueChallenge? && calls[k].event.id == Some(id)
    requires var e := calls[k].event;
             AfterIssue(c, Run(c, calls[..k]), e.hello, e.sourceIp, calls[k].now, e.id, e.nonce).1.Ok?
    requires forall j :: k < j < |calls| ==> LeavesAlone(calls[j], id)
    requires forall j :: k < j < |calls| ==>
               calls[j].now < calls[k].now + 120 || calls[j].now < calls[k].now + c.challengeTtl
    ensures id in Run(c, calls).challenges
    ensures var e, stored := calls[k].event, Run(c, calls).challenges[id];
            && e.nonce == Some(stored.nonce) && stored.id == id && stored.hello == e.hello
            && stored.sourceIp == e.sourceIp
            && stored.expiresAt == calls[k].now + AtLeast(c.challengeTtl, 120)
    decreases |calls|
  {
    hide AfterCreate, Refusal, Pruned;
    var before, call := calls[..|calls| - 1], calls[|calls| - 1];
    if k == |calls| - 1 {
      assert calls[..k] == before;
    } else {
      assert before[..k] == calls[..k];
      StaysStored(c, before, k, id);
      assert LeavesAlone(call, id);
    }
  }
}
