/** The limiter of authentication failures in crates/server/src/rate_limit.rs. */
module AuthLimiter {
  import opened Wrappers
  import opened SlidingWindow

  const MINUTE: nat := 60 * SECOND
  const TEN_MINUTES: nat := 600 * SECOND
  const BAN: nat := 900 * SECOND

  datatype Decision = Allowed | RateLimited(retryAfterSecs: nat) | Banned(retryAfterSecs: nat)

  datatype Entry = Entry(failures: seq<nat>, bannedUntil: Option<nat>)

  function IsBanned(bannedUntil: Option<nat>, now: nat): bool { bannedUntil.Some? && bannedUntil.value > now }

  /** The seconds a ban has left, a started one counted whole, and at least one. */
  function SecondsLeft(until: nat, now: nat): (secs: nat)
    requires now < until
  {
    var left := until - now;
    var secs := left / SECOND + (if left % SECOND > 0 then 1 else 0);
    AtLeast(secs, 1)
  }

  /** Waiting that many seconds reaches the end of the ban, one second less does not. */
  lemma {:induction false} SecondsLeftIsTight(until: nat, now: nat)
    requires now < until
    ensures now + SecondsLeft(until, now) * SECOND >= until
    ensures now + (SecondsLeft(until, now) - 1) * SECOND < until
  {
  }

  function Rate(failures: seq<nat>, now: nat): Decision
  {
    if |Recent(failures, now, MINUTE)| >= 10 then RateLimited(60) else Allowed
  }

  // ---- what one call does to the entry of its address ---------------------------------

  function AfterFailure(entry: Option<Entry>, now: nat): (Entry, Decision)
  {
    var e := if entry.Some? then entry.value else Entry([], None);
    if IsBanned(e.bannedUntil, now) then (e, Banned(SecondsLeft(e.bannedUntil.value, now)))
    else
      var failures := Recent(e.failures + [now], now, TEN_MINUTES);
      if |failures| >= 30 then (Entry(failures, Some(now + BAN)), Banned(900))
      else (Entry(failures, None), Rate(failures, now))
  }

  function AfterCheck(entry: Option<Entry>, now: nat): (Option<Entry>, Decision)
  {
    if entry.None? then (None, Allowed)
    else
      var e := entry.value;
      if IsBanned(e.bannedUntil, now) then (entry, Banned(SecondsLeft(e.bannedUntil.value, now)))
      else (Some(Entry(e.failures, None)), Rate(e.failures, now))
  }

  function Lookup<Ip, V>(entries: map<Ip, V>, ip: Ip): Option<V>
  {
    if ip in entries then Some(entries[ip]) else None
  }

  class AuthRateLimiter<Ip(==)> {
    var entries: map<Ip, Entry>

    constructor ()
      ensures entries == map[]
    {
      entries := map[];
    }

    method RecordFailureAt(ip: Ip, now: nat) returns (decision: Decision)
      modifies this
      ensures (decision, entries) == (AfterFailure(Lookup(old(entries), ip), now).1,
                                      old(entries)[ip := AfterFailure(Lookup(old(entries), ip), now).0])
    {
      if ip !in entries {
        entries := entries[ip := Entry([], None)];
      }
      var entry := entries[ip];
      if entry.bannedUntil.Some? {
        var until := entry.bannedUntil.value;
        if until > now {
          assert entries == entries[ip := entry];
          return Banned(SecondsLeft(until, now));
        }
        entry := entry.(bannedUntil := None);
      }
      entry := entry.(failures := Recent(entry.failures + [now], now, TEN_MINUTES));
      entries := entries[ip := entry];
      assert entries == old(entries)[ip := entry];
      if |entry.failures| >= 30 {
        entries := entries[ip := entry.(bannedUntil := Some(now + BAN))];
        assert entries == old(entries)[ip := entries[ip]];
        return Banned(900);
      }
      decision := Rate(entry.failures, now);
    }

    method CheckAt(ip: Ip, now: nat) returns (decision: Decision)
      modifies this
      ensures var (entry, d) := AfterCheck(Lookup(old(entries), ip), now);
              && decision == d
              && entries == match entry { case Some(e) => old(entries)[ip := e] case None => old(entries) }
    {
      if ip !in entries {
        return Allowed;
      }
      var entry := entries[ip];
      if entry.bannedUntil.Some? {
        if entry.bannedUntil.value > now {
          assert entries == entries[ip := entry];
          return Banned(SecondsLeft(entry.bannedUntil.value, now));
        }
        entry := entry.(bannedUntil := None);
      }
      entries := entries[ip := entry];
      decision := Rate(entry.failures, now);
    }

    method RecordSuccess(ip: Ip)
      modifies this
      ensures entries == old(entries) - {ip}
    {
      entries := entries - {ip};
    }
  }

  // ---- the decisions in counts and seconds ----------------------------------------------

  /** How many of the instants are at `from` or later. */
  function CountSince(times: seq<nat>, from: int): nat
  {
    if times == [] then 0 else (if times[0] >= from then 1 else 0) + CountSince(times[1..], from)
  }

  lemma {:induction false} RecentCounts(times: seq<nat>, now: nat, window: nat)
    ensures |Recent(times, now, window)| == CountSince(times, now - window)
  {
    if times != [] {
      RecentCounts(times[1..], now, window);
    }
  }

  lemma {:induction false} CountOneMore(times: seq<nat>, now: nat, from: int)
    requires from <= now
    ensures CountSince(times + [now], from) == CountSince(times, from) + 1
  {
    if times == [] {
      assert [now][1..] == [];
    } else {
      assert (times + [now])[1..] == times[1..] + [now];
      CountOneMore(times[1..], now, from);
    }
  }

  /** An address that is not banned is banned for 900 seconds by its thirtieth failure
      within 600 seconds, and told to wait 60 seconds by its tenth within 60, this one
      included and both ends of the time counted. */
  lemma {:induction false} FailureDecides(l: Ledger, now: nat)
    ensures var (after, d) := JudgeFailure(l, now);
            if now < l.bannedUntil then after == l && d.Banned?
            else
              && after.counted == l.counted + [now]
              && (if CountSince(l.counted, now - 600_000_000_000) >= 29 then
                    d == Banned(900) && after.bannedUntil == now + 900_000_000_000
                  else
                    && after.bannedUntil == l.bannedUntil
                    && d == if CountSince(l.counted, now - 60_000_000_000) >= 9 then RateLimited(60) else Allowed)
  {
    hide Recent, CountSince;
    RecentCounts(l.counted + [now], now, TEN_MINUTES);
    RecentCounts(l.counted + [now], now, MINUTE);
    CountOneMore(l.counted, now, now - 600_000_000_000);
    CountOneMore(l.counted, now, now - 60_000_000_000);
  }

  /** A check of an address that is not banned finds ten failures within 60 seconds, or
      allows it. */
  lemma {:induction false} CheckDecides(l: Ledger, now: nat)
    ensures if now < l.bannedUntil then JudgeCheck(l, now).Banned?
            else JudgeCheck(l, now) == if CountSince(l.counted, now - 60_000_000_000) >= 10 then RateLimited(60)
                                       else Allowed
  {
    hide Recent, CountSince;
    RecentCounts(l.counted, now, MINUTE);
  }

  // ---- runs ---------------------------------------------------------------------------

  datatype Call<Ip> = Failure(ip: Ip, now: nat) | Check(ip: Ip, now: nat) | Success(ip: Ip, now: nat)

  ghost predicate Ordered<Ip(!new)>(calls: seq<Call<Ip>>)
  {
    forall i, j :: 0 <= i < j < |calls| ==> calls[i].now <= calls[j].now
  }

  function Step<Ip(==)>(entries: map<Ip, Entry>, call: Call<Ip>): (map<Ip, Entry>, Decision)
  {
    match call
    case Failure(ip, now) =>
      var (e, d) := AfterFailure(Lookup(entries, ip), now);
      (entries[ip := e], d)
    case Check(ip, now) =>
      var (e, d) := AfterCheck(Lookup(entries, ip), now);
      (if e.Some? then entries[ip := e.value] else entries, d)
    case Success(ip, _) => (entries - {ip}, Allowed)
  }

  function Run<Ip(==)>(calls: seq<Call<Ip>>): (map<Ip, Entry>, seq<Decision>)
  {
    if calls == [] then (map[], [])
    else
      var (entries, decisions) := Run(calls[..|calls| - 1]);
      var (next, d) := Step(entries, calls[|calls| - 1]);
      (next, decisions + [d])
  }

  /** The limiter that forgets nothing but what a success clears: every counted failure,
      and until when the address is banned. */
  datatype Ledger = Ledger(counted: seq<nat>, bannedUntil: nat)

  function JudgeFailure(l: Ledger, now: nat): (Ledger, Decision)
  {
    if now < l.bannedUntil then (l, Banned(SecondsLeft(l.bannedUntil, now)))
    else
      var counted := l.counted + [now];
      if |Recent(counted, now, TEN_MINUTES)| >= 30 then (Ledger(counted, now + BAN), Banned(900))
      else (Ledger(counted, l.bannedUntil), Rate(counted, now))
  }

  function JudgeCheck(l: Ledger, now: nat): Decision
  {
    if now < l.bannedUntil then Banned(SecondsLeft(l.bannedUntil, now)) else Rate(l.counted, now)
  }

  function LedgerOf<Ip(==)>(ledgers: map<Ip, Ledger>, ip: Ip): Ledger
  {
    if ip in ledgers then ledgers[ip] else Ledger([], 0)
  }

  function LedgerStep<Ip(==)>(ledgers: map<Ip, Ledger>, call: Call<Ip>): (map<Ip, Ledger>, Decision)
  {
    match call
    case Failure(ip, now) =>
      var (l, d) := JudgeFailure(LedgerOf(ledgers, ip), now);
      (ledgers[ip := l], d)
    case Check(ip, now) => (ledgers, JudgeCheck(LedgerOf(ledgers, ip), now))
    case Success(ip, _) => (ledgers - {ip}, Allowed)
  }

  function LedgerRun<Ip(==)>(calls: seq<Call<Ip>>): (map<Ip, Ledger>, seq<Decision>)
  {
    if calls == [] then (map[], [])
    else
      var (ledgers, decisions) := LedgerRun(calls[..|calls| - 1]);
      var (next, d) := LedgerStep(ledgers, calls[|calls| - 1]);
      (next, decisions + [d])
  }

  // ---- the two agree --------------------------------------------------------------------

  /** An entry stands for a ledger, as seen at any time from `now` on. */
  ghost predicate Stands(entry: Option<Entry>, l: Ledger, now: nat)
  {
    && var e := if entry.Some? then entry.value else Entry([], None);
    && PrunedBy(e.failures, l.counted, now)
    && (if e.bannedUntil.Some? then e.bannedUntil.value == l.bannedUntil else l.bannedUntil <= now)
  }

  ghost predicate PrunedBy(failures: seq<nat>, counted: seq<nat>, now: nat)
  {
    exists at: nat :: at <= now && PrunedAt(failures, counted, at)
  }

  ghost predicate PrunedAt(failures: seq<nat>, counted: seq<nat>, at: nat)
  {
    failures == Recent(counted, at, TEN_MINUTES)
  }

  lemma {:induction false} SameRate(failures: seq<nat>, counted: seq<nat>, now: nat)
    requires PrunedBy(failures, counted, now)
    ensures Rate(failures, now) == Rate(counted, now)
  {
    var at: nat :| at <= now && PrunedAt(failures, counted, at);
    RecentOfRecent(counted, at, TEN_MINUTES, now, MINUTE);
  }

  lemma {:induction false} PruneAgain(failures: seq<nat>, counted: seq<nat>, now: nat)
    requires PrunedBy(failures, counted, now)
    ensures PrunedAt(Recent(failures + [now], now, TEN_MINUTES), counted + [now], now)
  {
    var at: nat :| at <= now && PrunedAt(failures, counted, at);
    RecentAppend(failures, [now], now, TEN_MINUTES);
    RecentAppend(counted, [now], now, TEN_MINUTES);
    RecentOfRecent(counted, at, TEN_MINUTES, now, TEN_MINUTES);
  }

  lemma {:induction false} FailureAgrees(entry: Option<Entry>, l: Ledger, now: nat)
    requires Stands(entry, l, now)
    ensures Stands(Some(AfterFailure(entry, now).0), JudgeFailure(l, now).0, now)
    ensures AfterFailure(entry, now).1 == JudgeFailure(l, now).1
  {
    hide Recent, SecondsLeft, Rate;
    var e := if entry.Some? then entry.value else Entry([], None);
    if !IsBanned(e.bannedUntil, now) {
      PruneAgain(e.failures, l.counted, now);
      var failures := Recent(e.failures + [now], now, TEN_MINUTES);
      assert PrunedBy(failures, l.counted + [now], now);
      SameRate(failures, l.counted + [now], now);
    }
  }

  lemma {:induction false} CheckAgrees(entry: Option<Entry>, l: Ledger, now: nat)
    requires Stands(entry, l, now)
    ensures Stands(AfterCheck(entry, now).0, l, now)
    ensures AfterCheck(entry, now).1 == JudgeCheck(l, now)
  {
    hide Recent, SecondsLeft, Rate, PrunedBy;
    var e := if entry.Some? then entry.value else Entry([], None);
    SameRate(e.failures, l.counted, now);
    RateOfNone(now);
  }

  lemma {:induction false} RateOfNone(now: nat)
    ensures Rate([], now) == Allowed
  {
  }

  lemma {:induction false} StandsLater(entry: Option<Entry>, l: Ledger, now: nat, later: nat)
    requires Stands(entry, l, now) && now <= later
    ensures Stands(entry, l, later)
  {
    hide PrunedAt;
    var e := if entry.Some? then entry.value else Entry([], None);
    var at: nat :| at <= now && PrunedAt(e.failures, l.counted, at);
    assert PrunedBy(e.failures, l.counted, later);
  }

  ghost predicate AllStand<Ip(!new)>(entries: map<Ip, Entry>, ledgers: map<Ip, Ledger>, now: nat)
  {
    forall ip :: Stands(Lookup(entries, ip), LedgerOf(ledgers, ip), now)
  }

  lemma {:induction false} StepAgrees<Ip(!new)>(entries: map<Ip, Entry>, ledgers: map<Ip, Ledger>, last: nat,
                                                call: Call<Ip>)
    requires AllStand(entries, ledgers, last) && last <= call.now
    ensures AllStand(Step(entries, call).0, LedgerStep(ledgers, call).0, call.now)
    ensures Step(entries, call).1 == LedgerStep(ledgers, call).1
  {
    hide Stands, AfterFailure, AfterCheck, JudgeFailure, JudgeCheck;
    var (next, d) := Step(entries, call);
    var (nextLedgers, judged) := LedgerStep(ledgers, call);
    StandsLater(Lookup(entries, call.ip), LedgerOf(ledgers, call.ip), last, call.now);
    FailureAgrees(Lookup(entries, call.ip), LedgerOf(ledgers, call.ip), call.now);
    CheckAgrees(Lookup(entries, call.ip), LedgerOf(ledgers, call.ip), call.now);
    NothingStands(call.now);
    forall ip ensures Stands(Lookup(next, ip), LedgerOf(nextLedgers, ip), call.now) {
      StandsLater(Lookup(entries, ip), LedgerOf(ledgers, ip), last, call.now);
    }
  }

  lemma {:induction false} NothingStands(now: nat)
    ensures Stands(None, Ledger([], 0), now)
  {
    assert PrunedAt([], [], 0);
  }

  /** Forgetting failures older than ten minutes changes no decision. */
  lemma {:induction false} PruningIsInvisible<Ip(!new)>(calls: seq<Call<Ip>>)
    requires Ordered(calls)
    ensures Run(calls).1 == LedgerRun(calls).1
    ensures AllStand(Run(calls).0, LedgerRun(calls).0, if calls == [] then 0 else calls[|calls| - 1].now)
  {
    hide AllStand, Step, LedgerStep;
    if calls == [] {
      assert AllStand<Ip>(map[], map[], 0) by { NoneStand<Ip>(); }
    } else {
      var before := calls[..|calls| - 1];
      PruningIsInvisible(before);
      var last := if before == [] then 0 else before[|before| - 1].now;
      StepAgrees(Run(before).0, LedgerRun(before).0, last, calls[|calls| - 1]);
    }
  }

  lemma {:induction false} NoneStand<Ip(!new)>()
    ensures AllStand<Ip>(map[], map[], 0)
  {
    NothingStands(0);
  }

  // ---- how long the list gets, and how long a ban lasts ------------------------------------

  /** An entry last touched at `last`. Thirty failures are kept only while a ban they
      caused runs, or until the next failure after it ended. */
  ghost predicate Sound(e: Entry, last: nat)
  {
    && |e.failures| <= 30
    && NoneAfter(e.failures, last)
    && (e.bannedUntil.Some? ==> LongBefore(e.failures, e.bannedUntil.value))
    && (e.bannedUntil.None? && |e.failures| == 30 ==> LongBefore(e.failures, last))
  }

  ghost predicate LongBefore(failures: seq<nat>, end: nat)
  {
    forall i :: 0 <= i < |failures| ==> failures[i] + BAN <= end
  }

  lemma {:induction false} NoneRecent(failures: seq<nat>, end: nat, now: nat, window: nat)
    requires LongBefore(failures, end) && end <= now && window <= TEN_MINUTES
    ensures Recent(failures, now, window) == []
  {
    AllTooOld(failures, now, window);
  }

  lemma {:induction false} FailureKeepsSound(entry: Option<Entry>, last: nat, now: nat)
    requires entry.Some? ==> Sound(entry.value, last)
    requires last <= now
    ensures Sound(AfterFailure(entry, now).0, now)
  {
    hide Recent, Rate, SecondsLeft;
    var e := if entry.Some? then entry.value else Entry([], None);
    if !IsBanned(e.bannedUntil, now) {
      if |e.failures| == 30 {
        NoneRecent(e.failures, if e.bannedUntil.Some? then e.bannedUntil.value else last, now, TEN_MINUTES);
      }
      NewestIsRecent(e.failures, now, TEN_MINUTES);
      RecentIsPart(e.failures, now, TEN_MINUTES);
      var failures := AfterFailure(entry, now).0.failures;
      forall i | 0 <= i < |failures| ensures failures[i] <= now {
        if i < |failures| - 1 {
          assert failures[i] in e.failures;
        }
      }
    }
  }

  lemma {:induction false} CheckKeepsSound(e: Entry, last: nat, now: nat)
    requires Sound(e, last) && last <= now
    ensures Sound(AfterCheck(Some(e), now).0.value, now)
  {
    hide Recent, Rate, SecondsLeft;
  }

  lemma {:induction false} SoundLater(e: Entry, last: nat, now: nat)
    requires Sound(e, last) && last <= now
    ensures Sound(e, now)
  {
  }

  ghost predicate AllSound<Ip(!new)>(entries: map<Ip, Entry>, last: nat)
  {
    forall ip :: ip in entries ==> Sound(entries[ip], last)
  }

  function LastTime<Ip(!new)>(calls: seq<Call<Ip>>): nat
  {
    if calls == [] then 0 else calls[|calls| - 1].now
  }

  /** No list ever holds more than thirty failures. */
  lemma {:induction false} RunIsSound<Ip(!new)>(calls: seq<Call<Ip>>)
    requires Ordered(calls)
    ensures AllSound(Run(calls).0, LastTime(calls))
    ensures forall ip :: ip in Run(calls).0 ==> |Run(calls).0[ip].failures| <= 30
  {
    hide Sound, AfterFailure, AfterCheck;
    if calls != [] {
      var before, call := calls[..|calls| - 1], calls[|calls| - 1];
      RunIsSound(before);
      StepIsSound(Run(before).0, LastTime(before), call);
    }
    forall ip | ip in Run(calls).0 ensures |Run(calls).0[ip].failures| <= 30 {
      AtMostThirty(Run(calls).0[ip], LastTime(calls));
    }
  }

  lemma {:induction false} AtMostThirty(e: Entry, last: nat)
    requires Sound(e, last)
    ensures |e.failures| <= 30
  {
  }

  lemma {:induction false} StepIsSound<Ip(!new)>(entries: map<Ip, Entry>, last: nat, call: Call<Ip>)
    requires AllSound(entries, last) && last <= call.now
    ensures AllSound(Step(entries, call).0, call.now)
  {
    hide Sound, AfterFailure;
    FailureKeepsSound(Lookup(entries, call.ip), last, call.now);
    if call.ip in entries {
      CheckKeepsSound(entries[call.ip], last, call.now);
    }
    var next := Step(entries, call).0;
    forall ip | ip in next ensures Sound(next[ip], call.now) {
      if ip in entries {
        SoundLater(entries[ip], last, call.now);
      }
    }
  }

  /** Since call n no success came for this address, and every call for it but the last
      came before `until`. */
  ghost predicate WithinBan<Ip(!new)>(calls: seq<Call<Ip>>, n: nat, ip: Ip, until: nat)
  {
    && Ordered(calls) && n < |calls|
    && (forall k :: n <= k < |calls| && calls[k].ip == ip ==> !calls[k].Success?)
    && (forall k :: n <= k < |calls| - 1 && calls[k].ip == ip ==> calls[k].now < until)
  }

  lemma {:induction false} StaysBanned<Ip(!new)>(calls: seq<Call<Ip>>, n: nat, ip: Ip, until: nat)
    requires n <= |calls|
    requires Lookup(Run(calls[..n]).0, ip).Some? && Run(calls[..n]).0[ip].bannedUntil == Some(until)
    requires forall k :: n <= k < |calls| && calls[k].ip == ip ==> !calls[k].Success? && calls[k].now < until
    ensures Lookup(Run(calls).0, ip) == Lookup(Run(calls[..n]).0, ip)
  {
    hide Recent, Rate, SecondsLeft;
    if n == |calls| {
      assert calls[..n] == calls;
    } else {
      var before := calls[..|calls| - 1];
      assert before[..n] == calls[..n];
      StaysBanned(before, n, ip, until);
    }
  }

  /** The ban that call n - 1, a failure at `start`, brings about lasts exactly fifteen
      minutes unless a success ends it: every later call before its end is refused with
      the seconds left, and the first call after that is allowed. */
  lemma {:induction false} BanLastsFifteenMinutes<Ip(!new)>(calls: seq<Call<Ip>>, n: nat, ip: Ip, start: nat)
    requires 0 < n && WithinBan(calls, n, ip, start + BAN)
    requires calls[n - 1] == Failure(ip, start) && Step(Run(calls[..n - 1]).0, calls[n - 1]).1.Banned?
    requires Lookup(Run(calls[..n - 1]).0, ip).Some? ==> !IsBanned(Run(calls[..n - 1]).0[ip].bannedUntil, start)
    requires calls[|calls| - 1].ip == ip
    ensures var now := calls[|calls| - 1].now;
            Step(Run(calls[..|calls| - 1]).0, calls[|calls| - 1]).1
            == if now < start + BAN then Banned(SecondsLeft(start + BAN, now)) else Allowed
  {
    hide Recent, SecondsLeft, Step;
    var until := start + BAN;
    BanStarts(calls, n, ip, start);
    var before := calls[..|calls| - 1];
    assert before[..n] == calls[..n];
    StaysBanned(before, n, ip, until);
    assert Sound(Run(before).0[ip], calls[|calls| - 1].now) by {
      RunIsSound(before);
      SoundLater(Run(before).0[ip], LastTime(before), calls[|calls| - 1].now);
    }
    BannedStep(Run(before).0, calls[|calls| - 1], until);
  }

  lemma {:induction false} BanStarts<Ip(!new)>(calls: seq<Call<Ip>>, n: nat, ip: Ip, start: nat)
    requires 0 < n <= |calls| && calls[n - 1] == Failure(ip, start)
    requires Step(Run(calls[..n - 1]).0, calls[n - 1]).1.Banned?
    requires Lookup(Run(calls[..n - 1]).0, ip).Some? ==> !IsBanned(Run(calls[..n - 1]).0[ip].bannedUntil, start)
    ensures Lookup(Run(calls[..n]).0, ip).Some? && Run(calls[..n]).0[ip].bannedUntil == Some(start + BAN)
  {
    hide Recent, SecondsLeft;
    assert calls[..n][..n - 1] == calls[..n - 1];
  }

  lemma {:induction false} BannedStep<Ip(!new)>(entries: map<Ip, Entry>, call: Call<Ip>, until: nat)
    requires call.ip in entries && entries[call.ip].bannedUntil == Some(until) && !call.Success?
    requires Sound(entries[call.ip], call.now)
    ensures Step(entries, call).1 == if call.now < until then Banned(SecondsLeft(until, call.now)) else Allowed
  {
    hide SecondsLeft, Recent;
    var e := entries[call.ip];
    if call.now >= until {
      NoneRecent(e.failures, until, call.now, MINUTE);
      NoneRecent(e.failures, until, call.now, TEN_MINUTES);
      NewestIsRecent(e.failures, call.now, TEN_MINUTES);
      assert Recent(e.failures + [call.now], call.now, TEN_MINUTES) == [call.now];
      RecentIsPart([call.now], call.now, MINUTE);
    }
  }

  lemma {:induction false} MinuteLater(failures: seq<nat>, now: nat)
    requires NoneAfter(failures, now)
    ensures Recent(failures, now + MINUTE, MINUTE) == Recent(failures, now, 0)
  {
    if failures != [] {
      MinuteLater(failures[1..], now);
    }
  }

  /** A minute is not always enough after `RateLimited(60)`: the window includes both
      its ends, so failures at the very instant of the answer still count then. */
  lemma {:induction false} RetryAfterMinute(entry: Option<Entry>, now: nat)
    requires entry.Some? ==> NoneAfter(entry.value.failures, now)
    requires AfterFailure(entry, now).1.RateLimited?
    ensures AfterCheck(Some(AfterFailure(entry, now).0), now + MINUTE).1 == Allowed
            <==> |Recent(AfterFailure(entry, now).0.failures, now, 0)| < 10
  {
    hide Recent, SecondsLeft;
    var e := if entry.Some? then entry.value else Entry([], None);
    NewestIsRecent(e.failures, now, TEN_MINUTES);
    RecentIsPart(e.failures, now, TEN_MINUTES);
    var failures := AfterFailure(entry, now).0.failures;
    forall i | 0 <= i < |failures| ensures failures[i] <= now {
      if i < |failures| - 1 {
        assert failures[i] in e.failures;
      }
    }
    MinuteLater(failures, now);
  }

  lemma {:induction false} Burst<Ip(!new)>(calls: seq<Call<Ip>>, ip: Ip, t: nat)
    requires |calls| < 30 && forall k :: 0 <= k < |calls| ==> calls[k] == Failure(ip, t)
    ensures if calls == [] then Run(calls).0 == map[]
            else ip in Run(calls).0 && Run(calls).0[ip] == Entry(seq(|calls|, i => t), None)
    ensures calls != [] ==>
      Step(Run(calls[..|calls| - 1]).0, calls[|calls| - 1]).1 == if |calls| >= 10 then RateLimited(60) else Allowed
  {
    hide Recent, SecondsLeft;
    if calls != [] {
      var before := calls[..|calls| - 1];
      Burst(before, ip, t);
      var failures := seq(|calls|, i => t);
      assert seq(|before|, i => t) + [t] == failures;
      assert before == [] ==> [] + [t] == failures;
      KeepAll(failures, t, TEN_MINUTES);
      KeepAll(failures, t, MINUTE);
    }
  }

  /** Ten failures at one instant: the tenth is told to come back in sixty seconds, and
      sixty seconds later it is told so again. */
  lemma {:induction false} RetryCanMislead<Ip(!new)>(calls: seq<Call<Ip>>, ip: Ip, t: nat)
    requires |calls| == 10 && forall k :: 0 <= k < |calls| ==> calls[k] == Failure(ip, t)
    ensures Step(Run(calls[..9]).0, calls[9]).1 == RateLimited(60)
    ensures Step(Run(calls).0, Check(ip, t + MINUTE)).1 == RateLimited(60)
  {
    hide Recent, Run;
    Burst(calls, ip, t);
    KeepAll(seq(10, i => t), t + MINUTE, MINUTE);
  }
}
