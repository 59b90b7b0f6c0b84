/** The rolling request quota per key in crates/server/src/rate_limit.rs. */
module KeyQuota {
  import opened SlidingWindow

  datatype QuotaResult = QuotaResult(allowed: bool, limit: nat, remaining: nat, resetSecs: nat)

  /** The limit is a u32, so the `as u32` of a length within it keeps it whole. */
  datatype Quota = Quota(limit: nat, window: nat)

  function First(requests: seq<nat>, now: nat): nat { if requests == [] then now else requests[0] }

  function ResetSecs(q: Quota, oldest: nat, now: nat): nat
  {
    var elapsed := Elapsed(now, oldest);
    if elapsed < q.window then
      var secs := (q.window - elapsed) / SECOND;
      if secs < 1 then 1 else secs
    else q.window / SECOND
  }

  /** One call for a key whose requests are listed: the list after it and the answer. */
  function CheckAndRecord(q: Quota, requests: seq<nat>, now: nat): (seq<nat>, QuotaResult)
  {
    var kept := Recent(requests, now, q.window);
    var reset := ResetSecs(q, First(kept, now), now);
    if |kept| >= q.limit then (kept, QuotaResult(false, q.limit, 0, reset))
    else (kept + [now], QuotaResult(true, q.limit, q.limit - (|kept| + 1), reset))
  }

  function RequestsOf(entries: map<string, seq<nat>>, key: string): seq<nat>
  {
    if key in entries then entries[key] else []
  }

  class KeyQuotaTracker {
    const quota: Quota
    var entries: map<string, seq<nat>>

    constructor (limit: nat, window: nat)
      ensures quota == Quota(limit, window) && entries == map[]
    {
      quota := Quota(limit, window);
      entries := map[];
    }

    method CheckAndRecordAt(key: string, now: nat) returns (r: QuotaResult)
      modifies this
      ensures r == CheckAndRecord(quota, RequestsOf(old(entries), key), now).1
      ensures entries == old(entries)[key := CheckAndRecord(quota, RequestsOf(old(entries), key), now).0]
    {
      var requests := if key in entries then entries[key] else [];
      requests := Recent(requests, now, quota.window);
      var count := |requests|;
      var oldest := if requests == [] then now else requests[0];
      var elapsed := Elapsed(now, oldest);
      var resetSecs :=
        if elapsed < quota.window then
          var secs := (quota.window - elapsed) / SECOND;
          if secs < 1 then 1 else secs
        else quota.window / SECOND;
      if count >= quota.limit {
        r := QuotaResult(false, quota.limit, 0, resetSecs);
      } else {
        requests := requests + [now];
        r := QuotaResult(true, quota.limit, quota.limit - (count + 1), resetSecs);
      }
      entries := entries[key := requests];
    }
  }

  // ---- the calls for one key ----------------------------------------------------------

  ghost predicate Ordered(calls: seq<nat>)
  {
    forall i, j :: 0 <= i < j < |calls| ==> calls[i] <= calls[j]
  }

  /** The list kept for the key after these calls. */
  function Kept(q: Quota, calls: seq<nat>): seq<nat>
  {
    if calls == [] then []
    else CheckAndRecord(q, Kept(q, calls[..|calls| - 1]), calls[|calls| - 1]).0
  }

  /** The answer to the last of these calls. */
  function Answer(q: Quota, calls: seq<nat>): QuotaResult
    requires calls != []
  {
    CheckAndRecord(q, Kept(q, calls[..|calls| - 1]), calls[|calls| - 1]).1
  }

  /** The times of all calls that were ever allowed. */
  function Admitted(q: Quota, calls: seq<nat>): seq<nat>
  {
    if calls == [] then []
    else Admitted(q, calls[..|calls| - 1]) + (if Answer(q, calls).allowed then [calls[|calls| - 1]] else [])
  }

  lemma {:induction false} OrderedPrefix(calls: seq<nat>)
    requires Ordered(calls) && calls != []
    ensures Ordered(calls[..|calls| - 1])
    ensures calls[..|calls| - 1] == [] || calls[|calls| - 2] <= calls[|calls| - 1]
  {
  }

  /** The pruned list is the allowed calls of the last window. */
  lemma {:induction false} KeptIsRecent(q: Quota, calls: seq<nat>)
    requires Ordered(calls) && calls != []
    ensures Kept(q, calls) == Recent(Admitted(q, calls), calls[|calls| - 1], q.window)
    ensures NoneAfter(Admitted(q, calls), calls[|calls| - 1])
    decreases |calls|
  {
    hide Recent, ResetSecs;
    var before, now := calls[..|calls| - 1], calls[|calls| - 1];
    RecentKept(q, calls);
    OrderedPrefix(calls);
    if before != [] {
      KeptIsRecent(q, before);
    }
    NewestIsRecent(Admitted(q, before), now, q.window);
    assert Admitted(q, before) + [] == Admitted(q, before);
  }

  /** Counting in the pruned list is counting in the whole history. */
  lemma {:induction false} RecentKept(q: Quota, calls: seq<nat>)
    requires Ordered(calls) && calls != []
    ensures var before, now := calls[..|calls| - 1], calls[|calls| - 1];
            Recent(Kept(q, before), now, q.window) == Recent(Admitted(q, before), now, q.window)
    decreases |calls|, 0
  {
    hide Recent;
    var before, now := calls[..|calls| - 1], calls[|calls| - 1];
    OrderedPrefix(calls);
    if before != [] {
      KeptIsRecent(q, before);
      RecentOfRecent(Admitted(q, before), calls[|calls| - 2], q.window, now, q.window);
    }
  }

  /** The allowed times in a closed interval of the window's length. */
  function During(times: seq<nat>, from: nat, window: nat): seq<nat>
  {
    if times == [] then []
    else (if from <= times[0] <= from + window then [times[0]] else []) + During(times[1..], from, window)
  }

  lemma {:induction false} DuringAppend(a: seq<nat>, now: nat, from: nat, window: nat)
    ensures During(a + [now], from, window)
            == During(a, from, window) + (if from <= now <= from + window then [now] else [])
  {
    if a == [] {
      assert a + [now] == [now] && [now][1..] == [];
    } else {
      assert (a + [now])[1..] == a[1..] + [now];
      DuringAppend(a[1..], now, from, window);
    }
  }

  lemma {:induction false} DuringIsRecent(times: seq<nat>, now: nat, from: nat, window: nat)
    requires from <= now <= from + window && NoneAfter(times, now)
    ensures |During(times, from, window)| <= |Recent(times, now, window)|
  {
    if times != [] {
      DuringIsRecent(times[1..], now, from, window);
    }
  }

  /** The call is allowed exactly when fewer than `limit` allowed calls lie in the window
      that ends with it, and never do more than `limit`; what remains after an allowed
      call makes up the limit together with the calls in its window. */
  lemma {:induction false} AllowedWhenBelowLimit(q: Quota, calls: seq<nat>)
    requires Ordered(calls) && calls != []
    ensures var now, answer := calls[|calls| - 1], Answer(q, calls);
            var n := |Recent(Admitted(q, calls[..|calls| - 1]), now, q.window)|;
            && n <= q.limit
            && (answer.allowed <==> n < q.limit)
            && (answer.allowed ==> answer.remaining + |Recent(Admitted(q, calls), now, q.window)| == q.limit)
            && (!answer.allowed ==> n == q.limit && answer.remaining == 0)
  {
    hide Recent, ResetSecs;
    var before, now := calls[..|calls| - 1], calls[|calls| - 1];
    RecentKept(q, calls);
    RecentIsPart(Kept(q, before), now, q.window);
    KeptBelowLimit(q, before);
    NewestIsRecent(Admitted(q, before), now, q.window);
  }

  lemma {:induction false} KeptBelowLimit(q: Quota, calls: seq<nat>)
    ensures |Kept(q, calls)| <= q.limit
    decreases |calls|
  {
    hide Recent, ResetSecs;
    if calls != [] {
      var before := calls[..|calls| - 1];
      KeptBelowLimit(q, before);
      RecentIsPart(Kept(q, before), calls[|calls| - 1], q.window);
    }
  }

  /** Whatever the calls, no interval of the window's length holds more than `limit`
      allowed ones. */
  lemma {:induction false} QuotaHolds(q: Quota, calls: seq<nat>, from: nat)
    requires Ordered(calls)
    ensures |During(Admitted(q, calls), from, q.window)| <= q.limit
    decreases |calls|
  {
    hide Recent, During, Answer;
    if calls == [] {
      assert |During([], from, q.window)| == 0 by { NoneDuring(from, q.window); }
    } else {
      var before, now := calls[..|calls| - 1], calls[|calls| - 1];
      OrderedPrefix(calls);
      QuotaHolds(q, before, from);
      AllowedWhenBelowLimit(q, calls);
      if Answer(q, calls).allowed {
        DuringAppend(Admitted(q, before), now, from, q.window);
        if from <= now <= from + q.window {
          AdmittedBy(q, calls);
          DuringIsRecent(Admitted(q, before), now, from, q.window);
        }
      } else {
        assert Admitted(q, before) + [] == Admitted(q, before);
      }
    }
  }

  lemma {:induction false} NoneDuring(from: nat, window: nat)
    ensures During([], from, window) == []
  {
  }

  lemma {:induction false} AdmittedBy(q: Quota, calls: seq<nat>)
    requires Ordered(calls) && calls != []
    ensures NoneAfter(Admitted(q, calls[..|calls| - 1]), calls[|calls| - 1])
  {
    hide Answer, Kept;
    OrderedPrefix(calls);
    if calls[..|calls| - 1] != [] {
      KeptIsRecent(q, calls[..|calls| - 1]);
    }
  }

  // ---- what `reset_secs` is worth --------------------------------------------------------

  /** The oldest request that still counts against the refused call. */
  function Oldest(q: Quota, requests: seq<nat>, now: nat): nat { First(Recent(requests, now, q.window), now) }

  ghost predicate InOrder(requests: seq<nat>, now: nat)
  {
    && NoneAfter(requests, now)
    && forall i, j :: 0 <= i < j < |requests| ==> requests[i] <= requests[j]
  }

  ghost predicate AllBetween(times: seq<nat>, low: nat, now: nat)
  {
    forall i :: 0 <= i < |times| ==> low <= times[i] <= now
  }

  lemma {:induction false} RecentBounds(times: seq<nat>, low: nat, now: nat, window: nat)
    requires AllBetween(times, low, now)
    ensures AllBetween(Recent(times, now, window), low, now) && AllWithin(Recent(times, now, window), now, window)
  {
    if times != [] {
      RecentBounds(times[1..], low, now, window);
    }
  }

  lemma {:induction false} TailInOrder(requests: seq<nat>, now: nat)
    requires InOrder(requests, now) && requests != []
    ensures InOrder(requests[1..], now)
    ensures requests[0] <= now && AllBetween(requests[1..], requests[0], now)
  {
  }

  lemma {:induction false} ConsInOrder(first: nat, rest: seq<nat>, now: nat)
    requires InOrder(rest, now) && first <= now && AllBetween(rest, first, now)
    ensures InOrder([first] + rest, now)
  {
  }

  lemma {:induction false} RecentInOrder(requests: seq<nat>, now: nat, window: nat)
    requires InOrder(requests, now)
    ensures InOrder(Recent(requests, now, window), now)
  {
    hide InOrder, AllBetween;
    if requests != [] {
      TailInOrder(requests, now);
      RecentInOrder(requests[1..], now, window);
      RecentBounds(requests[1..], requests[0], now, window);
      ConsInOrder(requests[0], Recent(requests[1..], now, window), now);
      assert [] + Recent(requests[1..], now, window) == Recent(requests[1..], now, window);
    } else {
      assert Recent([], now, window) == [];
    }
  }

  /** Pruning removes something exactly when the oldest has left the window. */
  lemma {:induction false} PrunesOldest(requests: seq<nat>, now: nat, window: nat)
    requires InOrder(requests, now) && requests != []
    ensures |Recent(requests, now, window)| <= |requests|
    ensures |Recent(requests, now, window)| == |requests| <==> now - requests[0] <= window
  {
    if now - requests[0] <= window {
      KeepAll(requests, now, window);
    } else {
      RecentIsPart(requests[1..], now, window);
    }
  }

  /** A refused client that waits `reset_secs` and asks again is refused again, unless
      less than a second was missing (the seconds left are rounded down) or the oldest
      request was just at the edge of the window, which still counts. */
  lemma {:induction false} RetryAfterReset(q: Quota, requests: seq<nat>, now: nat)
    requires InOrder(requests, now)
    requires |requests| <= q.limit && !CheckAndRecord(q, requests, now).1.allowed
    ensures var (kept, refusal) := CheckAndRecord(q, requests, now);
            var age := Elapsed(now, Oldest(q, requests, now));
            && age <= q.window
            && (CheckAndRecord(q, kept, now + refusal.resetSecs * SECOND).1.allowed
                <==> && q.limit > 0
                     && ((age < q.window && q.window - age < SECOND) || (age == q.window && q.window >= SECOND)))
  {
    hide Recent;
    var kept := Recent(requests, now, q.window);
    RecentInOrder(requests, now, q.window);
    RecentBounds(requests, 0, now, q.window);
    RecentIsPart(requests, now, q.window);
    var secs := ResetSecs(q, First(kept, now), now);
    if q.limit == 0 {
      return;
    }
    PrunesOldest(kept, now + secs * SECOND, q.window);
    assert RetryGap(q.window, now - kept[0], secs * SECOND);
  }

  ghost predicate RetryGap(window: nat, age: int, wait: nat)
  {
    age <= window &&
    (age + wait > window <==> (age < window && window - age < SECOND) || (age == window && window >= SECOND))
  }

  lemma {:induction false} SnocInOrder(requests: seq<nat>, at: nat, now: nat)
    requires InOrder(requests, at) && at <= now
    ensures InOrder(requests, now) && InOrder(requests + [now], now)
  {
  }

  lemma {:induction false} KeptInOrder(q: Quota, calls: seq<nat>, now: nat)
    requires Ordered(calls) && (calls == [] || calls[|calls| - 1] <= now)
    ensures InOrder(Kept(q, calls), now)
    decreases |calls|
  {
    hide InOrder, Recent, ResetSecs;
    if calls == [] {
      assert InOrder([], now) by { NoneInOrder(now); }
    } else {
      var before, at := calls[..|calls| - 1], calls[|calls| - 1];
      OrderedPrefix(calls);
      KeptInOrder(q, before, at);
      RecentInOrder(Kept(q, before), at, q.window);
      SnocInOrder(Recent(Kept(q, before), at, q.window), at, at);
      SnocInOrder(Kept(q, calls), at, now);
    }
  }

  lemma {:induction false} NoneInOrder(now: nat)
    ensures InOrder([], now)
  {
  }

  /** The same for a client's calls: refused, it makes one more after `reset_secs`. */
  lemma {:induction false} RefusedThenRetried(q: Quota, calls: seq<nat>)
    requires Ordered(calls) && calls != [] && !Answer(q, calls).allowed
    ensures var now := calls[|calls| - 1];
            var age := Elapsed(now, Oldest(q, Admitted(q, calls), now));
            && age <= q.window
            && (Answer(q, calls + [now + Answer(q, calls).resetSecs * SECOND]).allowed
                <==> && q.limit > 0
                     && ((age < q.window && q.window - age < SECOND) || (age == q.window && q.window >= SECOND)))
  {
    hide Recent, ResetSecs, InOrder;
    var before, now := calls[..|calls| - 1], calls[|calls| - 1];
    var later := now + Answer(q, calls).resetSecs * SECOND;
    assert (calls + [later])[..|calls|] == calls;
    OrderedPrefix(calls);
    KeptInOrder(q, before, now);
    KeptBelowLimit(q, before);
    RetryAfterReset(q, Kept(q, before), now);
    RecentKept(q, calls);
    assert Admitted(q, before) + [] == Admitted(q, before);
  }

  /** With the default quota of 120 calls a minute filled at once: ten seconds on, the
      answer is to come back in 50 seconds, and then the call is refused again. */
  lemma {:induction false} ResetCanMislead(requests: seq<nat>)
    requires |requests| == 120 && forall i :: 0 <= i < |requests| ==> requests[i] == 0
    ensures var q := Quota(120, 60 * SECOND);
            var (kept, refusal) := CheckAndRecord(q, requests, 10 * SECOND);
            && !refusal.allowed && refusal.resetSecs == 50
            && !CheckAndRecord(q, kept, 60 * SECOND).1.allowed
  {
    hide Recent;
    var q := Quota(120, 60 * SECOND);
    KeepAll(requests, 10 * SECOND, q.window);
    KeepAll(requests, 60 * SECOND, q.window);
  }

  // ---- several keys ------------------------------------------------------------------------

  datatype Call = Call(key: string, now: nat)

  function Track(q: Quota, calls: seq<Call>): map<string, seq<nat>>
  {
    if calls == [] then map[]
    else
      var entries, call := Track(q, calls[..|calls| - 1]), calls[|calls| - 1];
      entries[call.key := CheckAndRecord(q, RequestsOf(entries, call.key), call.now).0]
  }

  function CallsOf(calls: seq<Call>, key: string): seq<nat>
  {
    if calls == [] then []
    else
      CallsOf(calls[..|calls| - 1], key) +
      (if calls[|calls| - 1].key == key then [calls[|calls| - 1].now] else [])
  }

  /** What is kept for a key depends on the calls for that key alone. */
  lemma {:induction false} KeysAreIndependent(q: Quota, calls: seq<Call>, key: string)
    ensures RequestsOf(Track(q, calls), key) == Kept(q, CallsOf(calls, key))
  {
    hide CheckAndRecord;
    if calls != [] {
      KeysAreIndependent(q, calls[..|calls| - 1], key);
      var own := CallsOf(calls[..|calls| - 1], key);
      assert own + [] == own;
      assert (own + [calls[|calls| - 1].now])[..|own|] == own;
    }
  }

  // ---- what the answer tells ----------------------------------------------------------------

  /** Every answer names the limit, and the whole seconds until the oldest call still
      counted will have been there for the window, at least one; with none, the whole
      seconds of the window. */
  lemma {:induction false} AnswerTells(q: Quota, requests: seq<nat>, now: nat)
    requires InOrder(requests, now)
    ensures var (_, r) := CheckAndRecord(q, requests, now);
            var kept := Recent(requests, now, q.window);
            && r.limit == q.limit
            && (kept != [] && now < kept[0] + q.window ==>
                  && r.resetSecs >= 1
                  && (r.resetSecs == 1 || r.resetSecs * SECOND <= kept[0] + q.window - now)
                  && kept[0] + q.window - now < (r.resetSecs + 1) * SECOND)
            && (kept == [] && q.window > 0 ==>
                  && r.resetSecs >= 1
                  && (r.resetSecs == 1 || r.resetSecs * SECOND <= q.window)
                  && q.window < (r.resetSecs + 1) * SECOND)
            && (kept != [] && now >= kept[0] + q.window ==>
                  r.resetSecs * SECOND <= q.window < (r.resetSecs + 1) * SECOND)
  {
    hide Recent;
    RecentInOrder(requests, now, q.window);
  }
}
