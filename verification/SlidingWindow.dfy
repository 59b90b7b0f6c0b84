/** Instants kept in a list and counted over a window that ends now. Instants and
    durations are in nanoseconds. */
module SlidingWindow {
  import opened Wrappers

  const SECOND: nat := 1_000_000_000

  /** `now.duration_since(t)`, which saturates at zero. */
  function Elapsed(now: nat, t: nat): nat { if t <= now then now - t else 0 }

  /** `retain(|t| now.duration_since(t) <= window)`: both ends of the window count. */
  function Recent(times: seq<nat>, now: nat, window: nat): seq<nat>
  {
    if times == [] then []
    else (if Elapsed(now, times[0]) <= window then [times[0]] else []) + Recent(times[1..], now, window)
  }

  ghost predicate NoneAfter(times: seq<nat>, now: nat) { forall i :: 0 <= i < |times| ==> times[i] <= now }

  lemma {:induction false} RecentAppend(a: seq<nat>, b: seq<nat>, now: nat, window: nat)
    ensures Recent(a + b, now, window) == Recent(a, now, window) + Recent(b, now, window)
  {
    if a == [] {
      assert a + b == b;
    } else {
      assert (a + b)[1..] == a[1..] + b && (a + b)[0] == a[0];
      RecentAppend(a[1..], b, now, window);
      var head := if Elapsed(now, a[0]) <= window then [a[0]] else [];
      Regroup(head, Recent(a[1..], now, window), Recent(b, now, window));
      assert Recent(a, now, window) == head + Recent(a[1..], now, window);
      assert Recent(a + b, now, window) == head + Recent((a + b)[1..], now, window);
    }
  }

  /** An instant that has left a window never comes back: pruning for the wider, earlier
      window first changes nothing. */
  lemma {:induction false} RecentOfRecent(times: seq<nat>, at: nat, wide: nat, now: nat, window: nat)
    requires at <= now && window <= wide
    ensures Recent(Recent(times, at, wide), now, window) == Recent(times, now, window)
  {
    if times != [] {
      RecentOfRecent(times[1..], at, wide, now, window);
      var head := if Elapsed(at, times[0]) <= wide then [times[0]] else [];
      RecentAppend(head, Recent(times[1..], at, wide), now, window);
      assert head == [times[0]] ==>
        Recent(head, now, window) == (if Elapsed(now, times[0]) <= window then [times[0]] else []) by {
        assert head == [times[0]] ==> head[1..] == [];
      }
    }
  }

  lemma {:induction false} RecentIsPart(times: seq<nat>, now: nat, window: nat)
    ensures |Recent(times, now, window)| <= |times|
    ensures forall i :: 0 <= i < |Recent(times, now, window)| ==>
              Recent(times, now, window)[i] in times && Elapsed(now, Recent(times, now, window)[i]) <= window
  {
    if times != [] {
      RecentIsPart(times[1..], now, window);
    }
  }

  ghost predicate AllWithin(times: seq<nat>, now: nat, window: nat)
  {
    forall i :: 0 <= i < |times| ==> Elapsed(now, times[i]) <= window
  }

  lemma {:induction false} KeepAll(requests: seq<nat>, now: nat, window: nat)
    requires AllWithin(requests, now, window)
    ensures Recent(requests, now, window) == requests
  {
    if requests != [] {
      KeepAll(requests[1..], now, window);
    }
  }

  /** Nothing is recent once all is older than the window. */
  lemma {:induction false} AllTooOld(times: seq<nat>, now: nat, window: nat)
    requires forall i :: 0 <= i < |times| ==> times[i] + window < now
    ensures Recent(times, now, window) == []
  {
    if times != [] {
      AllTooOld(times[1..], now, window);
    }
  }

  lemma {:induction false} NewestIsRecent(times: seq<nat>, now: nat, window: nat)
    ensures Recent(times + [now], now, window) == Recent(times, now, window) + [now]
  {
    RecentAppend(times, [now], now, window);
    assert [now][1..] == [];
  }
}
