/** The fixed-window limiter of server/limiter.go. */
module Limiter {
  import opened Records

  datatype RateWindow = RateWindow(started: Time, count: nat)

  const PRUNE_ABOVE := 4096

  type Entries = map<string, RateWindow>

  /** The window that a call at `now` falls into, counting the call. */
  function Counted(window: int, entries: Entries, key: string, now: Time): RateWindow {
    var entry := if key in entries then entries[key] else RateWindow(ZERO_TIME, 0);
    if entry.started == ZERO_TIME || now - entry.started >= window then RateWindow(now, 1)
    else RateWindow(entry.started, entry.count + 1)
  }

  function Live(window: int, entries: Entries, now: Time): Entries {
    map key | key in entries && now - entries[key].started < window :: entries[key]
  }

  /** The entries after a call; a limiter that never prunes skips the second step. */
  function After(window: int, entries: Entries, key: string, now: Time, prune: bool): Entries {
    var entries' := entries[key := Counted(window, entries, key, now)];
    if prune && |entries'| > PRUNE_ABOVE then Live(window, entries', now) else entries'
  }

  class FixedWindowLimiter {
    const limit: int
    const window: int
    var entries: Entries

    constructor (limit: int, window: int)
      ensures this.limit == limit && this.window == window && entries == map[]
    {
      this.limit, this.window, entries := limit, window, map[];
    }

    method Allow(key: string, now: Time) returns (ok: bool)
      modifies this
      ensures limit < 0 ==> ok && entries == old(entries)
      ensures limit >= 0 ==> ok == (Counted(window, old(entries), key, now).count <= limit)
      ensures limit >= 0 ==> entries == After(window, old(entries), key, now, true)
    {
      if limit < 0 {
        return true;
      }
      var entry := RateWindow(ZERO_TIME, 0);
      if key in entries {
        entry := entries[key];
      }
      if entry.started == ZERO_TIME || now - entry.started >= window {
        entry := RateWindow(now, 0);
      }
      entry := entry.(count := entry.count + 1);
      entries := entries[key := entry];
      if |entries| > PRUNE_ABOVE {
        ghost var all := entries;
        var candidates := entries.Keys;
        while candidates != {}
          invariant candidates <= all.Keys && candidates <= entries.Keys <= all.Keys
          invariant forall k | k in entries :: entries[k] == all[k]
          invariant forall k | k in all && k !in candidates :: k in entries <==> now - all[k].started < window
          decreases candidates
        {
          var candidate :| candidate in candidates;
          if now - entries[candidate].started >= window {
            entries := entries - {candidate};
          }
          candidates := candidates - {candidate};
        }
        assert entries == Live(window, all, now);
      }
      return entry.count <= limit;
    }
  }

  datatype Call = Call(key: string, now: Time)

  predicate Monotone(calls: seq<Call>) {
    forall i, j | 0 <= i < j < |calls| :: calls[i].now <= calls[j].now
  }

  /** The entries after a run from an empty limiter. */
  function Run(window: int, calls: seq<Call>, prune: bool): Entries {
    if calls == [] then map[]
    else
      var call := calls[|calls| - 1];
      After(window, Run(window, calls[..|calls| - 1], prune), call.key, call.now, prune)
  }

  /** The answer to the last call of a run, when the limit is not negative. */
  predicate Accepts(limit: nat, window: int, calls: seq<Call>, prune: bool)
    requires calls != []
  {
    var call := calls[|calls| - 1];
    Counted(window, Run(window, calls[..|calls| - 1], prune), call.key, call.now).count <= limit
  }

  /** The pruned entries agree with all entries except for windows that are over. */
  ghost predicate Agrees(window: int, pruned: Entries, all: Entries, now: Time) {
    && (forall key | key in pruned :: key in all && all[key] == pruned[key])
    && (forall key | key in all && key !in pruned :: all[key].started == ZERO_TIME || now - all[key].started >= window)
  }

  lemma {:induction false} PrunedAgrees(window: int, calls: seq<Call>, now: Time)
    requires Monotone(calls) && (calls != [] ==> calls[|calls| - 1].now <= now)
    ensures Agrees(window, Run(window, calls, true), Run(window, calls, false), now)
  {
    if calls != [] {
      var call, before := calls[|calls| - 1], calls[..|calls| - 1];
      PrunedAgrees(window, before, call.now);
      var pruned, all := Run(window, before, true), Run(window, before, false);
      assert Counted(window, pruned, call.key, call.now) == Counted(window, all, call.key, call.now);
    }
  }

  /** Pruning is invisible: on every call sequence with a monotone clock, whatever the window, the limiter answers
      exactly as one that never deletes an entry. */
  lemma PruningIsInvisible(limit: nat, window: int, calls: seq<Call>)
    requires Monotone(calls) && calls != []
    ensures Accepts(limit, window, calls, true) <==> Accepts(limit, window, calls, false)
  {
    var call, before := calls[|calls| - 1], calls[..|calls| - 1];
    PrunedAgrees(window, before, call.now);
  }

  /** How many calls of `key` in the half-open interval the limiter accepts. */
  function Accepted(limit: nat, window: int, calls: seq<Call>, prune: bool, key: string, from: Time, to: Time): nat {
    if calls == [] then 0
    else
      var call := calls[|calls| - 1];
      Accepted(limit, window, calls[..|calls| - 1], prune, key, from, to) +
      if call.key == key && from <= call.now < to && Accepts(limit, window, calls, prune) then 1 else 0
  }

  lemma {:induction false} AcceptedIgnoresPruning(limit: nat, window: int, calls: seq<Call>, key: string, from: Time,
                                                  to: Time)
    requires Monotone(calls)
    ensures Accepted(limit, window, calls, true, key, from, to) == Accepted(limit, window, calls, false, key, from, to)
  {
    if calls != [] {
      AcceptedIgnoresPruning(limit, window, calls[..|calls| - 1], key, from, to);
      PruningIsInvisible(limit, window, calls);
    }
  }

  /** `n` windows that touch the interval are over, and `entry` is the next: what the interval has accepted so far
      fits into them, and each window started at least one window after the one before. */
  predicate Fits(limit: nat, window: int, entry: RateWindow, from: Time, accepted: nat, n: nat) {
    accepted <= n * limit + Min(entry.count, limit) && entry.started > from - window + n * window
  }

  /** Only `k + 1` windows touch an interval of `k` windows. */
  lemma FittingIsBounded(limit: nat, window: int, entry: RateWindow, from: Time, now: Time, accepted: nat, n: nat,
                         k: nat)
    requires window > 0 && Fits(limit, window, entry, from, accepted, n)
    requires entry.started <= now < from + k * window
    ensures accepted <= (k + 1) * limit
  {
    assert (k + 1) * window == k * window + window;
    assert n >= k + 1 ==> n * window >= (k + 1) * window;
    assert n * limit <= k * limit;
    assert (k + 1) * limit == k * limit + limit;
  }

  /** A call in the interval keeps the count fitting: it opens the first window, the next window, or counts in the
      current one. */
  lemma CallFits(limit: nat, window: int, entries: Entries, key: string, from: Time, now: Time, accepted: nat, n: nat)
    returns (n': nat)
    requires window > 0 && now != ZERO_TIME && from <= now
    requires key in entries ==> entries[key].started != ZERO_TIME && entries[key].started <= now
    requires accepted > 0 ==> key in entries && Fits(limit, window, entries[key], from, accepted, n)
    ensures var entry := Counted(window, entries, key, now);
            && entry.started != ZERO_TIME && entry.started <= now
            && Fits(limit, window, entry, from, accepted + if entry.count <= limit then 1 else 0, n')
  {
    if accepted == 0 {
      n' := 0;
    } else if now - entries[key].started >= window {
      n' := n + 1;
      assert n' * limit == n * limit + limit && n' * window == n * window + window;
    } else {
      n' := n;
    }
  }

  /** No call of `key` happens at Go's zero time, which the code takes for a window that has not started. */
  predicate ClockRuns(calls: seq<Call>, key: string) {
    forall i | 0 <= i < |calls| && calls[i].key == key :: calls[i].now != ZERO_TIME
  }

  lemma {:induction false} AcceptedFitsWindows(limit: nat, window: int, calls: seq<Call>, key: string, from: Time,
                                               k: nat)
    returns (n: nat)
    requires window > 0 && Monotone(calls) && ClockRuns(calls, key)
    ensures var accepted := Accepted(limit, window, calls, false, key, from, from + k * window);
            var entries := Run(window, calls, false);
            && accepted <= (k + 1) * limit
            && (key in entries ==>
                  calls != [] && entries[key].started != ZERO_TIME && entries[key].started <= calls[|calls| - 1].now)
            && (accepted > 0 && calls[|calls| - 1].now < from + k * window ==>
                  key in entries && Fits(limit, window, entries[key], from, accepted, n))
            && (calls != [] && calls[|calls| - 1].now < from ==> accepted == 0)
  {
    n := 0;
    if calls != [] {
      var call, before, to := calls[|calls| - 1], calls[..|calls| - 1], from + k * window;
      n := AcceptedFitsWindows(limit, window, before, key, from, k);
      var earlier := Accepted(limit, window, before, false, key, from, to);
      var entries := Run(window, before, false);
      if call.key == key && from <= call.now < to {
        hide Fits;
        n := CallFits(limit, window, entries, key, from, call.now, earlier, n);
        var entry := Counted(window, entries, key, call.now);
        var accepted := Accepted(limit, window, calls, false, key, from, to);
        FittingIsBounded(limit, window, entry, from, call.now, accepted, n, k);
      }
    }
  }

  /** With a monotone clock past the zero time and a positive window, for every key, any half-open interval of `k`
      windows contains at most (k + 1) times `limit` accepted calls. */
  lemma LimiterBound(limit: nat, window: int, calls: seq<Call>, key: string, from: Time, k: nat)
    requires window > 0 && Monotone(calls) && ClockRuns(calls, key)
    ensures Accepted(limit, window, calls, true, key, from, from + k * window) <= (k + 1) * limit
  {
    var _ := AcceptedFitsWindows(limit, window, calls, key, from, k);
    AcceptedIgnoresPruning(limit, window, calls, key, from, from + k * window);
  }

  /** `n` calls of `key` at the same time. */
  function Burst(key: string, t: Time, n: nat): seq<Call> {
    seq(n, _ => Call(key, t))
  }

  lemma {:induction false} ZeroTimeIsNotLimited(limit: nat, window: int, key: string, n: nat)
    requires limit > 0 && window > 0
    ensures Accepted(limit, window, Burst(key, ZERO_TIME, n), true, key, ZERO_TIME, window) == n
    ensures forall other | other in Run(window, Burst(key, ZERO_TIME, n), true) ::
              other == key && Run(window, Burst(key, ZERO_TIME, n), true)[other].started == ZERO_TIME
  {
    if n > 0 {
      ZeroTimeIsNotLimited(limit, window, key, n - 1);
      assert Burst(key, ZERO_TIME, n)[..n - 1] == Burst(key, ZERO_TIME, n - 1);
    }
  }

  /** The bound needs a clock past Go's zero time: a burst at time `t` is limited, however long it is, exactly when `t`
      is not the zero time. */
  lemma BurstIsLimitedExactly(limit: nat, window: int, key: string, t: Time)
    requires limit > 0 && window > 0
    ensures (forall n: nat :: Accepted(limit, window, Burst(key, t, n), true, key, t, t + window) <= 2 * limit)
            <==> t != ZERO_TIME
  {
    if t == ZERO_TIME {
      ZeroTimeIsNotLimited(limit, window, key, 2 * limit + 1);
    } else {
      forall n: nat ensures Accepted(limit, window, Burst(key, t, n), true, key, t, t + window) <= 2 * limit {
        LimiterBound(limit, window, Burst(key, t, n), key, t, 1);
      }
    }
  }

  /** What a window has counted, up to the limit, was accepted since it started. */
  lemma {:induction false} CountedWasAccepted(limit: nat, window: int, calls: seq<Call>, key: string, to: Time)
    requires window > 0 && Monotone(calls) && forall i | 0 <= i < |calls| :: calls[i].now < to
    ensures var entries := Run(window, calls, false);
            key in entries ==>
              Min(entries[key].count, limit) <= Accepted(limit, window, calls, false, key, entries[key].started, to)
  {
    if calls != [] {
      var call, before := calls[|calls| - 1], calls[..|calls| - 1];
      CountedWasAccepted(limit, window, before, key, to);
      var entry := Counted(window, Run(window, before, false), call.key, call.now);
      if call.key == key {
        StartedBefore(window, before, key, call.now);
        assert Run(window, calls, false)[key] == entry;
      }
    }
  }

  lemma {:induction false} StartedBefore(window: int, calls: seq<Call>, key: string, now: Time)
    requires Monotone(calls) && (calls != [] ==> calls[|calls| - 1].now <= now)
    ensures key in Run(window, calls, false) ==> Run(window, calls, false)[key].started <= now
  {
    if calls != [] {
      StartedBefore(window, calls[..|calls| - 1], key, calls[|calls| - 1].now);
    }
  }

  lemma {:induction false} AcceptedIsMonotone(limit: nat, window: int, calls: seq<Call>, prune: bool, key: string,
                                              from: Time, later: Time, to: Time)
    requires from <= later
    ensures Accepted(limit, window, calls, prune, key, later, to) <=
            Accepted(limit, window, calls, prune, key, from, to)
  {
    if calls != [] {
      AcceptedIsMonotone(limit, window, calls[..|calls| - 1], prune, key, from, later, to);
    }
  }

  /** The limiter refuses only what it must: when it refuses a call, it has accepted at least `limit` calls of that key
      in the window that ends with the call. */
  lemma RefusedOnlyAtLimit(limit: nat, window: int, calls: seq<Call>)
    requires window > 0 && Monotone(calls) && calls != [] && !Accepts(limit, window, calls, true)
    ensures var call := calls[|calls| - 1];
            limit <= Accepted(limit, window, calls[..|calls| - 1], true, call.key, call.now - window + 1, call.now + 1)
  {
    var call, before := calls[|calls| - 1], calls[..|calls| - 1];
    PruningIsInvisible(limit, window, calls);
    AcceptedIgnoresPruning(limit, window, before, call.key, call.now - window + 1, call.now + 1);
    var entries := Run(window, before, false);
    if limit > 0 {
      CountedWasAccepted(limit, window, before, call.key, call.now + 1);
      AcceptedIsMonotone(limit, window, before, false, call.key, call.now - window + 1, entries[call.key].started,
                         call.now + 1);
    }
  }
}
