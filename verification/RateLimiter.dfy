/** The relay's per-key sliding-window rate limiter. Times are integer ticks. */
module RateLimiter {
  import opened Collections

  /** Drops hits older than the cutoff from the front, as the loop of `allow` does. */
  function Expire(hits: seq<int>, cutoff: int): seq<int> {
    if hits != [] && hits[0] < cutoff then Expire(hits[1..], cutoff) else hits
  }

  type Buckets = map<string, seq<int>>

  function Bucket(b: Buckets, key: string): seq<int> {
    if key in b then b[key] else []
  }

  /** The effect of one call: the new buckets and the decision. */
  function Step(b: Buckets, limit: int, window: int, key: string, now: int): (Buckets, bool) {
    var kept := Expire(Bucket(b, key), now - window);
    if |kept| >= limit then (b[key := kept], false) else (b[key := kept + [now]], true)
  }

  class SlidingWindowRateLimiter {
    const limit: int
    const window: int
    var hits: Buckets

    constructor (limit: int, windowSeconds: int)
      ensures this.limit == (if limit > 1 then limit else 1) && window == windowSeconds && hits == map[]
    {
      this.limit := if limit > 1 then limit else 1;
      window := windowSeconds;
      hits := map[];
    }

    method Allow(key: string, now: int) returns (allowed: bool)
      modifies this`hits
      ensures (hits, allowed) == Step(old(hits), limit, window, key, now)
    {
      var cutoff := now - window;
      var bucket := if key in hits then hits[key] else [];
      while bucket != [] && bucket[0] < cutoff
        invariant Expire(bucket, cutoff) == Expire(Bucket(hits, key), cutoff)
        decreases |bucket|
      {
        bucket := bucket[1..];
      }
      if |bucket| >= limit {
        hits := hits[key := bucket];
        return false;
      }
      hits := hits[key := bucket + [now]];
      return true;
    }
  }

  // ----- Runs -----

  datatype Call = Call(key: string, now: int)

  function Run(calls: seq<Call>, limit: int, window: int): Buckets {
    if calls == [] then map[] else
      var last := calls[|calls| - 1];
      Step(Run(calls[..|calls| - 1], limit, window), limit, window, last.key, last.now).0
  }

  /** The decision on call number `i` of a run. */
  function Decision(calls: seq<Call>, limit: int, window: int, i: nat): bool
    requires i < |calls|
  {
    Step(Run(calls[..i], limit, window), limit, window, calls[i].key, calls[i].now).1
  }

  /** Times of the allowed calls of one key, in order. */
  function AllowedTimes(calls: seq<Call>, limit: int, window: int, key: string): seq<int> {
    if calls == [] then [] else
      var n := |calls| - 1;
      var before := AllowedTimes(calls[..n], limit, window, key);
      if calls[n].key == key && Decision(calls, limit, window, n) then before + [calls[n].now] else before
  }

  predicate ClockNondecreasing(calls: seq<Call>) {
    forall i, j :: 0 <= i < j < |calls| ==> calls[i].now <= calls[j].now
  }

  /** Positions of the times that lie in a closed interval. */
  function Within(times: seq<int>, lo: int, hi: int): set<nat> {
    set i: nat | i < |times| && lo <= times[i] <= hi
  }

  /** `kept` is the part of the allowed times that may still count at `now`; any limit + 1
      consecutive allowed times span more than the window. */
  ghost predicate Good(times: seq<int>, kept: seq<int>, limit: int, window: int, now: int) {
    && (forall i, j :: 0 <= i < j < |times| ==> times[i] <= times[j])
    && (forall i :: 0 <= i < |times| ==> times[i] <= now)
    && |kept| <= |times| && kept == times[|times| - |kept|..]
    && (forall i :: 0 <= i < |times| - |kept| ==> times[i] < now - window)
    && |kept| <= limit
    && (forall i, j :: 0 <= i && j == i + limit < |times| ==> times[j] > times[i] + window)
  }

  lemma {:induction false} ExpireIsSuffix(hits: seq<int>, cutoff: int)
    ensures var r := Expire(hits, cutoff);
            && |r| <= |hits| && r == hits[|hits| - |r|..]
            && (forall i :: 0 <= i < |hits| - |r| ==> hits[i] < cutoff)
            && (r != [] ==> r[0] >= cutoff)
  {
    if hits != [] && hits[0] < cutoff {
      ExpireIsSuffix(hits[1..], cutoff);
    }
  }

  lemma GoodExpire(times: seq<int>, kept: seq<int>, limit: int, window: int, now: int, now': int)
    requires Good(times, kept, limit, window, now) && now <= now'
    ensures var r := Expire(kept, now' - window);
            Good(times, r, limit, window, now') && (r != [] ==> r[0] >= now' - window)
  {
    var r := Expire(kept, now' - window);
    ExpireIsSuffix(kept, now' - window);
    var gone := |kept| - |r|;
    forall i | 0 <= i < |times| - |r| ensures times[i] < now' - window {
      if i >= |times| - |kept| { assert times[i] == kept[i - (|times| - |kept|)]; }
    }
  }

  lemma GoodAllow(times: seq<int>, kept: seq<int>, limit: int, window: int, now: int)
    requires Good(times, kept, limit, window, now) && |kept| < limit && window >= 0
    ensures Good(times + [now], kept + [now], limit, window, now)
  {
    var times' := times + [now];
    forall i, j | 0 <= i && j == i + limit < |times'| ensures times'[j] > times'[i] + window {
      if j == |times| { assert i < |times| - |kept|; }
    }
  }

  lemma GoodLater(times: seq<int>, kept: seq<int>, limit: int, window: int, now: int, now': int)
    requires Good(times, kept, limit, window, now) && now <= now'
    ensures Good(times, kept, limit, window, now')
  {
  }

  lemma GoodStep(times: seq<int>, kept: seq<int>, limit: int, window: int, t: int, now: int)
    requires Good(times, kept, limit, window, t) && t <= now && window >= 0
    ensures var r := Expire(kept, t - window);
            if |r| < limit then Good(times + [t], r + [t], limit, window, now) else Good(times, r, limit, window, now)
  {
    GoodExpire(times, kept, limit, window, t, t);
    var r := Expire(kept, t - window);
    if |r| < limit {
      GoodAllow(times, r, limit, window, t);
      GoodLater(times + [t], r + [t], limit, window, t, now);
    } else {
      GoodLater(times, r, limit, window, t, now);
    }
  }

  lemma LastCall(calls: seq<Call>, limit: int, window: int, key: string)
    requires calls != []
    ensures var n := |calls| - 1;
            var times := AllowedTimes(calls[..n], limit, window, key);
            var kept := Bucket(Run(calls[..n], limit, window), key);
            var t, r := calls[n].now, Expire(kept, calls[n].now - window);
            if calls[n].key != key
            then Bucket(Run(calls, limit, window), key) == kept && AllowedTimes(calls, limit, window, key) == times
            else if |r| < limit
            then Bucket(Run(calls, limit, window), key) == r + [t]
                 && AllowedTimes(calls, limit, window, key) == times + [t]
            else Bucket(Run(calls, limit, window), key) == r && AllowedTimes(calls, limit, window, key) == times
  {
    hide Expire;
  }

  lemma ClockFront(calls: seq<Call>)
    requires calls != [] && ClockNondecreasing(calls)
    ensures var front := calls[..|calls| - 1];
            ClockNondecreasing(front) && (front != [] ==> front[|front| - 1].now <= calls[|calls| - 1].now)
  {
  }

  lemma EmptyRun(limit: int, window: int, key: string, now: int)
    requires limit >= 1
    ensures Good(AllowedTimes([], limit, window, key), Bucket(Run([], limit, window), key), limit, window, now)
  {
  }

  /** The deque of every key always is exactly what the allowed history requires. */
  lemma {:induction false} RunIsGood(calls: seq<Call>, limit: int, window: int, key: string, now: int)
    requires limit >= 1 && window >= 0 && ClockNondecreasing(calls)
    requires calls != [] ==> calls[|calls| - 1].now <= now
    ensures Good(AllowedTimes(calls, limit, window, key), Bucket(Run(calls, limit, window), key), limit, window, now)
  {
    hide Good, Expire, Run, AllowedTimes, Bucket, ClockNondecreasing;
    if calls == [] {
      EmptyRun(limit, window, key, now);
    } else {
      var n := |calls| - 1;
      var front := calls[..n];
      var t := calls[n].now;
      ClockFront(calls);
      LastCall(calls, limit, window, key);
      RunIsGood(front, limit, window, key, t);
      var times := AllowedTimes(front, limit, window, key);
      var kept := Bucket(Run(front, limit, window), key);
      if calls[n].key == key {
        GoodStep(times, kept, limit, window, t, now);
      } else {
        GoodLater(times, kept, limit, window, t, now);
      }
    }
  }

  lemma {:induction false} IntervalSize(s: set<nat>, lo: nat, n: nat)
    requires forall i :: i in s ==> lo <= i < lo + n
    ensures |s| <= n
  {
    if n > 0 {
      var last := {lo + n - 1};
      IntervalSize(s - last, lo, n - 1);
      assert |s| <= |s - last| + |last|;
    } else {
      assert s == {};
    }
  }

  /** Window bound on sorted times: limit + 1 hits never fit into one closed window. */
  lemma SpacedTimes(times: seq<int>, limit: int, window: int, lo: int)
    requires limit >= 1 && window >= 0
    requires forall i, j :: 0 <= i < j < |times| ==> times[i] <= times[j]
    requires forall i, j :: 0 <= i && j == i + limit < |times| ==> times[j] > times[i] + window
    ensures |Within(times, lo, lo + window)| <= limit
  {
    var s := Within(times, lo, lo + window);
    if s != {} {
      var m := Smallest(s);
      forall i | m + limit <= i < |times| ensures times[i] > lo + window {
        var j := m + limit;
        assert times[j] > times[m] + window;
        assert i > j ==> times[j] <= times[i];
      }
      IntervalSize(s, m, limit);
    }
  }

  lemma {:induction false} Smallest(s: set<nat>) returns (m: nat)
    requires s != {}
    ensures m in s && forall i :: i in s ==> m <= i
  {
    var first :| first in s;
    m := first;
    if s != {first} {
      var r := Smallest(s - {first});
      if r < first { m := r; }
      forall i | i in s ensures m <= i {
        assert i == first || i in s - {first};
      }
    }
  }

  /** Rate guarantee: whatever the run, no closed window of the configured length holds more
      than `limit` allowed hits of one key. */
  lemma NeverOverLimit(calls: seq<Call>, limit: int, window: int, key: string, start: int)
    requires limit >= 1 && window >= 0 && ClockNondecreasing(calls)
    ensures |Within(AllowedTimes(calls, limit, window, key), start, start + window)| <= limit
  {
    var now := if calls == [] then 0 else calls[|calls| - 1].now;
    RunIsGood(calls, limit, window, key, now);
    SpacedTimes(AllowedTimes(calls, limit, window, key), limit, window, start);
  }

  /** Liveness and safety of one decision: a call passes exactly when fewer than `limit` allowed
      hits of its key lie in the closed window that ends now, and is refused only at `limit`. */
  lemma DecisionExact(calls: seq<Call>, limit: int, window: int, i: nat)
    requires limit >= 1 && window >= 0 && ClockNondecreasing(calls) && i < |calls|
    ensures var now := calls[i].now;
            var inWindow := |Within(AllowedTimes(calls[..i], limit, window, calls[i].key), now - window, now)|;
            && (Decision(calls, limit, window, i) <==> inWindow < limit)
            && (!Decision(calls, limit, window, i) ==> inWindow == limit)
  {
    hide Good, AllowedTimes, Run, Expire, Within;
    var now, key, front := calls[i].now, calls[i].key, calls[..i];
    RunIsGood(front, limit, window, key, now);
    var times := AllowedTimes(front, limit, window, key);
    var kept := Bucket(Run(front, limit, window), key);
    GoodExpire(times, kept, limit, window, now, now);
    InWindow(times, Expire(kept, now - window), limit, window, now);
  }

  /** What is left after expiry is what lies in the closed window that ends now. */
  lemma InWindow(times: seq<int>, r: seq<int>, limit: int, window: int, now: int)
    requires Good(times, r, limit, window, now) && (r != [] ==> r[0] >= now - window)
    ensures |Within(times, now - window, now)| == |r|
  {
    var lo, s := |times| - |r|, Within(times, now - window, now);
    forall j: nat
      ensures j in s <==> lo <= j < |times|
    {
      assert lo <= j < |times| ==> times[lo] == r[0] && times[lo] <= times[j];
    }
    IntervalExactly(s, lo, |r|);
  }

  lemma {:induction false} IntervalExactly(s: set<nat>, lo: nat, n: nat)
    requires forall i :: i in s <==> lo <= i < lo + n
    ensures |s| == n
  {
    if n > 0 {
      IntervalExactly(s - {lo + n - 1}, lo, n - 1);
    } else {
      assert s == {};
    }
  }

  /** The calls of one key. */
  function OnlyKey(calls: seq<Call>, key: string): seq<Call> {
    if calls == [] then [] else
      var n := |calls| - 1;
      OnlyKey(calls[..n], key) + (if calls[n].key == key then [calls[n]] else [])
  }

  /** Keys do not affect each other: a key's bucket and allowed times are those of the run
      that holds its own calls only, whatever the clock does. */
  lemma {:induction false} KeysIndependent(calls: seq<Call>, limit: int, window: int, key: string)
    ensures Bucket(Run(calls, limit, window), key) == Bucket(Run(OnlyKey(calls, key), limit, window), key)
    ensures AllowedTimes(calls, limit, window, key) == AllowedTimes(OnlyKey(calls, key), limit, window, key)
  {
    if calls != [] {
      var n := |calls| - 1;
      var front, own := calls[..n], OnlyKey(calls, key);
      KeysIndependent(front, limit, window, key);
      if calls[n].key == key {
        assert own[..|own| - 1] == OnlyKey(front, key) && own[|own| - 1] == calls[n];
        KeyStep(calls, own, limit, window, key);
      } else {
        assert own == OnlyKey(front, key);
      }
    }
  }

  lemma KeyStep(calls: seq<Call>, own: seq<Call>, limit: int, window: int, key: string)
    requires calls != [] && own != [] && calls[|calls| - 1] == own[|own| - 1] && calls[|calls| - 1].key == key
    requires var a, b := calls[..|calls| - 1], own[..|own| - 1];
             && Bucket(Run(a, limit, window), key) == Bucket(Run(b, limit, window), key)
             && AllowedTimes(a, limit, window, key) == AllowedTimes(b, limit, window, key)
    ensures Bucket(Run(calls, limit, window), key) == Bucket(Run(own, limit, window), key)
    ensures AllowedTimes(calls, limit, window, key) == AllowedTimes(own, limit, window, key)
  {
    hide Expire;
  }

  // ----- The clock condition, exactly -----

  /** The clock readings of the calls of one key, in order. */
  function Readings(calls: seq<Call>, key: string): seq<int> {
    if calls == [] then []
    else
      var n := |calls| - 1;
      if calls[n].key == key then Readings(calls[..n], key) + [calls[n].now] else Readings(calls[..n], key)
  }

  predicate IsJump(r: seq<int>, window: int, i: int, j: int, k: int) {
    0 <= i < j < k < |r| && r[j] > r[i] + window && r[i] - window <= r[k] <= r[i] + window
  }

  /** The clock runs past the window of a reading and then comes back within it. */
  ghost predicate JumpsBack(r: seq<int>, window: int) {
    exists i, j, k :: IsJump(r, window, i, j, k)
  }

  /** No closed window of the configured length holds more than `limit` of the times. */
  ghost predicate Bounded(times: seq<int>, limit: int, window: int) {
    forall lo :: AtMost(times, lo, window, limit)
  }

  predicate AtMost(times: seq<int>, lo: int, window: int, limit: int) {
    |Within(times, lo, lo + window)| <= limit
  }

  /** Earlier times within the window of time number `m`. */
  function Near(times: seq<int>, m: nat, window: int): set<nat>
    requires m < |times|
  {
    set q: nat | q < m && times[m] - window <= times[q] <= times[m] + window
  }

  ghost predicate Sparse(times: seq<int>, limit: int, window: int) {
    forall m: nat :: m < |times| ==> |Near(times, m, window)| < limit
  }

  /** Some reading after one that shows `x` ran past its window. */
  ghost predicate Overtaken(r: seq<int>, window: int, x: int) {
    exists i, j :: 0 <= i < j < |r| && r[i] == x && r[j] > x + window
  }

  /** The deque is a suffix of the allowed times, and whatever left it was overtaken. */
  ghost predicate Tracks(r: seq<int>, times: seq<int>, kept: seq<int>, window: int) {
    && |kept| <= |times| && kept == times[|times| - |kept|..]
    && (forall x :: x in times ==> x in r)
    && (forall q :: 0 <= q < |times| - |kept| ==> Overtaken(r, window, times[q]))
  }

  lemma {:induction false} Largest(s: set<nat>) returns (m: nat)
    requires s != {}
    ensures m in s && forall i :: i in s ==> i <= m
  {
    var first :| first in s;
    m := first;
    if s != {first} {
      var r := Largest(s - {first});
      if r > first { m := r; }
      forall i | i in s ensures i <= m {
        assert i == first || i in s - {first};
      }
    }
  }

  lemma SparseIsBounded(times: seq<int>, limit: int, window: int)
    requires limit >= 1 && Sparse(times, limit, window)
    ensures Bounded(times, limit, window)
  {
    forall lo ensures AtMost(times, lo, window, limit) {
      var s := Within(times, lo, lo + window);
      if s != {} {
        var m := Largest(s);
        SubsetSize(s - {m}, Near(times, m, window));
      }
    }
  }

  lemma OvertakenStays(r: seq<int>, now: int, window: int, x: int)
    requires Overtaken(r, window, x)
    ensures Overtaken(r + [now], window, x)
  {
    var i, j :| 0 <= i < j < |r| && r[i] == x && r[j] > x + window;
    assert (r + [now])[i] == x && (r + [now])[j] == r[j];
  }

  lemma NewlyOvertaken(r: seq<int>, now: int, window: int, x: int)
    requires x in r && x < now - window
    ensures Overtaken(r + [now], window, x)
  {
    var i :| 0 <= i < |r| && r[i] == x;
    assert (r + [now])[i] == x && (r + [now])[|r|] == now;
  }

  /** Expiry at a new reading keeps track of what leaves. */
  lemma TracksExpire(r: seq<int>, times: seq<int>, kept: seq<int>, window: int, now: int)
    requires Tracks(r, times, kept, window)
    ensures Tracks(r + [now], times, Expire(kept, now - window), window)
  {
    var rest := Expire(kept, now - window);
    ExpireIsSuffix(kept, now - window);
    forall q | 0 <= q < |times| - |rest| ensures Overtaken(r + [now], window, times[q]) {
      if q < |times| - |kept| {
        OvertakenStays(r, now, window, times[q]);
      } else {
        assert times[q] == kept[q - (|times| - |kept|)];
        NewlyOvertaken(r, now, window, times[q]);
      }
    }
  }

  /** What was overtaken is out of reach of the latest reading, unless the clock jumped back. */
  lemma OvertakenIsFar(r: seq<int>, now: int, window: int, x: int)
    requires window >= 0 && !JumpsBack(r + [now], window) && Overtaken(r + [now], window, x)
    ensures !(now - window <= x <= now + window)
  {
    var all := r + [now];
    var i, j :| 0 <= i < j < |all| && all[i] == x && all[j] > x + window;
    assert j < |r| ==> !IsJump(all, window, i, j, |r|);
  }

  lemma TracksAllow(r: seq<int>, times: seq<int>, rest: seq<int>, limit: int, window: int, now: int)
    requires Tracks(r + [now], times, rest, window) && |rest| < limit && window >= 0
    requires !JumpsBack(r + [now], window) && Sparse(times, limit, window)
    ensures Tracks(r + [now], times + [now], rest + [now], window) && Sparse(times + [now], limit, window)
  {
    var more := times + [now];
    assert (r + [now])[|r|] == now;
    forall m: nat | m < |more| ensures |Near(more, m, window)| < limit {
      if m < |times| {
        assert Near(more, m, window) == Near(times, m, window);
      } else {
        forall q | q in Near(more, m, window) ensures |times| - |rest| <= q < |times| - |rest| + |rest| {
          if q < |times| - |rest| {
            assert Overtaken(r + [now], window, times[q]);
            OvertakenIsFar(r, now, window, times[q]);
          }
        }
        IntervalSize(Near(more, m, window), |times| - |rest|, |rest|);
      }
    }
  }

  lemma JumpPrefix(r: seq<int>, now: int, window: int)
    requires JumpsBack(r, window)
    ensures JumpsBack(r + [now], window)
  {
    var i, j, k :| IsJump(r, window, i, j, k);
    assert IsJump(r + [now], window, i, j, k);
  }

  /** Without a jump back the run keeps every allowed hit in reach of fewer than `limit` earlier ones. */
  lemma {:induction false} RunIsSparse(calls: seq<Call>, limit: int, window: int, key: string)
    requires limit >= 1 && window >= 0 && !JumpsBack(Readings(calls, key), window)
    ensures var times := AllowedTimes(calls, limit, window, key);
            && Tracks(Readings(calls, key), times, Bucket(Run(calls, limit, window), key), window)
            && Sparse(times, limit, window)
  {
    if calls != [] {
      var n := |calls| - 1;
      var front := calls[..n];
      assert Readings(calls, key)
             == if calls[n].key == key then Readings(front, key) + [calls[n].now] else Readings(front, key);
      hide Tracks, Sparse, JumpsBack, Run, AllowedTimes, Expire, Bucket, Readings;
      LastCall(calls, limit, window, key);
      if calls[n].key == key && JumpsBack(Readings(front, key), window) {
        JumpPrefix(Readings(front, key), calls[n].now, window);
      }
      RunIsSparse(front, limit, window, key);
      if calls[n].key == key {
        SparseStep(Readings(front, key), AllowedTimes(front, limit, window, key),
                   Bucket(Run(front, limit, window), key), limit, window, calls[n].now);
      }
    }
  }

  lemma SparseStep(r: seq<int>, times: seq<int>, kept: seq<int>, limit: int, window: int, now: int)
    requires Tracks(r, times, kept, window) && Sparse(times, limit, window)
    requires window >= 0 && !JumpsBack(r + [now], window)
    ensures var rest := Expire(kept, now - window);
            if |rest| < limit
            then Tracks(r + [now], times + [now], rest + [now], window) && Sparse(times + [now], limit, window)
            else Tracks(r + [now], times, rest, window) && Sparse(times, limit, window)
  {
    hide Tracks, Sparse, JumpsBack, Expire;
    TracksExpire(r, times, kept, window, now);
    if |Expire(kept, now - window)| < limit {
      TracksAllow(r, times, Expire(kept, now - window), limit, window, now);
    }
  }

  /** The deque of a limiter of one holds just the last allowed hit, and hits are spaced by the window. */
  ghost predicate Lone(times: seq<int>, kept: seq<int>, window: int) {
    && (times == [] ==> kept == [])
    && (times != [] ==> kept == [times[|times| - 1]])
    && (forall i, j :: 0 <= i < j < |times| ==> times[j] > times[i] + window)
  }

  lemma LoneAllow(times: seq<int>, kept: seq<int>, window: int, now: int)
    requires Lone(times, kept, window) && window >= 0 && Expire(kept, now - window) == []
    ensures Lone(times + [now], [now], window)
  {
    assert times != [] ==> times[|times| - 1] < now - window;
  }

  lemma LoneRefuse(times: seq<int>, kept: seq<int>, window: int, now: int)
    requires Lone(times, kept, window) && |Expire(kept, now - window)| >= 1
    ensures Expire(kept, now - window) == kept
  {
  }

  lemma {:induction false} RunOfOne(calls: seq<Call>, window: int, key: string)
    requires window >= 0
    ensures Lone(AllowedTimes(calls, 1, window, key), Bucket(Run(calls, 1, window), key), window)
  {
    hide Lone, Run, AllowedTimes, Expire, Bucket;
    if calls == [] {
      NothingLone(window, key);
    } else {
      var n := |calls| - 1;
      RunOfOne(calls[..n], window, key);
      LastCall(calls, 1, window, key);
      LoneStep(AllowedTimes(calls[..n], 1, window, key), Bucket(Run(calls[..n], 1, window), key), window, calls[n].now);
    }
  }

  lemma NothingLone(window: int, key: string)
    ensures Lone(AllowedTimes([], 1, window, key), Bucket(Run([], 1, window), key), window)
  {
  }

  lemma LoneStep(times: seq<int>, kept: seq<int>, window: int, now: int)
    requires Lone(times, kept, window) && window >= 0
    ensures var rest := Expire(kept, now - window);
            if |rest| < 1 then Lone(times + [now], rest + [now], window) else Lone(times, rest, window)
  {
    hide Lone, Expire;
    if |Expire(kept, now - window)| < 1 {
      LoneAllow(times, kept, window, now);
      assert Expire(kept, now - window) + [now] == [now];
    } else {
      LoneRefuse(times, kept, window, now);
    }
  }

  /** Rate guarantee under any clock: it holds for a limit of one always, and for every limit as long
      as the readings of the key do not jump back. */
  lemma NoJumpNoExcess(calls: seq<Call>, limit: int, window: int, key: string)
    requires limit >= 1 && window >= 0 && (limit == 1 || !JumpsBack(Readings(calls, key), window))
    ensures Bounded(AllowedTimes(calls, limit, window, key), limit, window)
  {
    var times := AllowedTimes(calls, limit, window, key);
    if limit == 1 {
      RunOfOne(calls, window, key);
      hide AllowedTimes, Run, Within;
      forall lo ensures AtMost(times, lo, window, limit) {
        SpacedTimes(times, 1, window, lo);
      }
    } else {
      hide AllowedTimes, Run, Within, Readings;
      RunIsSparse(calls, limit, window, key);
      SparseIsBounded(times, limit, window);
    }
  }

  // ----- Any number of calls at each reading -----

  /** The readings of a run that makes `counts[i]` calls at reading number i. */
  function Stretch(r: seq<int>, counts: seq<nat>): seq<int>
    requires |counts| == |r|
  {
    if r == [] then []
    else Stretch(r[..|r| - 1], counts[..|r| - 1]) + Repeat(r[|r| - 1], counts[|r| - 1])
  }

  function CallsAt(key: string, nows: seq<int>): seq<Call> {
    if nows == [] then [] else CallsAt(key, nows[..|nows| - 1]) + [Call(key, nows[|nows| - 1])]
  }

  lemma {:induction false} ReadingsOfCalls(key: string, nows: seq<int>)
    ensures Readings(CallsAt(key, nows), key) == nows
  {
    if nows != [] {
      var front := CallsAt(key, nows[..|nows| - 1]);
      ReadingsOfCalls(key, nows[..|nows| - 1]);
      assert (front + [Call(key, nows[|nows| - 1])])[..|front|] == front;
    }
  }

  /** The reading at which call number `p` is made. */
  function Source(r: seq<int>, counts: seq<nat>, p: nat): (i: nat)
    requires |counts| == |r| && p < |Stretch(r, counts)|
    ensures i < |r|
  {
    var n := |r| - 1;
    if p < |Stretch(r[..n], counts[..n])| then Source(r[..n], counts[..n], p) else n
  }

  lemma {:induction false} SourceIs(r: seq<int>, counts: seq<nat>, p: nat, q: nat)
    requires |counts| == |r| && p <= q < |Stretch(r, counts)|
    ensures Stretch(r, counts)[p] == r[Source(r, counts, p)] && Stretch(r, counts)[q] == r[Source(r, counts, q)]
    ensures Source(r, counts, p) <= Source(r, counts, q)
  {
    var n := |r| - 1;
    RepeatIs(r[n], counts[n]);
    if q < |Stretch(r[..n], counts[..n])| {
      SourceIs(r[..n], counts[..n], p, q);
    } else if p < |Stretch(r[..n], counts[..n])| {
      SourceIs(r[..n], counts[..n], p, p);
    }
  }

  lemma StretchJumps(r: seq<int>, counts: seq<nat>, window: int)
    requires |counts| == |r| && window >= 0 && JumpsBack(Stretch(r, counts), window)
    ensures JumpsBack(r, window)
  {
    var all := Stretch(r, counts);
    var i, j, k :| IsJump(all, window, i, j, k);
    SourceIs(r, counts, i, j);
    SourceIs(r, counts, j, k);
    assert IsJump(r, window, Source(r, counts, i), Source(r, counts, j), Source(r, counts, k));
  }

  /** `limit` calls at reading i, one at j and one at k. */
  function JumpCounts(n: nat, limit: nat, i: int, j: int, k: int): (counts: seq<nat>)
    ensures |counts| == n
    ensures forall m :: 0 <= m < n ==> counts[m] == if m == i then limit else if m == j || m == k then 1 else 0
  {
    seq(n, m => if m == i then limit else if m == j || m == k then 1 else 0)
  }

  /** The first `n` readings of such a run. */
  function JumpPath(r: seq<int>, limit: nat, i: nat, j: nat, k: nat, n: nat): seq<int>
    requires i < j < k < |r|
  {
    if n <= i then []
    else if n <= j then Repeat(r[i], limit)
    else if n <= k then Repeat(r[i], limit) + [r[j]]
    else Repeat(r[i], limit) + [r[j]] + [r[k]]
  }

  lemma PathStep(r: seq<int>, limit: nat, i: nat, j: nat, k: nat, n: nat)
    requires i < j < k < |r| && n < |r|
    ensures JumpPath(r, limit, i, j, k, n + 1)
            == JumpPath(r, limit, i, j, k, n)
               + Repeat(r[n], if n == i then limit else if n == j || n == k then 1 else 0)
  {
    OneOrNone(r[n]);
    hide Repeat;
    var path := JumpPath(r, limit, i, j, k, n);
    assert path + [] == path && [] + Repeat(r[i], limit) == Repeat(r[i], limit);
  }

  lemma {:induction false} JumpStretch(r: seq<int>, limit: nat, i: nat, j: nat, k: nat, n: nat)
    requires i < j < k < |r| && n <= |r|
    ensures Stretch(r[..n], JumpCounts(|r|, limit, i, j, k)[..n]) == JumpPath(r, limit, i, j, k, n)
  {
    if n > 0 {
      hide Repeat, Stretch, JumpPath, JumpCounts;
      StretchTo(r, JumpCounts(|r|, limit, i, j, k), n - 1);
      JumpStretch(r, limit, i, j, k, n - 1);
      PathStep(r, limit, i, j, k, n - 1);
    }
  }

  lemma StretchTo(r: seq<int>, counts: seq<nat>, n: nat)
    requires |counts| == |r| && n < |r|
    ensures Stretch(r[..n + 1], counts[..n + 1]) == Stretch(r[..n], counts[..n]) + Repeat(r[n], counts[n])
  {
    assert r[..n + 1][..n] == r[..n] && counts[..n + 1][..n] == counts[..n];
  }

  lemma OneOrNone(x: int)
    ensures Repeat(x, 0) == [] && Repeat(x, 1) == [x]
  {
  }

  lemma CallsSnoc(key: string, nows: seq<int>, now: int)
    ensures CallsAt(key, nows + [now]) == CallsAt(key, nows) + [Call(key, now)]
  {
    assert (nows + [now])[..|nows|] == nows;
  }

  /** The run of these calls has allowed exactly `times` and holds exactly `kept`. */
  ghost predicate Reaches(key: string, nows: seq<int>, limit: int, window: int, times: seq<int>, kept: seq<int>) {
    && AllowedTimes(CallsAt(key, nows), limit, window, key) == times
    && Bucket(Run(CallsAt(key, nows), limit, window), key) == kept
  }

  /** One more call of the key is allowed when fewer than `limit` hits are left after expiry. */
  lemma CallAllowed(key: string, nows: seq<int>, now: int, limit: int, window: int, times: seq<int>, kept: seq<int>,
                    rest: seq<int>)
    requires Reaches(key, nows, limit, window, times, kept) && Expire(kept, now - window) == rest && |rest| < limit
    ensures Reaches(key, nows + [now], limit, window, times + [now], rest + [now])
  {
    hide AllowedTimes, Run, Expire, CallsAt, Bucket;
    var calls := CallsAt(key, nows);
    CallsSnoc(key, nows, now);
    assert (calls + [Call(key, now)])[..|calls|] == calls;
    LastCall(calls + [Call(key, now)], limit, window, key);
  }

  lemma {:induction false} ExpireAll(x: int, n: nat, cutoff: int)
    ensures Expire(Repeat(x, n), cutoff) == if x < cutoff then [] else Repeat(x, n)
    decreases n
  {
    RepeatIs(x, n);
    if n > 0 && x < cutoff {
      RepeatIs(x, n - 1);
      assert Repeat(x, n)[1..] == Repeat(x, n - 1);
      ExpireAll(x, n - 1, cutoff);
    }
  }

  lemma NothingCalled(key: string, limit: int, window: int, x: int)
    ensures Reaches(key, Repeat(x, 0), limit, window, Repeat(x, 0), Repeat(x, 0))
  {
  }

  lemma {:induction false} FillUp(key: string, x: int, n: nat, limit: int, window: int)
    requires n <= limit && window >= 0
    ensures Reaches(key, Repeat(x, n), limit, window, Repeat(x, n), Repeat(x, n))
  {
    if n == 0 {
      NothingCalled(key, limit, window, x);
    } else {
      RepeatIs(x, n - 1);
      OneMore(x, n);
      hide Reaches, Expire, Repeat;
      var front := Repeat(x, n - 1);
      FillUp(key, x, n - 1, limit, window);
      ExpireAll(x, n - 1, x - window);
      CallAllowed(key, front, x, limit, window, front, front, front);
    }
  }

  lemma OneMore(x: int, n: nat)
    requires n > 0
    ensures Repeat(x, n) == Repeat(x, n - 1) + [x]
  {
  }

  lemma ExpireOne(x: int, cutoff: int)
    requires x >= cutoff
    ensures Expire([x], cutoff) == [x]
  {
  }

  /** A limiter filled at one reading, emptied at a later one, takes one more hit after the jump back. */
  lemma JumpReaches(key: string, a: int, b: int, c: int, limit: int, window: int)
    requires limit >= 2 && window >= 0 && b > a + window && a - window <= c <= a + window
    ensures Reaches(key, Repeat(a, limit) + [b] + [c], limit, window, Repeat(a, limit) + [b] + [c], [b] + [c])
  {
    hide Reaches, Expire, Repeat;
    var full := Repeat(a, limit);
    FillUp(key, a, limit, limit, window);
    ExpireAll(a, limit, b - window);
    CallAllowed(key, full, b, limit, window, full, full, []);
    assert [] + [b] == [b];
    ExpireOne(b, c - window);
    CallAllowed(key, full + [b], c, limit, window, full + [b], [b], [b]);
  }

  lemma JumpExceeds(key: string, a: int, b: int, c: int, limit: int, window: int)
    requires limit >= 2 && window >= 0 && b > a + window && a - window <= c <= a + window
    ensures !Bounded(AllowedTimes(CallsAt(key, Repeat(a, limit) + [b] + [c]), limit, window, key), limit, window)
  {
    hide AllowedTimes, Run, CallsAt, Bucket, Repeat, Bounded;
    JumpReaches(key, a, b, c, limit, window);
    RepeatIs(a, limit);
    ExcessIn(Repeat(a, limit) + [b] + [c], limit, window, if a < c then a else c);
  }

  /** A clock that jumps back: three hits fit into a window of ten although the limit is two. */
  lemma ClockMustNotStepBack()
    ensures var calls := CallsAt("k", [100, 100, 120, 105]);
            |Within(AllowedTimes(calls, 2, 10, "k"), 100, 110)| == 3
  {
    hide Expire, Within, Repeat, Run, AllowedTimes, CallsAt;
    ThreeOfFour();
    JumpReaches("k", 100, 120, 105, 2, 10);
  }

  lemma ThreeOfFour()
    ensures |Within([100, 100, 120, 105], 100, 110)| == 3
    ensures Repeat(100, 2) + [120] + [105] == [100, 100, 120, 105]
  {
    assert Within([100, 100, 120, 105], 100, 110) == {0, 1, 3};
    assert Repeat(100, 1) == [100] && Repeat(100, 2) == [100, 100];
  }

  function Below(n: nat): set<nat> {
    if n == 0 then {} else Below(n - 1) + {n - 1}
  }

  lemma {:induction false} BelowSize(n: nat)
    ensures |Below(n)| == n && forall i :: i in Below(n) <==> 0 <= i < n
  {
    if n > 0 { BelowSize(n - 1); }
  }

  lemma ExcessIn(times: seq<int>, limit: int, window: int, lo: int)
    requires limit >= 1 && |times| == limit + 2
    requires forall i :: 0 <= i < |times| && i != limit ==> lo <= times[i] <= lo + window
    ensures !Bounded(times, limit, window)
  {
    BelowSize(limit);
    SubsetSize(Below(limit) + {limit + 1}, Within(times, lo, lo + window));
    assert !AtMost(times, lo, window, limit);
  }

  /** Main result, exact: for the clock readings `r` of a key, every run with any number of calls at
      each reading keeps the rate bound if and only if the limit is one or the clock never runs past
      the window of a reading and then comes back within it. */
  lemma ClockExactly(r: seq<int>, limit: int, window: int, key: string)
    requires limit >= 1 && window >= 0
    ensures (forall counts: seq<nat> | |counts| == |r| ::
               Bounded(AllowedTimes(CallsAt(key, Stretch(r, counts)), limit, window, key), limit, window))
            <==> limit == 1 || !JumpsBack(r, window)
  {
    hide AllowedTimes, Bounded, CallsAt;
    if limit == 1 || !JumpsBack(r, window) {
      forall counts: seq<nat> | |counts| == |r|
        ensures Bounded(AllowedTimes(CallsAt(key, Stretch(r, counts)), limit, window, key), limit, window)
      {
        ReadingsOfCalls(key, Stretch(r, counts));
        if JumpsBack(Stretch(r, counts), window) {
          StretchJumps(r, counts, window);
        }
        NoJumpNoExcess(CallsAt(key, Stretch(r, counts)), limit, window, key);
      }
    } else {
      var i, j, k :| IsJump(r, window, i, j, k);
      var counts := JumpCounts(|r|, limit, i, j, k);
      JumpStretch(r, limit, i, j, k, |r|);
      assert r[..|r|] == r && counts[..|r|] == counts;
      JumpExceeds(key, r[i], r[j], r[k], limit, window);
      assert !Bounded(AllowedTimes(CallsAt(key, Stretch(r, counts)), limit, window, key), limit, window);
    }
  }
}
