/** The sliding-window limiter: what one bucket keeps and decides, proved over whole
    request histories, and the in-place code that computes it. Times are integers on a
    clock that does not run backwards. */
module RateLimit {
  import opened Common

  // ------------------------------------------------------------- one decision

  function Extend(s: seq<int>, x: int, keep: bool): seq<int> {
    if keep then s + [x] else s
  }

  /** The entries strictly after the cutoff, in order. */
  function Prune(log: seq<int>, cutoff: int): seq<int> {
    if log == [] then []
    else Extend(Prune(log[..|log| - 1], cutoff), log[|log| - 1], log[|log| - 1] > cutoff)
  }

  datatype Bucket = Bucket(log: seq<int>, limit: int, window: int)

  function Admits(b: Bucket, now: int): bool {
    |Prune(b.log, now - b.window)| < b.limit
  }

  function Touched(b: Bucket, now: int): Bucket {
    b.(log := Extend(Prune(b.log, now - b.window), now, Admits(b, now)))
  }

  // -------------------------------------------------------------- whole runs

  function RunBucket(limit: int, window: int, times: seq<int>): (b: Bucket)
    ensures b.limit == limit && b.window == window
  {
    if times == [] then Bucket([], limit, window)
    else Touched(RunBucket(limit, window, times[..|times| - 1]), times[|times| - 1])
  }

  /** Whether request `i` of a run is let through. */
  function Accepted(limit: int, window: int, times: seq<int>, i: nat): bool
    requires i < |times|
  {
    Admits(RunBucket(limit, window, times[..i]), times[i])
  }

  /** All accepted times of a run, none ever forgotten. */
  function History(limit: int, window: int, times: seq<int>): seq<int> {
    if times == [] then []
    else
      var n := |times| - 1;
      Extend(History(limit, window, times[..n]), times[n], Accepted(limit, window, times, n))
  }

  ghost predicate Nondecreasing(times: seq<int>) {
    forall i, j :: 0 <= i < j < |times| ==> times[i] <= times[j]
  }

  lemma PruneSnoc(log: seq<int>, t: int, cutoff: int)
    ensures Prune(log + [t], cutoff) == Extend(Prune(log, cutoff), t, t > cutoff)
  {
    assert (log + [t])[..|log|] == log;
  }

  lemma {:induction false} PruneTwice(log: seq<int>, c: int, c': int)
    requires c <= c'
    ensures Prune(Prune(log, c), c') == Prune(log, c')
  {
    if log != [] {
      var n := |log| - 1;
      PruneTwice(log[..n], c, c');
      PruneSnoc(Prune(log[..n], c), log[n], c');
    }
  }

  /** The last request of a run. */
  lemma RunLast(limit: int, window: int, times: seq<int>)
    requires times != []
    ensures var init, now := times[..|times| - 1], times[|times| - 1];
            var b := RunBucket(limit, window, init);
            && RunBucket(limit, window, times) == Touched(b, now)
            && History(limit, window, times) == Extend(History(limit, window, init), now, Admits(b, now))
  {
  }

  /** List and history agree on recent entries before a request, so they do after it. */
  lemma TouchedPruned(b: Bucket, history: seq<int>, now: int, cutoff: int)
    requires now - b.window <= cutoff && Prune(b.log, cutoff) == Prune(history, cutoff)
    ensures Prune(Touched(b, now).log, cutoff) == Prune(Extend(history, now, Admits(b, now)), cutoff)
  {
    var kept := Prune(b.log, now - b.window);
    PruneTwice(b.log, now - b.window, cutoff);
    if Admits(b, now) {
      PruneSnoc(kept, now, cutoff);
      PruneSnoc(history, now, cutoff);
    }
  }

  /** Forgetting is exact: at every later cutoff the compacted list and the full history
      have the same recent entries, in the same order. */
  lemma {:induction false} LogExact(limit: int, window: int, times: seq<int>, t: int)
    requires Nondecreasing(times) && (times != [] ==> times[|times| - 1] <= t)
    ensures Prune(RunBucket(limit, window, times).log, t - window)
            == Prune(History(limit, window, times), t - window)
    decreases |times|
  {
    if times != [] {
      var init, now := times[..|times| - 1], times[|times| - 1];
      LogExact(limit, window, init, t);
      RunLast(limit, window, times);
      TouchedPruned(RunBucket(limit, window, init), History(limit, window, init), now, t - window);
    }
  }

  /** A request is refused exactly when `limit` accepted requests lie in its window. */
  lemma DecisionExact(limit: int, window: int, times: seq<int>, i: nat)
    requires Nondecreasing(times) && i < |times|
    ensures Accepted(limit, window, times, i) <==>
            |Prune(History(limit, window, times[..i]), times[i] - window)| < limit
  {
    LogExact(limit, window, times[..i], times[i]);
  }

  lemma StoredIsRecent(limit: int, window: int, times: seq<int>)
    requires window > 0 && times != []
    ensures var log := RunBucket(limit, window, times).log;
            Prune(log, times[|times| - 1] - window) == log
  {
    RunLast(limit, window, times);
    var before := RunBucket(limit, window, times[..|times| - 1]);
    assert RunBucket(limit, window, times) == Touched(before, times[|times| - 1]);
    PruneTouched(before, times[|times| - 1]);
  }

  /** With a positive window the stored list is the history filtered to the window of
      the last request. */
  lemma StoredExact(limit: int, window: int, times: seq<int>)
    requires Nondecreasing(times) && window > 0 && times != []
    ensures RunBucket(limit, window, times).log
            == Prune(History(limit, window, times), times[|times| - 1] - window)
  {
    StoredIsRecent(limit, window, times);
    LogExact(limit, window, times, times[|times| - 1]);
  }

  /** What a request leaves in the list lies in its own window. */
  lemma PruneTouched(b: Bucket, now: int)
    requires b.window > 0
    ensures Prune(Touched(b, now).log, now - b.window) == Touched(b, now).log
  {
    var kept := Prune(b.log, now - b.window);
    PruneTwice(b.log, now - b.window, now - b.window);
    PruneSnoc(kept, now, now - b.window);
  }

  // ------------------------------------------------------------- window bound

  /** How many entries lie in [lo, hi). */
  function CountIn(s: seq<int>, lo: int, hi: int): nat {
    if s == [] then 0
    else CountIn(s[..|s| - 1], lo, hi) + if lo <= s[|s| - 1] < hi then 1 else 0
  }

  lemma {:induction false} CountInPruned(s: seq<int>, lo: int, hi: int, cutoff: int)
    requires cutoff < lo
    ensures CountIn(s, lo, hi) <= |Prune(s, cutoff)|
  {
    if s != [] {
      CountInPruned(s[..|s| - 1], lo, hi, cutoff);
    }
  }

  lemma {:induction false} CountInSplit(s: seq<int>, lo: int, mid: int, hi: int)
    requires lo <= mid <= hi
    ensures CountIn(s, lo, hi) == CountIn(s, lo, mid) + CountIn(s, mid, hi)
  {
    if s != [] {
      CountInSplit(s[..|s| - 1], lo, mid, hi);
    }
  }

  lemma CountInSnoc(s: seq<int>, x: int, lo: int, hi: int)
    ensures CountIn(s + [x], lo, hi) == CountIn(s, lo, hi) + if lo <= x < hi then 1 else 0
  {
    assert (s + [x])[..|s|] == s;
  }

  /** One request keeps a window-long interval within the limit. */
  lemma OneWindowStep(b: Bucket, history: seq<int>, now: int, t: int)
    requires b.window > 0 && Prune(b.log, now - b.window) == Prune(history, now - b.window)
    requires CountIn(history, t, t + b.window) <= b.limit
    ensures CountIn(Extend(history, now, Admits(b, now)), t, t + b.window) <= b.limit
  {
    if Admits(b, now) {
      CountInSnoc(history, now, t, t + b.window);
      if t <= now < t + b.window {
        CountInPruned(history, t, t + b.window, now - b.window);
      }
    }
  }

  lemma {:induction false} OneWindowBound(limit: nat, window: int, times: seq<int>, t: int)
    requires Nondecreasing(times) && window > 0
    ensures CountIn(History(limit, window, times), t, t + window) <= limit
    decreases |times|
  {
    if times != [] {
      var init, now := times[..|times| - 1], times[|times| - 1];
      OneWindowBound(limit, window, init, t);
      LogExact(limit, window, init, now);
      RunLast(limit, window, times);
      OneWindowStep(RunBucket(limit, window, init), History(limit, window, init), now, t);
    }
  }

  lemma OneMore(n: nat, k: nat)
    requires k > 0
    ensures k * n == (k - 1) * n + n && (k - 1) * n >= 0
  {
  }

  lemma OneMoreWindow(history: seq<int>, t: int, mid: int, end: int, bound: int, limit: int)
    requires t <= mid <= end && CountIn(history, t, mid) <= bound && CountIn(history, mid, end) <= limit
    ensures CountIn(history, t, end) <= bound + limit
  {
    CountInSplit(history, t, mid, end);
  }

  /** Any half-open interval k windows long holds at most k times `limit` accepts. */
  lemma {:induction false} WindowBound(limit: nat, window: int, times: seq<int>, t: int, k: nat)
    requires Nondecreasing(times) && window > 0
    ensures CountIn(History(limit, window, times), t, t + k * window) <= k * limit
    decreases k
  {
    var history := History(limit, window, times);
    if k == 0 {
      EmptyInterval(history, t);
    } else {
      var mid := t + (k - 1) * window;
      WindowBound(limit, window, times, t, k - 1);
      OneWindowBound(limit, window, times, mid);
      OneMore(window, k);
      OneMore(limit, k);
      OneMoreWindow(history, t, mid, mid + window, (k - 1) * limit, limit);
    }
  }

  lemma {:induction false} EmptyInterval(s: seq<int>, t: int)
    ensures CountIn(s, t, t) == 0
  {
    if s != [] {
      EmptyInterval(s[..|s| - 1], t);
    }
  }

  // --------------------------------------------------------- greedy optimality

  /** How many of the first `n` requests a selection takes. */
  function Picks(sel: seq<bool>, n: nat): nat
    requires n <= |sel|
  {
    if n == 0 then 0 else Picks(sel, n - 1) + if sel[n - 1] then 1 else 0
  }

  /** How many of the first `n` requests it takes after the cutoff. */
  function RecentPicks(times: seq<int>, sel: seq<bool>, n: nat, cutoff: int): nat
    requires n <= |sel| == |times|
  {
    if n == 0 then 0
    else RecentPicks(times, sel, n - 1, cutoff) + if sel[n - 1] && times[n - 1] > cutoff then 1 else 0
  }

  /** At most `limit` requests taken in the window ending at any request taken. */
  ghost predicate Feasible(limit: int, window: int, times: seq<int>, sel: seq<bool>) {
    |sel| == |times| &&
    forall i :: 0 <= i < |sel| && sel[i] ==> RecentPicks(times, sel, i + 1, times[i] - window) <= limit
  }

  /** How many of the first `n` requests it takes in [lo, hi). */
  function PicksIn(times: seq<int>, sel: seq<bool>, n: nat, lo: int, hi: int): nat
    requires n <= |sel| == |times|
  {
    if n == 0 then 0
    else PicksIn(times, sel, n - 1, lo, hi) + if sel[n - 1] && lo <= times[n - 1] < hi then 1 else 0
  }

  /** How many requests it takes in the half-open window that begins at t. */
  function InWindow(times: seq<int>, sel: seq<bool>, window: int, t: int): nat
    requires |sel| == |times|
  {
    PicksIn(times, sel, |sel|, t, t + window)
  }

  lemma {:induction false} PicksInAfter(times: seq<int>, sel: seq<bool>, n: nat, lo: int, hi: int, cutoff: int)
    requires n <= |sel| == |times| && cutoff < lo
    ensures PicksIn(times, sel, n, lo, hi) <= RecentPicks(times, sel, n, cutoff)
  {
    if n > 0 {
      PicksInAfter(times, sel, n - 1, lo, hi, cutoff);
    }
  }

  lemma {:induction false} AfterPicksIn(times: seq<int>, sel: seq<bool>, m: nat, n: nat, cutoff: int, hi: int)
    requires m <= n <= |sel| == |times| && forall j :: 0 <= j < m ==> times[j] < hi
    ensures RecentPicks(times, sel, m, cutoff) <= PicksIn(times, sel, n, cutoff + 1, hi)
    decreases n
  {
    if m < n {
      AfterPicksIn(times, sel, m, n - 1, cutoff, hi);
    } else if m > 0 {
      AfterPicksIn(times, sel, m - 1, n - 1, cutoff, hi);
    }
  }

  lemma {:induction false} FeasibleBoundsWindow(limit: nat, window: int, times: seq<int>, sel: seq<bool>,
                                                n: nat, t: int)
    requires Feasible(limit, window, times, sel) && n <= |sel|
    ensures PicksIn(times, sel, n, t, t + window) <= limit
  {
    if n > 0 {
      var now := times[n - 1];
      if sel[n - 1] && t <= now < t + window {
        PicksInAfter(times, sel, n, t, t + window, now - window);
      } else {
        FeasibleBoundsWindow(limit, window, times, sel, n - 1, t);
      }
    }
  }

  /** Bounding the window that ends at each request taken bounds every window: no
      half-open interval one window long holds more than `limit` requests taken. */
  lemma FeasibleIffEveryWindow(limit: nat, window: int, times: seq<int>, sel: seq<bool>)
    requires Nondecreasing(times) && |sel| == |times|
    ensures Feasible(limit, window, times, sel) <==>
            forall t :: InWindow(times, sel, window, t) <= limit
  {
    if Feasible(limit, window, times, sel) {
      forall t
        ensures InWindow(times, sel, window, t) <= limit
      {
        FeasibleBoundsWindow(limit, window, times, sel, |sel|, t);
      }
    } else {
      var i :| 0 <= i < |sel| && sel[i] && RecentPicks(times, sel, i + 1, times[i] - window) > limit;
      var t := times[i] - window + 1;
      AfterPicksIn(times, sel, i + 1, |sel|, times[i] - window, t + window);
      assert InWindow(times, sel, window, t) > limit;
    }
  }

  /** The bucket's own selection. */
  function Greedy(limit: int, window: int, times: seq<int>): (sel: seq<bool>)
    ensures |sel| == |times|
    ensures forall i :: 0 <= i < |times| ==> sel[i] == Accepted(limit, window, times, i)
  {
    seq(|times|, i requires 0 <= i < |times| => Accepted(limit, window, times, i))
  }

  lemma HistoryGrows(history: seq<int>, t: int, cutoff: int, accepted: bool)
    ensures |Prune(Extend(history, t, accepted), cutoff)|
            == |Prune(history, cutoff)| + if accepted && t > cutoff then 1 else 0
  {
    if accepted {
      PruneSnoc(history, t, cutoff);
    }
  }

  lemma PrefixLast(limit: int, window: int, times: seq<int>, n: nat)
    requires 0 < n <= |times|
    ensures History(limit, window, times[..n])
            == Extend(History(limit, window, times[..n - 1]), times[n - 1], Accepted(limit, window, times, n - 1))
  {
    var upTo := times[..n];
    assert upTo[..n - 1] == times[..n - 1];
  }

  /** Index form of the pruned history. */
  lemma {:induction false} RecentIsPruned(limit: int, window: int, times: seq<int>, n: nat, cutoff: int)
    requires n <= |times|
    ensures RecentPicks(times, Greedy(limit, window, times), n, cutoff)
            == |Prune(History(limit, window, times[..n]), cutoff)|
    decreases n
  {
    if n > 0 {
      RecentIsPruned(limit, window, times, n - 1, cutoff);
      PrefixLast(limit, window, times, n);
      HistoryGrows(History(limit, window, times[..n - 1]), times[n - 1], cutoff, Accepted(limit, window, times, n - 1));
    }
  }

  /** With times nondecreasing, "after the cutoff" is "from some index on". */
  lemma {:induction false} RecentIsSuffix(times: seq<int>, sel: seq<bool>, n: nat, cutoff: int) returns (p: nat)
    requires Nondecreasing(times) && n <= |sel| == |times|
    ensures p <= n
    ensures forall j :: 0 <= j < n ==> (times[j] > cutoff <==> j >= p)
    decreases n
  {
    if n == 0 || times[n - 1] <= cutoff {
      p := n;
    } else {
      p := RecentIsSuffix(times, sel, n - 1, cutoff);
    }
  }

  lemma {:induction false} RecentCount(times: seq<int>, sel: seq<bool>, p: nat, n: nat, cutoff: int)
    requires p <= n <= |sel| == |times|
    requires forall j :: 0 <= j < n ==> (times[j] > cutoff <==> j >= p)
    ensures RecentPicks(times, sel, n, cutoff) == Picks(sel, n) - Picks(sel, p)
    decreases n
  {
    if n > p {
      RecentCount(times, sel, p, n - 1, cutoff);
    } else if n > 0 {
      NoneRecent(times, sel, n, cutoff);
    }
  }

  lemma {:induction false} NoneRecent(times: seq<int>, sel: seq<bool>, n: nat, cutoff: int)
    requires n <= |sel| == |times|
    requires forall j :: 0 <= j < n ==> times[j] <= cutoff
    ensures RecentPicks(times, sel, n, cutoff) == 0
  {
    if n > 0 {
      NoneRecent(times, sel, n - 1, cutoff);
    }
  }

  /** The bucket's selection respects the limit itself. */
  lemma GreedyFeasible(limit: int, window: int, times: seq<int>)
    requires Nondecreasing(times)
    ensures Feasible(limit, window, times, Greedy(limit, window, times))
  {
    var sel := Greedy(limit, window, times);
    forall i | 0 <= i < |sel| && sel[i]
      ensures RecentPicks(times, sel, i + 1, times[i] - window) <= limit
    {
      DecisionExact(limit, window, times, i);
      RecentIsPruned(limit, window, times, i, times[i] - window);
    }
  }

  lemma {:induction false} DominatesInWindow(limit: int, window: int, times: seq<int>, sel: seq<bool>, n: nat)
    requires Nondecreasing(times) && window > 0 && Feasible(limit, window, times, sel) && n <= |times|
    ensures Picks(sel, n) <= Picks(Greedy(limit, window, times), n)
    decreases n
  {
    if n > 0 {
      var greedy, i := Greedy(limit, window, times), n - 1;
      DominatesInWindow(limit, window, times, sel, i);
      if !greedy[i] && sel[i] {
        var cutoff := times[i] - window;
        DecisionExact(limit, window, times, i);
        RecentIsPruned(limit, window, times, i, cutoff);
        assert RecentPicks(times, greedy, i, cutoff) >= limit;
        assert RecentPicks(times, sel, n, cutoff) <= limit;
        var p := RecentIsSuffix(times, sel, n, cutoff);
        RecentCount(times, sel, p, n, cutoff);
        RecentCount(times, greedy, p, i, cutoff);
        DominatesInWindow(limit, window, times, sel, p);
      }
    }
  }

  /** With an empty window nothing is ever recent, so only the limit's sign decides. */
  lemma EmptyWindowAccepts(limit: int, window: int, times: seq<int>, i: nat)
    requires Nondecreasing(times) && window <= 0 && i < |times|
    ensures Accepted(limit, window, times, i) <==> limit > 0
  {
    var cutoff := times[i] - window;
    DecisionExact(limit, window, times, i);
    RecentIsPruned(limit, window, times, i, cutoff);
    NoneRecent(times, Greedy(limit, window, times), i, cutoff);
  }

  lemma NegativeTakesNone(limit: int, window: int, times: seq<int>, sel: seq<bool>, i: nat)
    requires limit < 0 && Feasible(limit, window, times, sel) && i < |sel|
    ensures !sel[i]
  {
  }

  lemma {:induction false} DominatesWithoutWindow(limit: int, window: int, times: seq<int>, sel: seq<bool>, n: nat)
    requires Nondecreasing(times) && window <= 0 && limit != 0
    requires Feasible(limit, window, times, sel) && n <= |times|
    ensures Picks(sel, n) <= Picks(Greedy(limit, window, times), n)
    decreases n
  {
    if n > 0 {
      DominatesWithoutWindow(limit, window, times, sel, n - 1);
      EmptyWindowAccepts(limit, window, times, n - 1);
      if limit < 0 {
        NegativeTakesNone(limit, window, times, sel, n - 1);
      }
    }
  }

  /** Greedy optimality: on every prefix the bucket lets through at least as many
      requests as any other selection that respects the limit. When it refuses a request
      it has already taken `limit` since the window's first index `p`, the other
      selection at most that many, and up to `p` the bucket was not behind. */
  lemma GreedyDominates(limit: int, window: int, times: seq<int>, sel: seq<bool>, n: nat)
    requires Nondecreasing(times) && (window > 0 || limit != 0)
    requires Feasible(limit, window, times, sel) && n <= |times|
    ensures Picks(sel, n) <= Picks(Greedy(limit, window, times), n)
  {
    if window > 0 {
      DominatesInWindow(limit, window, times, sel, n);
    } else {
      DominatesWithoutWindow(limit, window, times, sel, n);
    }
  }

  /** With an empty window and a limit of zero every selection respects the limit, and the
      bucket takes nothing. */
  lemma EmptyWindow(window: int)
    requires window <= 0
    ensures Feasible(0, window, [0], [true]) && Picks([true], 1) > Picks(Greedy(0, window, [0]), 1)
  {
    NoneRecent([0], [true], 1, -window);
    assert Picks([true], 0) == 0;
    assert !Accepted(0, window, [0], 0);
    assert Picks(Greedy(0, window, [0]), 0) == 0;
  }

  /** Greedy is optimal for exactly the other limits and windows. */
  lemma GreedyOptimalIff(limit: int, window: int)
    ensures (forall times, sel :: Nondecreasing(times) && Feasible(limit, window, times, sel) ==>
               Picks(sel, |sel|) <= Picks(Greedy(limit, window, times), |sel|))
            <==> window > 0 || limit != 0
  {
    if window > 0 || limit != 0 {
      forall times, sel | Nondecreasing(times) && Feasible(limit, window, times, sel)
        ensures Picks(sel, |sel|) <= Picks(Greedy(limit, window, times), |sel|)
      {
        GreedyDominates(limit, window, times, sel, |times|);
      }
    } else {
      EmptyWindow(window);
      assert Nondecreasing([0]);
    }
  }

  /** The least prefix with `k` picks: one past the index of the k-th request taken. */
  function KthEnd(sel: seq<bool>, k: nat, n: nat): (r: nat)
    requires n <= |sel| && Picks(sel, n) >= k
    ensures r <= n && Picks(sel, r) >= k && forall m :: 0 <= m < r ==> Picks(sel, m) < k
    decreases n
  {
    PicksMonotone(sel);
    if n > 0 && Picks(sel, n - 1) >= k then KthEnd(sel, k, n - 1) else n
  }

  lemma PicksMonotone(sel: seq<bool>)
    ensures forall m, n :: 0 <= m <= n <= |sel| ==> Picks(sel, m) <= Picks(sel, n)
  {
    forall m, n | 0 <= m <= n <= |sel|
      ensures Picks(sel, m) <= Picks(sel, n)
    {
      PicksBetween(sel, m, n);
    }
  }

  lemma {:induction false} PicksBetween(sel: seq<bool>, m: nat, n: nat)
    requires m <= n <= |sel|
    ensures Picks(sel, m) <= Picks(sel, n)
    decreases n
  {
    if m < n {
      PicksBetween(sel, m, n - 1);
    }
  }

  /** The k-th request the bucket takes comes no later than any other selection's k-th. */
  lemma KthNoLater(limit: int, window: int, times: seq<int>, sel: seq<bool>, k: nat)
    requires Nondecreasing(times) && (window > 0 || limit != 0) && Feasible(limit, window, times, sel)
    requires Picks(sel, |sel|) >= k
    ensures var greedy := Greedy(limit, window, times);
            Picks(greedy, |greedy|) >= k && KthEnd(greedy, k, |greedy|) <= KthEnd(sel, k, |sel|)
  {
    var end := KthEnd(sel, k, |sel|);
    GreedyDominates(limit, window, times, sel, |times|);
    GreedyDominates(limit, window, times, sel, end);
  }

  // ------------------------------------------------------------ many buckets

  type Buckets = map<string, Bucket>

  datatype Request = Request(key: string, limit: int, window: int, now: int)

  /** getOrCreate: the first request with a key fixes its limit and window. */
  function BucketFor(m: Buckets, key: string, limit: int, window: int): Bucket {
    if key in m then m[key] else Bucket([], limit, window)
  }

  function Serve(m: Buckets, r: Request): Buckets {
    m[r.key := Touched(BucketFor(m, r.key, r.limit, r.window), r.now)]
  }

  function RunLimiter(reqs: seq<Request>): Buckets {
    if reqs == [] then map[] else Serve(RunLimiter(reqs[..|reqs| - 1]), reqs[|reqs| - 1])
  }

  /** Whether request `i` of an interleaved run is let through. */
  function Served(reqs: seq<Request>, i: nat): bool
    requires i < |reqs|
  {
    var r := reqs[i];
    Admits(BucketFor(RunLimiter(reqs[..i]), r.key, r.limit, r.window), r.now)
  }

  /** The request times of one key. */
  function TimesOf(reqs: seq<Request>, key: string): seq<int> {
    if reqs == [] then []
    else
      var last := reqs[|reqs| - 1];
      Extend(TimesOf(reqs[..|reqs| - 1], key), last.now, last.key == key)
  }

  /** The first request of a key. */
  function FirstOf(reqs: seq<Request>, key: string): Option<Request> {
    if reqs == [] then None
    else
      var earlier := FirstOf(reqs[..|reqs| - 1], key);
      if earlier.None? && reqs[|reqs| - 1].key == key then Some(reqs[|reqs| - 1]) else earlier
  }

  /** A key's bucket is the bucket of that key's requests alone, with the limit and
      window of its first request. */
  ghost predicate Separate(reqs: seq<Request>, key: string, m: Buckets) {
    match FirstOf(reqs, key)
    case None => key !in m && TimesOf(reqs, key) == []
    case Some(first) => key in m && m[key] == RunBucket(first.limit, first.window, TimesOf(reqs, key))
  }

  lemma RunSnoc(limit: int, window: int, times: seq<int>, now: int)
    ensures RunBucket(limit, window, times + [now]) == Touched(RunBucket(limit, window, times), now)
  {
    assert (times + [now])[..|times|] == times;
  }

  lemma {:induction false} LimiterSeparates(reqs: seq<Request>, key: string)
    ensures Separate(reqs, key, RunLimiter(reqs))
  {
    if reqs != [] {
      var init, last := reqs[..|reqs| - 1], reqs[|reqs| - 1];
      LimiterSeparates(init, key);
      if last.key == key {
        var first := if FirstOf(init, key).Some? then FirstOf(init, key).value else last;
        RunSnoc(first.limit, first.window, TimesOf(init, key), last.now);
      }
    }
  }

  lemma {:induction false} PrefixOf(reqs: seq<Request>, key: string, n: nat)
    requires n <= |reqs|
    ensures TimesOf(reqs[..n], key) <= TimesOf(reqs, key)
    ensures FirstOf(reqs[..n], key).Some? ==> FirstOf(reqs, key) == FirstOf(reqs[..n], key)
    decreases |reqs|
  {
    if n == |reqs| {
      assert reqs[..n] == reqs;
    } else {
      PrefixOf(reqs[..|reqs| - 1], key, n);
      assert reqs[..|reqs| - 1][..n] == reqs[..n];
    }
  }

  /** Keys do not interfere: in any interleaving of requests for many keys, each request
      is decided as in the run of its own key alone. */
  lemma KeysIndependent(reqs: seq<Request>, i: nat)
    requires i < |reqs|
    ensures var key := reqs[i].key;
            var times, n := TimesOf(reqs, key), |TimesOf(reqs[..i], key)|;
            && FirstOf(reqs, key).Some? && n < |times| && times[n] == reqs[i].now
            && (Served(reqs, i) <==>
                Accepted(FirstOf(reqs, key).value.limit, FirstOf(reqs, key).value.window, times, n))
  {
    var key := reqs[i].key;
    var before, upTo := reqs[..i], reqs[..i + 1];
    assert upTo[..i] == before && upTo[i] == reqs[i];
    LimiterSeparates(before, key);
    PrefixOf(reqs, key, i + 1);
    assert TimesOf(upTo, key) == TimesOf(before, key) + [reqs[i].now];
    assert TimesOf(reqs, key)[..|TimesOf(before, key)|] == TimesOf(before, key);
  }

  // ------------------------------------------------------------ the code itself

  /** Compacts the first `len` entries in place: the kept ones overwrite the front of the
      very slice being read, and never catch up with the reader. */
  method Compact(a: array<int>, len: nat, cutoff: int) returns (kept: nat)
    requires len <= a.Length
    modifies a
    ensures kept <= len && a[..kept] == Prune(old(a[..len]), cutoff)
  {
    ghost var before := a[..len];
    kept := 0;
    var i := 0;
    while i < len
      invariant kept <= i <= len
      invariant forall j :: i <= j < len ==> a[j] == before[j]
      invariant a[..kept] == Prune(before[..i], cutoff)
    {
      var ts := a[i];
      PruneNext(before, i, cutoff);
      if ts > cutoff {
        a[kept] := ts;
        kept := kept + 1;
      }
      i := i + 1;
    }
    assert before[..i] == before;
  }

  lemma PruneNext(s: seq<int>, i: nat, cutoff: int)
    requires i < |s|
    ensures Prune(s[..i + 1], cutoff) == Extend(Prune(s[..i], cutoff), s[i], s[i] > cutoff)
  {
    assert s[..i + 1] == s[..i] + [s[i]];
    PruneSnoc(s[..i], s[i], cutoff);
  }

  /** rateLimitBucket: the slice is a backing array and a length. */
  class RateLimitBucket {
    const limit: int
    const window: int
    var timestamps: array<int>
    var len: nat

    ghost predicate Valid()
      reads this
    {
      len <= timestamps.Length
    }

    ghost function View(): Bucket
      requires Valid()
      reads this, timestamps
    {
      Bucket(timestamps[..len], limit, window)
    }

    constructor (limit: int, window: int)
      ensures Valid() && fresh(timestamps) && View() == Bucket([], limit, window)
    {
      this.limit, this.window := limit, window;
      timestamps, len := new int[0], 0;
    }

    /** append: reuses spare capacity, else moves to a larger array. */
    method Append(t: int)
      requires Valid()
      modifies this`len, this`timestamps, timestamps
      ensures Valid() && timestamps[..len] == old(timestamps[..len]) + [t]
      ensures timestamps == old(timestamps) || fresh(timestamps)
    {
      if len == timestamps.Length {
        var grown := new int[2 * len + 1];
        var i := 0;
        while i < len
          invariant 0 <= i <= len
          invariant grown[..i] == timestamps[..i]
          modifies grown
        {
          grown[i] := timestamps[i];
          i := i + 1;
        }
        timestamps := grown;
      }
      timestamps[len] := t;
      len := len + 1;
    }

    method Allow(now: int) returns (ok: bool)
      requires Valid()
      modifies this, timestamps
      ensures Valid() && (timestamps == old(timestamps) || fresh(timestamps))
      ensures ok == Admits(old(View()), now) && View() == Touched(old(View()), now)
    {
      len := Compact(timestamps, len, now - window);
      if len >= limit {
        return false;
      }
      Append(now);
      return true;
    }
  }

  /** rateLimiter: one bucket object per key, created on first use. */
  class RateLimiter {
    var buckets: map<string, RateLimitBucket>

    ghost function Arrays(): set<array<int>>
      reads this, buckets.Values
    {
      set key | key in buckets :: buckets[key].timestamps
    }

    /** Buckets of different keys share neither object nor backing array. */
    ghost predicate Valid()
      reads this, buckets.Values
    {
      && (forall key :: key in buckets ==> buckets[key].Valid())
      && (forall k, k' :: k in buckets && k' in buckets && k != k' ==>
            buckets[k] != buckets[k'] && buckets[k].timestamps != buckets[k'].timestamps)
    }

    ghost function View(): Buckets
      requires Valid()
      reads this, buckets.Values, Arrays()
    {
      map key | key in buckets :: buckets[key].View()
    }

    constructor ()
      ensures Valid() && View() == map[]
    {
      buckets := map[];
    }

    /** Returns the key's bucket; a new one is empty and leaves the others alone. */
    method GetOrCreate(key: string, limit: int, window: int) returns (b: RateLimitBucket)
      requires Valid()
      modifies this
      ensures Valid() && key in buckets && b == buckets[key]
      ensures if key in old(buckets) then buckets == old(buckets)
              else fresh(b) && fresh(b.timestamps) && buckets == old(buckets)[key := b]
      ensures View() == old(View())[key := BucketFor(old(View()), key, limit, window)]
    {
      if key in buckets {
        return buckets[key];
      }
      b := new RateLimitBucket(limit, window);
      buckets := buckets[key := b];
    }

    /** One decision of one bucket; the others do not notice. */
    method Decide(key: string, b: RateLimitBucket, now: int) returns (ok: bool)
      requires Valid() && key in buckets && b == buckets[key]
      modifies b, b.timestamps
      ensures Valid()
      ensures ok == Admits(old(View())[key], now) && View() == old(View())[key := Touched(old(View())[key], now)]
    {
      ghost var before := View();
      ok := b.Allow(now);
      forall k | k in buckets && k != key
        ensures buckets[k].Valid() && buckets[k].timestamps == old(buckets[k].timestamps)
        ensures buckets[k].View() == before[k]
      {
      }
      OneUpdated(before, View(), key);
    }

    method Allow(key: string, limit: int, window: int, now: int) returns (ok: bool)
      requires Valid()
      modifies this, buckets.Values, Arrays()
      ensures Valid()
      ensures ok == Admits(BucketFor(old(View()), key, limit, window), now)
      ensures View() == Serve(old(View()), Request(key, limit, window, now))
    {
      ghost var before := View();
      var b := GetOrCreate(key, limit, window);
      OverwriteTwice(before, key, BucketFor(before, key, limit, window),
                     Touched(BucketFor(before, key, limit, window), now));
      assert key in old(buckets) ==> b in old(buckets.Values) && b.timestamps in old(Arrays());
      ok := Decide(key, b, now);
    }
  }

  lemma OneUpdated(m: Buckets, m': Buckets, key: string)
    requires key in m && m.Keys == m'.Keys && forall k :: k in m && k != key ==> m'[k] == m[k]
    ensures m' == m[key := m'[key]]
  {
  }

  lemma OverwriteTwice(m: Buckets, key: string, b: Bucket, b': Bucket)
    ensures m[key := b][key := b'] == m[key := b']
  {
  }
}
