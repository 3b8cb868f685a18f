/** The sliding-window rate limiter of internal/middleware/ratelimit.go. The clock is
    read under the mutex, so each request is one atomic step at an integer time. */
module RateLimit {
  datatype Config = Config(limit: int, window: int)

  // One request: the client's address and the time read under the lock.
  datatype Arrival = Arrival(client: string, at: int)

  type Log = map<string, seq<int>>

  // The entries strictly after the cutoff, in order.
  function Prune(ts: seq<int>, cutoff: int): (r: seq<int>)
    ensures |r| <= |ts|
  {
    if ts == [] then []
    else
      var last := ts[|ts| - 1];
      Prune(ts[..|ts| - 1], cutoff) + (if last > cutoff then [last] else [])
  }

  function Lookup(log: Log, client: string): seq<int> {
    if client in log then log[client] else []
  }

  predicate Admits(cfg: Config, past: seq<int>, now: int) {
    |Prune(past, now - cfg.window)| < cfg.limit
  }

  // The stored list after one request.
  function Record(cfg: Config, log: Log, a: Arrival): Log {
    var valid := Prune(Lookup(log, a.client), a.at - cfg.window);
    log[a.client := if |valid| < cfg.limit then valid + [a.at] else valid]
  }

  class RateLimiter {
    var requests: map<string, seq<int>>
    const cfg: Config

    constructor (limit: int, window: int)
      ensures cfg == Config(limit, window) && requests == map[]
    {
      requests := map[];
      cfg := Config(limit, window);
    }

    // The critical section of Limit; ok says whether the request is passed on.
    method Admit(ip: string, now: int) returns (ok: bool)
      modifies this
      ensures requests == Record(cfg, old(requests), Arrival(ip, now))
      ensures ok == Admits(cfg, Lookup(old(requests), ip), now)
    {
      var cutoff := now - cfg.window;
      var stored := if ip in requests then requests[ip] else [];
      var valid: seq<int> := [];
      for i := 0 to |stored|
        invariant valid == Prune(stored[..i], cutoff)
      {
        assert stored[..i + 1][..i] == stored[..i];
        if stored[i] > cutoff {
          valid := valid + [stored[i]];
        }
      }
      assert stored[..|stored|] == stored;
      if |valid| >= cfg.limit {
        requests := requests[ip := valid];
        return false;
      }
      valid := valid + [now];
      requests := requests[ip := valid];
      return true;
    }
  }

  // ---- Whole runs ----

  function Run(cfg: Config, arrivals: seq<Arrival>): Log {
    if arrivals == [] then map[]
    else Record(cfg, Run(cfg, arrivals[..|arrivals| - 1]), arrivals[|arrivals| - 1])
  }

  // Did the limiter pass on request i of the run?
  predicate Admitted(cfg: Config, arrivals: seq<Arrival>, i: nat)
    requires i < |arrivals|
  {
    Admits(cfg, Lookup(Run(cfg, arrivals[..i]), arrivals[i].client), arrivals[i].at)
  }

  ghost predicate Nondecreasing(arrivals: seq<Arrival>) {
    forall i, j :: 0 <= i <= j < |arrivals| ==> arrivals[i].at <= arrivals[j].at
  }

  // The reference limiter never forgets: it keeps every admission of the client and
  // decides on that full history.
  function FullHistory(cfg: Config, arrivals: seq<Arrival>, client: string): seq<int> {
    if arrivals == [] then []
    else
      var before := FullHistory(cfg, arrivals[..|arrivals| - 1], client);
      var a := arrivals[|arrivals| - 1];
      if a.client == client && Admits(cfg, before, a.at) then before + [a.at] else before
  }

  lemma {:induction false} PruneTwice(ts: seq<int>, low: int, high: int)
    requires low <= high
    ensures Prune(Prune(ts, low), high) == Prune(ts, high)
  {
    if ts != [] {
      var init, last := ts[..|ts| - 1], ts[|ts| - 1];
      PruneTwice(init, low, high);
      if last > low {
        PruneSnoc(Prune(init, low), last, high);
      } else {
        assert Prune(ts, low) == Prune(init, low);
      }
    }
  }

  lemma PruneSnoc(ts: seq<int>, t: int, cutoff: int)
    ensures Prune(ts + [t], cutoff) == Prune(ts, cutoff) + (if t > cutoff then [t] else [])
  {
    assert (ts + [t])[..|ts|] == ts;
  }

  // One request of the client: the pruned list and the full history stay in agreement
  // from the new cutoff on.
  lemma StepAgrees(cfg: Config, stored: seq<int>, full: seq<int>, now: int, cutoff: int)
    requires now - cfg.window <= cutoff
    requires Prune(stored, now - cfg.window) == Prune(full, now - cfg.window)
    ensures var valid := Prune(stored, now - cfg.window);
            var next := if |valid| < cfg.limit then valid + [now] else valid;
            var full' := if Admits(cfg, full, now) then full + [now] else full;
            Prune(next, cutoff) == Prune(full', cutoff)
  {
    var cut := now - cfg.window;
    PruneTwice(full, cut, cutoff);
    PruneSnoc(Prune(stored, cut), now, cutoff);
    PruneSnoc(full, now, cutoff);
  }

  // What the pruned list of a client still has in common with the full history.
  lemma {:induction false} PrunedLogAgrees(cfg: Config, arrivals: seq<Arrival>, client: string, cutoff: int)
    requires Nondecreasing(arrivals)
    requires arrivals != [] ==> arrivals[|arrivals| - 1].at - cfg.window <= cutoff
    ensures Prune(Lookup(Run(cfg, arrivals), client), cutoff)
         == Prune(FullHistory(cfg, arrivals, client), cutoff)
  {
    if arrivals != [] {
      var init, a := arrivals[..|arrivals| - 1], arrivals[|arrivals| - 1];
      assert init != [] ==> init[|init| - 1].at <= a.at;
      if a.client == client {
        PrunedLogAgrees(cfg, init, client, a.at - cfg.window);
        StepAgrees(cfg, Lookup(Run(cfg, init), client), FullHistory(cfg, init, client), a.at, cutoff);
      } else {
        PrunedLogAgrees(cfg, init, client, cutoff);
      }
    }
  }

  /** Pruning never changes a decision: in every run with a nondecreasing clock each
      request is answered as the limiter that forgets nothing would answer it. */
  lemma PruningUnobservable(cfg: Config, arrivals: seq<Arrival>, i: nat)
    requires Nondecreasing(arrivals) && i < |arrivals|
    ensures Admitted(cfg, arrivals, i)
        <==> Admits(cfg, FullHistory(cfg, arrivals[..i], arrivals[i].client), arrivals[i].at)
  {
    PrunedLogAgrees(cfg, arrivals[..i], arrivals[i].client, arrivals[i].at - cfg.window);
  }

  lemma RunSnoc(cfg: Config, init: seq<Arrival>, a: Arrival)
    ensures Run(cfg, init + [a]) == Record(cfg, Run(cfg, init), a)
    ensures FullHistory(cfg, init + [a], a.client)
         == var before := FullHistory(cfg, init, a.client);
            if Admits(cfg, before, a.at) then before + [a.at] else before
  {
    assert (init + [a])[..|init|] == init;
  }

  /** The stored list, exactly: right after a request of the client it is the full history
      restricted to that request's window. */
  lemma StoredIsRecentHistory(cfg: Config, init: seq<Arrival>, a: Arrival)
    requires Nondecreasing(init + [a]) && cfg.window > 0
    ensures Lookup(Run(cfg, init + [a]), a.client)
         == Prune(FullHistory(cfg, init + [a], a.client), a.at - cfg.window)
  {
    AgreesBefore(cfg, init, a);
    RunSnoc(cfg, init, a);
    hide *;
    StoredAfter(cfg, Run(cfg, init), FullHistory(cfg, init, a.client), a);
  }

  lemma StoredAfter(cfg: Config, log: Log, full: seq<int>, a: Arrival)
    requires cfg.window > 0
    requires Prune(Lookup(log, a.client), a.at - cfg.window) == Prune(full, a.at - cfg.window)
    ensures Lookup(Record(cfg, log, a), a.client)
         == Prune(if Admits(cfg, full, a.at) then full + [a.at] else full, a.at - cfg.window)
  {
    PruneSnoc(full, a.at, a.at - cfg.window);
  }

  /** With a window that is not positive the list is just the request itself, although it
      already lies outside the window. */
  lemma StoredWithoutWindow(cfg: Config, init: seq<Arrival>, a: Arrival)
    requires Nondecreasing(init + [a]) && cfg.window <= 0
    ensures Lookup(Run(cfg, init + [a]), a.client) == if cfg.limit > 0 then [a.at] else []
  {
    hide *;
    PrunedAway(cfg, init, a);
    RunSnoc(cfg, init, a);
    StoredAlone(cfg, Run(cfg, init), a);
  }

  lemma PrunedAway(cfg: Config, init: seq<Arrival>, a: Arrival)
    requires Nondecreasing(init + [a]) && cfg.window <= 0
    ensures Prune(Lookup(Run(cfg, init), a.client), a.at - cfg.window) == []
  {
    hide *;
    NondecreasingInit(init, a);
    AgreesBefore(cfg, init, a);
    NothingInFuture(cfg, init, a.client, a.at - cfg.window);
  }

  lemma StoredAlone(cfg: Config, log: Log, a: Arrival)
    requires Prune(Lookup(log, a.client), a.at - cfg.window) == []
    ensures Lookup(Record(cfg, log, a), a.client) == if cfg.limit > 0 then [a.at] else []
  {
  }

  lemma NondecreasingInit(init: seq<Arrival>, a: Arrival)
    requires Nondecreasing(init + [a])
    ensures Nondecreasing(init) && forall i :: 0 <= i < |init| ==> init[i].at <= a.at
  {
    var arrivals := init + [a];
    assert arrivals[|init|] == a;
    assert forall i :: 0 <= i < |init| ==> init[i] == arrivals[i];
  }

  lemma AgreesBefore(cfg: Config, init: seq<Arrival>, a: Arrival)
    requires Nondecreasing(init + [a])
    ensures Prune(Lookup(Run(cfg, init), a.client), a.at - cfg.window)
         == Prune(FullHistory(cfg, init, a.client), a.at - cfg.window)
  {
    hide *;
    NondecreasingInit(init, a);
    PrunedLogAgrees(cfg, init, a.client, a.at - cfg.window);
  }

  // A cutoff no earlier than every request prunes the whole history.
  lemma {:induction false} NothingInFuture(cfg: Config, arrivals: seq<Arrival>, client: string, cutoff: int)
    requires forall i :: 0 <= i < |arrivals| ==> arrivals[i].at <= cutoff
    ensures Prune(FullHistory(cfg, arrivals, client), cutoff) == []
  {
    if arrivals != [] {
      var init, a := arrivals[..|arrivals| - 1], arrivals[|arrivals| - 1];
      NothingInFuture(cfg, init, client, cutoff);
      PruneSnoc(FullHistory(cfg, init, client), a.at, cutoff);
    }
  }

  /** The stored lists never outgrow the limit, whatever the clock does. */
  lemma {:induction false} StoredBounded(cfg: Config, arrivals: seq<Arrival>, client: string)
    ensures |Lookup(Run(cfg, arrivals), client)| <= if cfg.limit > 0 then cfg.limit else 0
  {
    if arrivals != [] {
      StoredBounded(cfg, arrivals[..|arrivals| - 1], client);
    }
  }

  /** One client's requests never touch another client's list. */
  lemma OtherClientsUntouched(cfg: Config, log: Log, a: Arrival, other: string)
    requires other != a.client
    ensures other in Record(cfg, log, a) <==> other in log
    ensures Lookup(Record(cfg, log, a), other) == Lookup(log, other)
  {
  }

  // The admissions with x - window < t <= x.
  function InWindow(ts: seq<int>, x: int, window: int): seq<int> {
    if ts == [] then []
    else
      var last := ts[|ts| - 1];
      InWindow(ts[..|ts| - 1], x, window) + (if x - window < last <= x then [last] else [])
  }

  lemma {:induction false} InWindowAtMostPruned(ts: seq<int>, x: int, window: int, cutoff: int)
    requires cutoff <= x - window
    ensures |InWindow(ts, x, window)| <= |Prune(ts, cutoff)|
  {
    if ts != [] {
      InWindowAtMostPruned(ts[..|ts| - 1], x, window, cutoff);
    }
  }

  /** Window safety over whole runs: every half-open window of the configured length,
      wherever it ends, holds at most `limit` admissions of a client. */
  lemma {:induction false} WindowSafety(cfg: Config, arrivals: seq<Arrival>, client: string, x: int)
    requires Nondecreasing(arrivals)
    ensures |InWindow(FullHistory(cfg, arrivals, client), x, cfg.window)|
         <= if cfg.limit > 0 then cfg.limit else 0
  {
    if arrivals != [] {
      var init, a := arrivals[..|arrivals| - 1], arrivals[|arrivals| - 1];
      var before := FullHistory(cfg, init, client);
      WindowSafety(cfg, init, client, x);
      if a.client == client && Admits(cfg, before, a.at) && x - cfg.window < a.at <= x {
        InWindowAtMostPruned(before, x, cfg.window, a.at - cfg.window);
        assert (before + [a.at])[..|before|] == before;
      } else if a.client == client && Admits(cfg, before, a.at) {
        assert (before + [a.at])[..|before|] == before;
      }
    }
  }

  // ---- Optimality of greedy admission ----

  ghost predicate Sorted(times: seq<int>) {
    forall i, j :: 0 <= i <= j < |times| ==> times[i] <= times[j]
  }

  // The chosen requests with x - window < time <= x.
  ghost function ChosenIn(times: seq<int>, window: int, chosen: set<nat>, x: int): set<nat> {
    set i | i in chosen && i < |times| && x - window < times[i] <= x
  }

  // A choice among the requests in `own` with at most `limit` members in every window.
  ghost predicate Feasible(cfg: Config, times: seq<int>, own: set<nat>, chosen: set<nat>) {
    chosen <= own && forall x: int :: |ChosenIn(times, cfg.window, chosen, x)| <= cfg.limit
  }

  ghost function FirstOf(s: set<nat>, k: nat): set<nat> {
    set i | i in s && i < k
  }

  // Members before k that lie after the cutoff.
  ghost function Recent(times: seq<int>, s: set<nat>, k: nat, cutoff: int): set<nat>
    requires k <= |times|
  {
    set i | i in s && i < k && times[i] > cutoff
  }

  // Every request of `own` that is not in `taken` found its window full.
  ghost predicate RejectsOnlyWhenFull(cfg: Config, times: seq<int>, own: set<nat>, taken: set<nat>) {
    forall k :: k in own && k < |times| && k !in taken
      ==> |Recent(times, taken, k, times[k] - cfg.window)| >= cfg.limit
  }

  lemma SubsetSize(a: set<nat>, b: set<nat>)
    requires a <= b
    ensures |a| <= |b|
  {
    assert b == a + (b - a);
  }

  // The first request before k that lies after the cutoff.
  function WindowStart(times: seq<int>, k: nat, cutoff: int): (r: nat)
    requires k <= |times|
    ensures r <= k
    ensures r > 0 ==> times[r - 1] <= cutoff
    ensures forall i :: r <= i < k ==> times[i] > cutoff
  {
    if k == 0 || times[k - 1] <= cutoff then k else WindowStart(times, k - 1, cutoff)
  }

  lemma {:induction false} StaysAhead(cfg: Config, times: seq<int>, own: set<nat>, taken: set<nat>,
                                      chosen: set<nat>, k: nat)
    requires cfg.limit >= 1 || cfg.window >= 1
    requires Sorted(times) && k <= |times|
    requires RejectsOnlyWhenFull(cfg, times, own, taken)
    requires Feasible(cfg, times, own, chosen)
    ensures |FirstOf(chosen, k)| <= |FirstOf(taken, k)|
    decreases k
  {
    if k == 0 {
      assert FirstOf(chosen, 0) == {};
    } else if k - 1 in chosen && k - 1 !in taken {
      var start := WindowStart(times, k - 1, times[k - 1] - cfg.window);
      StaysAhead(cfg, times, own, taken, chosen, start);
      Exchange(cfg, times, taken, chosen, k - 1);
    } else {
      StaysAhead(cfg, times, own, taken, chosen, k - 1);
      FirstStep(chosen, k - 1);
      FirstStep(taken, k - 1);
    }
  }

  lemma FirstStep(s: set<nat>, k: nat)
    ensures |FirstOf(s, k + 1)| == |FirstOf(s, k)| + (if k in s then 1 else 0)
  {
    assert FirstOf(s, k + 1) == FirstOf(s, k) + (if k in s then {k} else {});
  }

  // The exchange step: at a request turned away, what was taken since the window opened
  // outweighs what a feasible choice may hold in that window.
  lemma Exchange(cfg: Config, times: seq<int>, taken: set<nat>, chosen: set<nat>, k: nat)
    requires cfg.limit >= 1 || cfg.window >= 1
    requires Sorted(times) && k < |times| && k !in taken
    requires |Recent(times, taken, k, times[k] - cfg.window)| >= cfg.limit
    requires |ChosenIn(times, cfg.window, chosen, times[k])| <= cfg.limit
    ensures var start := WindowStart(times, k, times[k] - cfg.window);
            |FirstOf(chosen, start)| <= |FirstOf(taken, start)|
            ==> |FirstOf(chosen, k + 1)| <= |FirstOf(taken, k + 1)|
  {
    hide *;
    if cfg.window <= 0 {
      NothingAfter(times, taken, k, times[k] - cfg.window);
    } else {
      SplitTaken(times, taken, k, times[k] - cfg.window);
      SplitChosen(times, cfg.window, chosen, k);
    }
  }

  lemma NothingAfter(times: seq<int>, s: set<nat>, k: nat, cutoff: int)
    requires Sorted(times) && k < |times| && times[k] <= cutoff
    ensures |Recent(times, s, k, cutoff)| == 0
  {
    assert Recent(times, s, k, cutoff) == {};
  }

  lemma SplitTaken(times: seq<int>, taken: set<nat>, k: nat, cutoff: int)
    requires Sorted(times) && k < |times| && k !in taken
    ensures |FirstOf(taken, k + 1)|
         == |FirstOf(taken, WindowStart(times, k, cutoff))| + |Recent(times, taken, k, cutoff)|
  {
    var start := WindowStart(times, k, cutoff);
    var first, recent := FirstOf(taken, start), Recent(times, taken, k, cutoff);
    assert forall i :: 0 <= i < start ==> times[i] <= times[start - 1];
    assert FirstOf(taken, k + 1) == first + recent;
  }

  lemma SplitChosen(times: seq<int>, window: int, chosen: set<nat>, k: nat)
    requires Sorted(times) && k < |times| && window >= 1
    ensures |FirstOf(chosen, k + 1)| <= |FirstOf(chosen, WindowStart(times, k, times[k] - window))|
                                        + |ChosenIn(times, window, chosen, times[k])|
  {
    var start := WindowStart(times, k, times[k] - window);
    var first, late := FirstOf(chosen, start), FirstOf(chosen, k + 1) - FirstOf(chosen, start);
    assert FirstOf(chosen, k + 1) == first + late;
    assert late <= ChosenIn(times, window, chosen, times[k]);
    SubsetSize(late, ChosenIn(times, window, chosen, times[k]));
  }

  function Times(arrivals: seq<Arrival>): seq<int> {
    seq(|arrivals|, i requires 0 <= i < |arrivals| => arrivals[i].at)
  }

  // The requests of one client, and those of them that the limiter passes on.
  ghost function OwnRequests(arrivals: seq<Arrival>, client: string): set<nat> {
    set i: nat | i < |arrivals| && arrivals[i].client == client
  }

  ghost function Greedy(cfg: Config, arrivals: seq<Arrival>, client: string): set<nat> {
    set i: nat | i < |arrivals| && arrivals[i].client == client && Admitted(cfg, arrivals, i)
  }

  lemma HistoryStep(cfg: Config, arrivals: seq<Arrival>, client: string, k: nat, cutoff: int)
    requires Nondecreasing(arrivals) && k < |arrivals|
    ensures |Prune(FullHistory(cfg, arrivals[..k + 1], client), cutoff)|
         == |Prune(FullHistory(cfg, arrivals[..k], client), cutoff)|
            + (if k in Greedy(cfg, arrivals, client) && arrivals[k].at > cutoff then 1 else 0)
  {
    assert arrivals[..k + 1][..k] == arrivals[..k];
    PruningUnobservable(cfg, arrivals, k);
    PruneSnoc(FullHistory(cfg, arrivals[..k], client), arrivals[k].at, cutoff);
  }

  // The full history, counted as a set of requests.
  lemma {:induction false} HistoryCounts(cfg: Config, arrivals: seq<Arrival>, client: string, k: nat, cutoff: int)
    requires Nondecreasing(arrivals) && k <= |arrivals|
    ensures |Prune(FullHistory(cfg, arrivals[..k], client), cutoff)|
         == |Recent(Times(arrivals), Greedy(cfg, arrivals, client), k, cutoff)|
  {
    if k == 0 {
      assert Recent(Times(arrivals), Greedy(cfg, arrivals, client), 0, cutoff) == {};
    } else {
      HistoryCounts(cfg, arrivals, client, k - 1, cutoff);
      HistoryStep(cfg, arrivals, client, k - 1, cutoff);
      RecentStep(Times(arrivals), Greedy(cfg, arrivals, client), k - 1, cutoff);
    }
  }

  lemma RecentStep(times: seq<int>, s: set<nat>, k: nat, cutoff: int)
    requires k < |times|
    ensures |Recent(times, s, k + 1, cutoff)|
         == |Recent(times, s, k, cutoff)| + (if k in s && times[k] > cutoff then 1 else 0)
  {
    if k in s && times[k] > cutoff {
      assert Recent(times, s, k + 1, cutoff) == Recent(times, s, k, cutoff) + {k};
    } else {
      assert Recent(times, s, k + 1, cutoff) == Recent(times, s, k, cutoff);
    }
  }

  // The limiter turns a request away only when its window is full.
  lemma RejectedWindowFull(cfg: Config, arrivals: seq<Arrival>, client: string, k: nat)
    requires Nondecreasing(arrivals)
    requires k < |arrivals| && arrivals[k].client == client && !Admitted(cfg, arrivals, k)
    ensures |Recent(Times(arrivals), Greedy(cfg, arrivals, client), k, arrivals[k].at - cfg.window)| >= cfg.limit
  {
    hide *;
    HistoryCounts(cfg, arrivals, client, k, arrivals[k].at - cfg.window);
    RejectedHistoryFull(cfg, arrivals, k);
  }

  lemma RejectedHistoryFull(cfg: Config, arrivals: seq<Arrival>, k: nat)
    requires Nondecreasing(arrivals) && k < |arrivals| && !Admitted(cfg, arrivals, k)
    ensures |Prune(FullHistory(cfg, arrivals[..k], arrivals[k].client), arrivals[k].at - cfg.window)| >= cfg.limit
  {
    hide Prune, Run, FullHistory, Lookup;
    PruningUnobservable(cfg, arrivals, k);
  }

  lemma GreedyRejectsOnlyWhenFull(cfg: Config, arrivals: seq<Arrival>, client: string)
    requires Nondecreasing(arrivals)
    ensures RejectsOnlyWhenFull(cfg, Times(arrivals), OwnRequests(arrivals, client), Greedy(cfg, arrivals, client))
  {
    hide Admitted;
    forall k | k in OwnRequests(arrivals, client) && k !in Greedy(cfg, arrivals, client)
      ensures |Recent(Times(arrivals), Greedy(cfg, arrivals, client), k, arrivals[k].at - cfg.window)| >= cfg.limit
    {
      RejectedWindowFull(cfg, arrivals, client, k);
    }
  }

  /** Greedy admission is optimal: for every client of a run, no choice among its requests
      that respects the limit in every window holds more of them than the limiter passes
      on, at any point of the run. */
  lemma GreedyOptimal(cfg: Config, arrivals: seq<Arrival>, client: string, chosen: set<nat>, k: nat)
    requires cfg.limit >= 1 || cfg.window >= 1
    requires Nondecreasing(arrivals) && k <= |arrivals|
    requires Feasible(cfg, Times(arrivals), OwnRequests(arrivals, client), chosen)
    ensures |FirstOf(chosen, k)| <= |FirstOf(Greedy(cfg, arrivals, client), k)|
  {
    GreedyRejectsOnlyWhenFull(cfg, arrivals, client);
    StaysAhead(cfg, Times(arrivals), OwnRequests(arrivals, client), Greedy(cfg, arrivals, client), chosen, k);
  }

  // The members of a set of requests before k that lie in the window ending at x.
  ghost function InWindowOf(times: seq<int>, s: set<nat>, k: nat, x: int, window: int): set<nat>
    requires k <= |times|
  {
    set i | i in s && i < k && x - window < times[i] <= x
  }

  lemma InWindowOfStep(times: seq<int>, s: set<nat>, k: nat, x: int, window: int)
    requires k < |times|
    ensures |InWindowOf(times, s, k + 1, x, window)|
         == |InWindowOf(times, s, k, x, window)| + (if k in s && x - window < times[k] <= x then 1 else 0)
  {
    assert InWindowOf(times, s, k + 1, x, window)
        == InWindowOf(times, s, k, x, window) + (if k in s && x - window < times[k] <= x then {k} else {});
  }

  lemma InWindowStep(cfg: Config, arrivals: seq<Arrival>, client: string, k: nat, x: int)
    requires Nondecreasing(arrivals) && k < |arrivals|
    ensures |InWindow(FullHistory(cfg, arrivals[..k + 1], client), x, cfg.window)|
         == |InWindow(FullHistory(cfg, arrivals[..k], client), x, cfg.window)|
            + (if k in Greedy(cfg, arrivals, client) && x - cfg.window < arrivals[k].at <= x then 1 else 0)
  {
    assert arrivals[..k + 1][..k] == arrivals[..k];
    PruningUnobservable(cfg, arrivals, k);
    var before := FullHistory(cfg, arrivals[..k], client);
    assert (before + [arrivals[k].at])[..|before|] == before;
  }

  lemma NoneYet(cfg: Config, arrivals: seq<Arrival>, client: string, x: int)
    ensures |InWindow(FullHistory(cfg, arrivals[..0], client), x, cfg.window)|
         == |InWindowOf(Times(arrivals), Greedy(cfg, arrivals, client), 0, x, cfg.window)|
  {
    assert InWindowOf(Times(arrivals), Greedy(cfg, arrivals, client), 0, x, cfg.window) == {};
  }

  // The full history in a window, counted as a set of requests.
  lemma {:induction false} WindowCounts(cfg: Config, arrivals: seq<Arrival>, client: string, k: nat, x: int)
    requires Nondecreasing(arrivals) && k <= |arrivals|
    ensures |InWindow(FullHistory(cfg, arrivals[..k], client), x, cfg.window)|
         == |InWindowOf(Times(arrivals), Greedy(cfg, arrivals, client), k, x, cfg.window)|
  {
    hide Greedy, FullHistory, InWindow, InWindowOf, Nondecreasing;
    if k == 0 {
      NoneYet(cfg, arrivals, client, x);
    } else {
      WindowCounts(cfg, arrivals, client, k - 1, x);
      InWindowStep(cfg, arrivals, client, k - 1, x);
      InWindowOfStep(Times(arrivals), Greedy(cfg, arrivals, client), k - 1, x, cfg.window);
    }
  }

  /** What the limiter passes on is itself such a choice: no window, wherever it ends, holds
      more than `limit` of the client's admitted requests. With GreedyOptimal, it is a largest one. */
  lemma GreedyFeasible(cfg: Config, arrivals: seq<Arrival>, client: string)
    requires cfg.limit >= 0 && Nondecreasing(arrivals)
    ensures Feasible(cfg, Times(arrivals), OwnRequests(arrivals, client), Greedy(cfg, arrivals, client))
  {
    var times, taken := Times(arrivals), Greedy(cfg, arrivals, client);
    forall x: int ensures |ChosenIn(times, cfg.window, taken, x)| <= cfg.limit {
      WindowSafety(cfg, arrivals, client, x);
      WindowCounts(cfg, arrivals, client, |arrivals|, x);
      assert arrivals[..|arrivals|] == arrivals;
      assert ChosenIn(times, cfg.window, taken, x) == InWindowOf(times, taken, |arrivals|, x, cfg.window);
    }
  }

  // A choice holds no more of the first k requests than the limiter passes on.
  ghost predicate NoBetter(cfg: Config, arrivals: seq<Arrival>, client: string, chosen: set<nat>, k: nat) {
    |FirstOf(chosen, k)| <= |FirstOf(Greedy(cfg, arrivals, client), k)|
  }

  ghost predicate Eligible(cfg: Config, arrivals: seq<Arrival>, client: string, chosen: set<nat>) {
    Nondecreasing(arrivals) && Feasible(cfg, Times(arrivals), OwnRequests(arrivals, client), chosen)
  }

  // No client of any run could have had more requests passed on, at any point of the run.
  ghost predicate AlwaysOptimal(cfg: Config) {
    forall arrivals, client, chosen, k: nat ::
      Eligible(cfg, arrivals, client, chosen) && k <= |arrivals| ==> NoBetter(cfg, arrivals, client, chosen, k)
  }

  /** The side condition is exact: greedy admission is optimal in every run unless the limit
      is zero and the window is empty. Then every choice is feasible, but the limiter admits
      nothing. (Below a negative limit no choice is feasible.) */
  lemma AlwaysOptimalIff(cfg: Config)
    ensures AlwaysOptimal(cfg) <==> cfg.limit != 0 || cfg.window >= 1
  {
    if cfg.limit == 0 && cfg.window < 1 {
      NotOptimalWithoutWindow(cfg);
    } else {
      forall arrivals, client, chosen, k: nat | Eligible(cfg, arrivals, client, chosen) && k <= |arrivals|
        ensures NoBetter(cfg, arrivals, client, chosen, k)
      {
        assert |ChosenIn(Times(arrivals), cfg.window, chosen, 0)| <= cfg.limit;
        hide FirstOf, Greedy, Feasible;
        GreedyOptimal(cfg, arrivals, client, chosen, k);
      }
    }
  }

  // One request is enough to show it.
  lemma NotOptimalWithoutWindow(cfg: Config)
    requires cfg.limit == 0 && cfg.window < 1
    ensures var arrivals := [Arrival("a", 0)];
            Eligible(cfg, arrivals, "a", {0}) && !NoBetter(cfg, arrivals, "a", {0}, |arrivals|)
  {
    var arrivals := [Arrival("a", 0)];
    forall x: int ensures ChosenIn(Times(arrivals), cfg.window, {0}, x) == {} {
    }
    assert FirstOf({0}, 1) == {0};
    assert FirstOf(Greedy(cfg, arrivals, "a"), 1) == {};
  }
}
