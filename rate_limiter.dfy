/** The sliding-window rate limiter of app/utils/helpers.py: a table from
    client address to the times of its recent admitted requests, and the
    `rate_limit` decorator that answers 429 instead of calling the handler
    when the limiter says so.

    The clock (`time.time()`), the configured window
    (`RATE_LIMIT_PERIOD.total_seconds()`) and the configured limit
    (`RATE_LIMIT`) are passed in as `now`, `window` and `limit`. The lock
    held around the body of `is_rate_limited` makes it one atomic step,
    which is what a method of the class is here. */
module Helpers {

  type Table = map<string, seq<real>>

  /** What `defaultdict(list)` gives for `request_counts[ip]`: the stored
      list, or a fresh empty one. */
  function Get(table: Table, ip: string): (times: seq<real>)
    ensures ip in table ==> times == table[ip]
    ensures ip !in table ==> times == []
  {
    if ip in table then table[ip] else []
  }

  /** The list comprehension that cleans old requests: the timestamps `t`
      with `now - t < window`, in their original order. A timestamp exactly
      `window` old is dropped. */
  function Prune(times: seq<real>, now: real, window: real): (kept: seq<real>)
    ensures |kept| <= |times|
    ensures forall t :: t in kept <==> t in times && now - t < window
  {
    if times == [] then []
    else (if now - times[0] < window then [times[0]] else []) + Prune(times[1..], now, window)
  }

  /** `small` is `big` with some elements left out, the rest in order. */
  ghost predicate IsSubsequence(small: seq<real>, big: seq<real>)
    decreases |big|
  {
    if big == [] then small == []
    else
      || (small != [] && small[0] == big[0] && IsSubsequence(small[1..], big[1..]))
      || IsSubsequence(small, big[1..])
  }

  /** Pruning only removes timestamps: what survives is a subsequence of
      the old list, in the same order. */
  lemma {:induction false} PruneIsSubsequence(times: seq<real>, now: real, window: real)
    ensures IsSubsequence(Prune(times, now, window), times)
  {
    if times != [] {
      PruneIsSubsequence(times[1..], now, window);
      var rest := Prune(times[1..], now, window);
      if now - times[0] < window {
        var kept := Prune(times, now, window);
        assert kept == [times[0]] + rest;
        assert kept[1..] == rest;
        assert kept != [] && kept[0] == times[0] && IsSubsequence(kept[1..], times[1..]);
      } else {
        assert Prune(times, now, window) == [] + rest == rest;
      }
    }
  }

  lemma {:induction false} PruneAppend(a: seq<real>, b: seq<real>, now: real, window: real)
    ensures Prune(a + b, now, window) == Prune(a, now, window) + Prune(b, now, window)
  {
    if a == [] {
      assert a + b == b;
    } else {
      assert (a + b)[0] == a[0];
      assert (a + b)[1..] == a[1..] + b;
      PruneAppend(a[1..], b, now, window);
    }
  }

  /** A list whose every timestamp is still inside the window survives
      pruning whole. */
  lemma {:induction false} PruneKeepsRecent(times: seq<real>, now: real, window: real)
    requires forall t :: t in times ==> now - t < window
    ensures Prune(times, now, window) == times
  {
    if times != [] {
      assert times[0] in times;
      assert forall t :: t in times[1..] ==> t in times;
      PruneKeepsRecent(times[1..], now, window);
      assert times == [times[0]] + times[1..];
    }
  }

  /** The outcome of one call of `is_rate_limited`: its answer and the
      table it leaves behind. */
  datatype Outcome = Outcome(limited: bool, table: Table)

  /** One atomic call of `is_rate_limited(ip)` at time `now`: prune the
      entry for `ip`; reject when `limit` or more requests are left,
      otherwise record `now`. */
  function Step(table: Table, ip: string, now: real, window: real, limit: int): (o: Outcome)
    ensures o.limited <==> |Prune(Get(table, ip), now, window)| >= limit
    ensures o.table.Keys == table.Keys + {ip}
    ensures forall k :: k in table && k != ip ==> o.table[k] == table[k]
    ensures o.limited ==> o.table[ip] == Prune(Get(table, ip), now, window)
    ensures !o.limited ==> o.table[ip] == Prune(Get(table, ip), now, window) + [now]
    ensures forall t :: t in o.table[ip] && t != now ==> t in Get(table, ip) && now - t < window
    ensures window > 0.0 ==> forall t :: t in o.table[ip] ==> now - t < window
  {
    var kept := Prune(Get(table, ip), now, window);
    if |kept| >= limit then Outcome(true, table[ip := kept])
    else Outcome(false, table[ip := kept + [now]])
  }

  /** The most requests a list can hold under `limit`: a limit of zero or
      less admits nothing. */
  function Cap(limit: int): nat {
    if limit > 0 then limit else 0
  }

  /** Every client's list holds at most `Cap(limit)` timestamps. */
  ghost predicate WithinLimit(table: Table, limit: int) {
    forall ip :: ip in table ==> |table[ip]| <= Cap(limit)
  }

  /** One call keeps every list within the limit. */
  lemma StepWithinLimit(table: Table, ip: string, now: real, window: real, limit: int)
    requires WithinLimit(table, limit)
    ensures WithinLimit(Step(table, ip, now, window, limit).table, limit)
  {
  }

  /** A request as the limiter sees it: the client address and the time. */
  datatype Request = Request(ip: string, now: real)

  /** The answers of successive calls and the final table. */
  datatype Trace = Trace(limited: seq<bool>, table: Table)

  /** Successive calls of `is_rate_limited`, each on the table the previous
      one left, with the window and the limit fixed. */
  function Run(table: Table, requests: seq<Request>, window: real, limit: int): (tr: Trace)
    ensures |tr.limited| == |requests|
    decreases |requests|
  {
    if requests == [] then Trace([], table)
    else
      var o := Step(table, requests[0].ip, requests[0].now, window, limit);
      var rest := Run(o.table, requests[1..], window, limit);
      Trace([o.limited] + rest.limited, rest.table)
  }

  /** Starting from any table within the limit (the empty one in
      particular), any sequence of calls leaves every list within it. */
  lemma {:induction false} RunWithinLimit(table: Table, requests: seq<Request>, window: real, limit: int)
    requires WithinLimit(table, limit)
    ensures WithinLimit(Run(table, requests, window, limit).table, limit)
    decreases |requests|
  {
    if requests != [] {
      var o := Step(table, requests[0].ip, requests[0].now, window, limit);
      StepWithinLimit(table, requests[0].ip, requests[0].now, window, limit);
      RunWithinLimit(o.table, requests[1..], window, limit);
    }
  }

  /** Number of requests from `ip` that were admitted (answered `False`). */
  function Admitted(ip: string, requests: seq<Request>, limited: seq<bool>): nat
    requires |limited| == |requests|
  {
    if requests == [] then 0
    else (if requests[0].ip == ip && !limited[0] then 1 else 0) + Admitted(ip, requests[1..], limited[1..])
  }

  /** The requests from `ip` come with non-decreasing times, all less than
      `window` apart. */
  ghost predicate WithinOneWindow(requests: seq<Request>, ip: string, window: real) {
    forall i, j :: 0 <= i <= j < |requests| && requests[i].ip == ip && requests[j].ip == ip ==>
      requests[i].now <= requests[j].now && requests[j].now - requests[i].now < window
  }

  function Max(a: int, b: int): int {
    if a >= b then a else b
  }

  /** Every timestamp in `recent` still counts when any of the requests
      from `ip` arrives. */
  ghost predicate CountedThroughout(requests: seq<Request>, ip: string, window: real, recent: seq<real>) {
    forall k, t :: 0 <= k < |requests| && requests[k].ip == ip && t in recent ==> requests[k].now - t < window
  }

  lemma WithinOneWindowTail(requests: seq<Request>, ip: string, window: real)
    requires requests != []
    requires WithinOneWindow(requests, ip, window)
    ensures WithinOneWindow(requests[1..], ip, window)
  {
    var rest := requests[1..];
    forall i, j | 0 <= i <= j < |rest| && rest[i].ip == ip && rest[j].ip == ip
      ensures rest[i].now <= rest[j].now && rest[j].now - rest[i].now < window
    {
      assert rest[i] == requests[i + 1] && rest[j] == requests[j + 1];
    }
  }

  /** After an admission at the first request's time, that time joins the
      timestamps the remaining requests still count. */
  lemma CountedAfterAdmission(requests: seq<Request>, ip: string, window: real, recent: seq<real>)
    requires requests != [] && requests[0].ip == ip
    requires WithinOneWindow(requests, ip, window)
    requires CountedThroughout(requests, ip, window, recent)
    ensures CountedThroughout(requests[1..], ip, window, recent + [requests[0].now])
  {
    var rest := requests[1..];
    forall k, t | 0 <= k < |rest| && rest[k].ip == ip && t in recent + [requests[0].now]
      ensures rest[k].now - t < window
    {
      assert rest[k] == requests[k + 1];
      if t !in recent {
        assert t == requests[0].now;
      }
    }
  }

  lemma CountedTail(requests: seq<Request>, ip: string, window: real, recent: seq<real>)
    requires requests != []
    requires CountedThroughout(requests, ip, window, recent)
    ensures CountedThroughout(requests[1..], ip, window, recent)
  {
    var rest := requests[1..];
    forall k, t | 0 <= k < |rest| && rest[k].ip == ip && t in recent
      ensures rest[k].now - t < window
    {
      assert rest[k] == requests[k + 1];
    }
  }

  /** Running a non-empty sequence of requests is one step followed by
      the run of the rest. */
  lemma AdmittedUnfold(table: Table, requests: seq<Request>, window: real, limit: int, ip: string)
    requires requests != []
    ensures var o := Step(table, requests[0].ip, requests[0].now, window, limit);
            Admitted(ip, requests, Run(table, requests, window, limit).limited)
            == (if requests[0].ip == ip && !o.limited then 1 else 0)
               + Admitted(ip, requests[1..], Run(o.table, requests[1..], window, limit).limited)
  {
    var o := Step(table, requests[0].ip, requests[0].now, window, limit);
    var tr := Run(table, requests, window, limit);
    var trRest := Run(o.table, requests[1..], window, limit);
    assert tr.limited == [o.limited] + trRest.limited;
    assert tr.limited[1..] == trRest.limited;
  }

  /** A request from `ip` whose list ends with timestamps all inside the
      window: those survive pruning, and the request is refused exactly
      when the survivors already reach the limit. */
  lemma StepOnRecent(table: Table, ip: string, now: real, window: real, limit: int,
                     older: seq<real>, recent: seq<real>)
    requires Get(table, ip) == older + recent
    requires forall t :: t in recent ==> now - t < window
    ensures var o := Step(table, ip, now, window, limit);
            var older' := Prune(older, now, window);
            && (o.limited <==> |older'| + |recent| >= limit)
            && Get(o.table, ip) == older' + (if o.limited then recent else recent + [now])
  {
    PruneAppend(older, recent, now, window);
    PruneKeepsRecent(recent, now, window);
  }

  /** The induction behind `AdmittedWithinWindow`: the list for `ip` ends
      with `recent`, timestamps that every coming request from `ip` still
      counts, so each admission adds to them and none can go past the
      limit. */
  lemma {:induction false} AdmittedAfterRecent(table: Table, requests: seq<Request>, window: real, limit: int,
                                                ip: string, older: seq<real>, recent: seq<real>)
    requires Get(table, ip) == older + recent
    requires WithinOneWindow(requests, ip, window)
    requires CountedThroughout(requests, ip, window, recent)
    ensures |recent| + Admitted(ip, requests, Run(table, requests, window, limit).limited) <= Max(limit, |recent|)
    decreases |requests|
  {
    if requests != [] {
      var r := requests[0];
      var o := Step(table, r.ip, r.now, window, limit);
      var rest := requests[1..];
      AdmittedUnfold(table, requests, window, limit, ip);
      WithinOneWindowTail(requests, ip, window);
      if r.ip != ip {
        assert Get(o.table, ip) == Get(table, ip);
        CountedTail(requests, ip, window, recent);
        AdmittedAfterRecent(o.table, rest, window, limit, ip, older, recent);
      } else {
        assert forall t :: t in recent ==> r.now - t < window;
        StepOnRecent(table, ip, r.now, window, limit, older, recent);
        var older' := Prune(older, r.now, window);
        if o.limited {
          CountedTail(requests, ip, window, recent);
          AdmittedAfterRecent(o.table, rest, window, limit, ip, older', recent);
        } else {
          CountedAfterAdmission(requests, ip, window, recent);
          AdmittedAfterRecent(o.table, rest, window, limit, ip, older', recent + [r.now]);
        }
      }
    }
  }

  /** However the starting table looks and however the requests of other
      clients interleave, among requests from one client with
      non-decreasing times spanning less than `window`, at most `limit` are
      admitted. */
  lemma AdmittedWithinWindow(table: Table, requests: seq<Request>, window: real, limit: int, ip: string)
    requires WithinOneWindow(requests, ip, window)
    ensures Admitted(ip, requests, Run(table, requests, window, limit).limited) <= Cap(limit)
  {
    assert Get(table, ip) == Get(table, ip) + [];
    assert CountedThroughout(requests, ip, window, []);
    AdmittedAfterRecent(table, requests, window, limit, ip, Get(table, ip), []);
  }

  /** Number of requests from `ip`. */
  function RequestsFrom(ip: string, requests: seq<Request>): nat {
    if requests == [] then 0 else (if requests[0].ip == ip then 1 else 0) + RequestsFrom(ip, requests[1..])
  }

  /** A client whose stored list and coming requests together stay within
      the limit is never refused, whatever the times and however other
      clients interleave. */
  lemma {:induction false} AdmittedUnderLimit(table: Table, requests: seq<Request>, window: real, limit: int, ip: string)
    requires |Get(table, ip)| + RequestsFrom(ip, requests) <= limit
    ensures forall k :: 0 <= k < |requests| && requests[k].ip == ip ==> !Run(table, requests, window, limit).limited[k]
    decreases |requests|
  {
    if requests != [] {
      var r := requests[0];
      var o := Step(table, r.ip, r.now, window, limit);
      var rest := requests[1..];
      StepWithinBudget(table, requests, window, limit, ip);
      AdmittedUnderLimit(o.table, rest, window, limit, ip);
      var tr := Run(table, requests, window, limit);
      assert tr.limited == [o.limited] + Run(o.table, rest, window, limit).limited;
      forall k | 0 <= k < |requests| && requests[k].ip == ip
        ensures !tr.limited[k]
      {
        if k > 0 {
          assert rest[k - 1] == requests[k];
        }
      }
    }
  }

  /** One call admits a request from `ip` that is within the budget, and
      the stored list grows by at most that request. */
  lemma StepWithinBudget(table: Table, requests: seq<Request>, window: real, limit: int, ip: string)
    requires requests != []
    requires |Get(table, ip)| + RequestsFrom(ip, requests) <= limit
    ensures var o := Step(table, requests[0].ip, requests[0].now, window, limit);
            && (requests[0].ip == ip ==> !o.limited)
            && |Get(o.table, ip)| + RequestsFrom(ip, requests[1..]) <= limit
  {
  }

  /** A client with no stored requests that sends at most `limit` of them
      has every one admitted. */
  lemma FirstRequestsAdmitted(table: Table, requests: seq<Request>, window: real, limit: int, ip: string)
    requires Get(table, ip) == []
    requires RequestsFrom(ip, requests) <= limit
    ensures forall k :: 0 <= k < |requests| && requests[k].ip == ip ==> !Run(table, requests, window, limit).limited[k]
  {
    AdmittedUnderLimit(table, requests, window, limit, ip);
  }

  /** The induction behind `RefusedPastLimit`: the list for `ip` is
      `recent`, timestamps that every coming request from `ip` still counts.
      A request from `ip` is then refused exactly when `recent` and the
      earlier requests from `ip` together reach the limit: each admission
      adds one timestamp, and once the limit is reached every later request
      is refused. */
  lemma {:induction false} RefusedPastRecent(table: Table, requests: seq<Request>, window: real, limit: int,
                                              ip: string, recent: seq<real>)
    requires Get(table, ip) == recent
    requires WithinOneWindow(requests, ip, window)
    requires CountedThroughout(requests, ip, window, recent)
    ensures forall k :: 0 <= k < |requests| && requests[k].ip == ip ==>
              (Run(table, requests, window, limit).limited[k] <==> |recent| + RequestsFrom(ip, requests[..k]) >= limit)
    decreases |requests|
  {
    if requests != [] {
      var r := requests[0];
      var o := Step(table, r.ip, r.now, window, limit);
      var rest := requests[1..];
      var next: seq<real> := if r.ip == ip && !o.limited then recent + [r.now] else recent;
      RecentStep(table, requests, window, limit, ip, recent);
      RefusedPastRecent(o.table, rest, window, limit, ip, next);
      var limited := Run(table, requests, window, limit).limited;
      var limitedRest := Run(o.table, rest, window, limit).limited;
      assert limited == [o.limited] + limitedRest by {
        assert requests == [r] + rest;
        RunCons(table, r, rest, window, limit);
      }
      forall k | 0 <= k < |requests| && requests[k].ip == ip
        ensures limited[k] <==> |recent| + RequestsFrom(ip, requests[..k]) >= limit
      {
        if k == 0 {
          assert requests[..k] == [];
        } else {
          assert rest[k - 1] == requests[k];
          RequestsFromPrefix(ip, requests, k);
          assert limited[k] == ([o.limited] + limitedRest)[k] == limitedRest[k - 1];
        }
      }
    }
  }

  /** One call of the induction in `RefusedPastRecent`: a request from
      `ip` is refused exactly when `recent` has reached the limit, and
      afterwards the list for `ip` is `recent`, with the request's time
      added when it was admitted, and the rest of the requests still count
      all of it. */
  lemma RecentStep(table: Table, requests: seq<Request>, window: real, limit: int, ip: string, recent: seq<real>)
    requires requests != []
    requires Get(table, ip) == recent
    requires WithinOneWindow(requests, ip, window)
    requires CountedThroughout(requests, ip, window, recent)
    ensures var r := requests[0];
            var o := Step(table, r.ip, r.now, window, limit);
            var next := if r.ip == ip && !o.limited then recent + [r.now] else recent;
            && (r.ip == ip ==> (o.limited <==> |recent| >= limit))
            && Get(o.table, ip) == next
            && WithinOneWindow(requests[1..], ip, window)
            && CountedThroughout(requests[1..], ip, window, next)
  {
    var r := requests[0];
    var o := Step(table, r.ip, r.now, window, limit);
    WithinOneWindowTail(requests, ip, window);
    if r.ip != ip {
      assert Get(o.table, ip) == Get(table, ip);
      CountedTail(requests, ip, window, recent);
    } else {
      assert forall t :: t in recent ==> r.now - t < window;
      assert Get(table, ip) == [] + recent;
      StepOnRecent(table, ip, r.now, window, limit, [], recent);
      assert Prune([], r.now, window) == [];
      if o.limited {
        CountedTail(requests, ip, window, recent);
      } else {
        CountedAfterAdmission(requests, ip, window, recent);
      }
    }
  }

  /** The requests from `ip` among the first `k`: the first request, then
      those among the next `k - 1`. */
  lemma RequestsFromPrefix(ip: string, requests: seq<Request>, k: int)
    requires 0 < k <= |requests|
    ensures RequestsFrom(ip, requests[..k])
         == (if requests[0].ip == ip then 1 else 0) + RequestsFrom(ip, requests[1..][..k - 1])
  {
    var before := requests[..k];
    assert before[0] == requests[0] && before[1..] == requests[1..][..k - 1];
  }

  /** A client with no stored requests that sends requests with
      non-decreasing times, all less than `window` apart, has exactly its
      first `limit` requests admitted and every later one refused, however
      other clients interleave. */
  lemma RefusedPastLimit(table: Table, requests: seq<Request>, window: real, limit: int, ip: string)
    requires Get(table, ip) == []
    requires WithinOneWindow(requests, ip, window)
    ensures forall k :: 0 <= k < |requests| && requests[k].ip == ip ==>
              (Run(table, requests, window, limit).limited[k] <==> RequestsFrom(ip, requests[..k]) >= limit)
  {
    assert CountedThroughout(requests, ip, window, []);
    RefusedPastRecent(table, requests, window, limit, ip, []);
  }

  /** Two requests per 60 seconds from one client: the first two within a
      second are admitted, the third is rejected, and once the first is
      exactly 60 seconds old it no longer counts. */
  lemma SlidingWindowScenario(ip: string)
    ensures Run(map[], [Request(ip, 0.0), Request(ip, 0.5), Request(ip, 1.0), Request(ip, 60.0)], 60.0, 2).limited
         == [false, false, true, false]
  {
    var r3 := [Request(ip, 60.0)];
    var r2 := [Request(ip, 1.0)] + r3;
    var r1 := [Request(ip, 0.5)] + r2;
    var r0 := [Request(ip, 0.0)] + r1;
    ScenarioSteps(ip);
    var t1 := map[ip := [0.0]];
    ScenarioLastTwo(ip);
    RunCons(t1, Request(ip, 0.5), r2, 60.0, 2);
    RunCons(map[], Request(ip, 0.0), r1, 60.0, 2);
    assert r0 == [Request(ip, 0.0), Request(ip, 0.5), Request(ip, 1.0), Request(ip, 60.0)];
  }

  /** Once two requests are stored, the third is refused and the fourth,
      60 seconds after the first, admitted. */
  lemma ScenarioLastTwo(ip: string)
    ensures Run(map[ip := [0.0, 0.5]], [Request(ip, 1.0), Request(ip, 60.0)], 60.0, 2).limited == [true, false]
  {
    var t2 := map[ip := [0.0, 0.5]];
    ScenarioSteps(ip);
    RunCons(t2, Request(ip, 60.0), [], 60.0, 2);
    RunCons(t2, Request(ip, 1.0), [Request(ip, 60.0)], 60.0, 2);
    assert [Request(ip, 1.0)] + [Request(ip, 60.0)] == [Request(ip, 1.0), Request(ip, 60.0)];
  }

  /** A run is its first step followed by the run of the rest. */
  lemma RunCons(table: Table, r: Request, rest: seq<Request>, window: real, limit: int)
    ensures var o := Step(table, r.ip, r.now, window, limit);
            Run(table, [r] + rest, window, limit).limited == [o.limited] + Run(o.table, rest, window, limit).limited
  {
    assert ([r] + rest)[1..] == rest;
  }

  /** The four steps of `SlidingWindowScenario`, one by one. */
  lemma ScenarioSteps(ip: string)
    ensures Step(map[], ip, 0.0, 60.0, 2) == Outcome(false, map[ip := [0.0]])
    ensures Step(map[ip := [0.0]], ip, 0.5, 60.0, 2) == Outcome(false, map[ip := [0.0, 0.5]])
    ensures Step(map[ip := [0.0, 0.5]], ip, 1.0, 60.0, 2) == Outcome(true, map[ip := [0.0, 0.5]])
    ensures !Step(map[ip := [0.0, 0.5]], ip, 60.0, 60.0, 2).limited
  {
    PruneExamples();
    assert Get(map[], ip) == [];
    assert [] + [0.0] == [0.0];
    var empty: Table := map[];
    assert empty[ip := [0.0]] == map[ip := [0.0]];
    assert [0.0] + [0.5] == [0.0, 0.5];
    assert map[ip := [0.0]][ip := [0.0, 0.5]] == map[ip := [0.0, 0.5]];
    assert map[ip := [0.0, 0.5]][ip := [0.0, 0.5]] == map[ip := [0.0, 0.5]];
  }

  lemma PruneExamples()
    ensures Prune([], 0.0, 60.0) == []
    ensures Prune([0.0], 0.5, 60.0) == [0.0]
    ensures Prune([0.0, 0.5], 1.0, 60.0) == [0.0, 0.5]
    ensures Prune([0.0, 0.5], 60.0, 60.0) == [0.5]
  {
    assert [0.0, 0.5][1..] == [0.5];
    assert [0.5][1..] == [];
    assert [0.0][1..] == [];
  }

  /** The JSON body and status `rate_limit` answers with when the limiter
      refuses, or whatever the wrapped handler returned. */
  datatype Reply<R> = TooManyRequests(error: string, retryAfter: real, status: int) | Forwarded(response: R)

  const RateLimitExceeded: string := "Rate limit exceeded"
  const TooManyRequestsStatus: int := 429

  class RateLimiter {
    /** `request_counts`: client address to the times of its recent admitted requests. */
    var requestCounts: Table

    constructor ()
      ensures requestCounts == map[]
    {
      requestCounts := map[];
    }

    /** `is_rate_limited(ip)`, as one atomic step. */
    method IsRateLimited(ip: string, now: real, window: real, limit: int) returns (limited: bool)
      modifies this
      ensures limited == Step(old(requestCounts), ip, now, window, limit).limited
      ensures requestCounts == Step(old(requestCounts), ip, now, window, limit).table
      ensures old(WithinLimit(requestCounts, limit)) ==> WithinLimit(requestCounts, limit)
    {
      var kept := Prune(Get(requestCounts, ip), now, window);
      requestCounts := requestCounts[ip := kept];
      if |requestCounts[ip]| >= limit {
        return true;
      }
      requestCounts := requestCounts[ip := requestCounts[ip] + [now]];
      limited := false;
    }

    /** The function `rate_limit(f)` wraps around a handler: ask the limiter
        and either answer 429 with `retry_after` set to the window, without
        calling the handler, or return what the handler returns.
        `handled` tells whether the handler was called. */
    method RateLimit<R>(ip: string, now: real, window: real, limit: int, handler: () -> R)
      returns (reply: Reply<R>, handled: bool)
      modifies this
      ensures requestCounts == Step(old(requestCounts), ip, now, window, limit).table
      ensures handled <==> !Step(old(requestCounts), ip, now, window, limit).limited
      ensures !handled ==> reply == TooManyRequests(RateLimitExceeded, window, TooManyRequestsStatus)
      ensures handled ==> reply == Forwarded(handler())
    {
      var limited := IsRateLimited(ip, now, window, limit);
      if limited {
        return TooManyRequests(RateLimitExceeded, window, TooManyRequestsStatus), false;
      }
      reply := Forwarded(handler());
      handled := true;
    }
  }

  /** Not a model of any code: this only shows that the contracts of
      `RateLimiter`'s methods are enough to derive the answers of
      `SlidingWindowScenario` for a caller that drives the object. */
  method ClientScenario(ip: string) {
    var limiter := new RateLimiter();
    PruneExamples();
    var a := limiter.IsRateLimited(ip, 0.0, 60.0, 2);
    var b := limiter.IsRateLimited(ip, 0.5, 60.0, 2);
    var c := limiter.IsRateLimited(ip, 1.0, 60.0, 2);
    assert !a && !b && c;
    assert limiter.requestCounts[ip] == [0.0, 0.5];
    var d := limiter.IsRateLimited(ip, 60.0, 60.0, 2);
    assert !d && limiter.requestCounts[ip] == [0.5, 60.0];
  }
}
