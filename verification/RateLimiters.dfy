/** The proxy's sliding-window limiter and the bank's fixed-window limiter, over whole runs with a
    clock that never goes back. */
module RateLimiters {
  import opened Options
  import opened Words

  const REQUESTS := 100
  const WINDOW := 60_000

  // ----- Counting in closed intervals -----

  function CountIn(times: seq<int>, lo: int, hi: int): (n: nat)
    ensures n <= |times|
    decreases |times|
  {
    if times == [] then 0
    else CountIn(times[..|times| - 1], lo, hi) + if lo <= times[|times| - 1] <= hi then 1 else 0
  }

  predicate Sorted(times: seq<int>) {
    forall i, j :: 0 <= i <= j < |times| ==> times[i] <= times[j]
  }

  /** Any n + 1 consecutive times take longer than a window. */
  ghost predicate Spaced(times: seq<int>, n: nat, window: int) {
    forall i, j :: 0 <= i && j < |times| && j - i == n ==> times[j] - times[i] > window
  }

  lemma SpacedAppend(times: seq<int>, n: nat, window: int, t: int)
    requires n > 0 && Spaced(times, n, window)
    requires |times| >= n ==> t - times[|times| - n] > window
    ensures Spaced(times + [t], n, window)
  {
  }

  lemma {:induction false} CountConcat(a: seq<int>, b: seq<int>, lo: int, hi: int)
    ensures CountIn(a + b, lo, hi) == CountIn(a, lo, hi) + CountIn(b, lo, hi)
    decreases |b|
  {
    if b == [] {
      assert a + b == a;
    } else {
      assert (a + b)[..|a + b| - 1] == a + b[..|b| - 1];
      CountConcat(a, b[..|b| - 1], lo, hi);
    }
  }

  lemma {:induction false} CountBelow(times: seq<int>, lo: int, hi: int)
    requires forall i :: 0 <= i < |times| ==> times[i] < lo
    ensures CountIn(times, lo, hi) == 0
    decreases |times|
  {
    if times != [] { CountBelow(times[..|times| - 1], lo, hi); }
  }

  /** No closed interval of the window's length holds more than n of them. */
  lemma {:induction false} SpacedBound(times: seq<int>, n: nat, window: int, lo: int, hi: int)
    requires n > 0 && Sorted(times) && Spaced(times, n, window) && hi - lo <= window
    ensures CountIn(times, lo, hi) <= n
    decreases |times|
  {
    if |times| > n {
      var last := |times| - 1;
      if lo <= times[last] <= hi {
        var early, late := times[..|times| - n], times[|times| - n..];
        assert times == early + late;
        assert times[last] - times[last - n] > window;
        CountBelow(early, lo, hi);
        CountConcat(early, late, lo, hi);
      } else {
        SpacedBound(times[..last], n, window, lo, hi);
      }
    }
  }

  // ----- The sliding window of one address -----

  /** Times older than the window are dropped off the front. */
  function Pruned(queue: seq<int>, now: int): (q: seq<int>)
    decreases |queue|
  {
    if queue != [] && queue[0] < now - WINDOW then Pruned(queue[1..], now) else queue
  }

  predicate Allows(queue: seq<int>, now: int) {
    |Pruned(queue, now)| < REQUESTS
  }

  function AfterRequest(queue: seq<int>, now: int): seq<int> {
    Pruned(queue, now) + if Allows(queue, now) then [now] else []
  }

  predicate Stale(queue: seq<int>, now: int) {
    queue == [] || now - queue[0] > 2 * WINDOW
  }

  class RateLimiter {
    var requestTimes: seq<int>

    constructor ()
      ensures requestTimes == []
    {
      requestTimes := [];
    }

    method AllowRequest(now: int) returns (ok: bool)
      modifies this
      ensures ok <==> Allows(old(requestTimes), now)
      ensures requestTimes == AfterRequest(old(requestTimes), now)
    {
      while requestTimes != [] && requestTimes[0] < now - WINDOW
        invariant Pruned(requestTimes, now) == Pruned(old(requestTimes), now)
        decreases |requestTimes|
      {
        requestTimes := requestTimes[1..];
      }
      if |requestTimes| < REQUESTS {
        requestTimes := requestTimes + [now];
        return true;
      }
      ok := false;
    }

    predicate IsExpired(now: int)
      reads this
    {
      Stale(requestTimes, now)
    }
  }

  lemma {:induction false} PrunedIsSuffix(queue: seq<int>, now: int)
    ensures var q := Pruned(queue, now);
            |q| <= |queue| && q == queue[|queue| - |q|..] &&
            (forall i :: 0 <= i < |queue| - |q| ==> queue[i] < now - WINDOW) &&
            (q != [] ==> q[0] >= now - WINDOW)
    decreases |queue|
  {
    if queue != [] && queue[0] < now - WINDOW {
      PrunedIsSuffix(queue[1..], now);
    }
  }

  /** queue remembers the newest of the allowed times, and every forgotten one is out of the window. */
  ghost predicate Remembers(allowed: seq<int>, queue: seq<int>, clock: int) {
    && |queue| <= |allowed| && queue == allowed[|allowed| - |queue|..]
    && Sorted(allowed) && Spaced(allowed, REQUESTS, WINDOW)
    && (forall i :: 0 <= i < |allowed| ==> allowed[i] <= clock)
    && (forall i :: 0 <= i < |allowed| - |queue| ==> allowed[i] < clock - WINDOW)
    && (queue != [] ==> queue[|queue| - 1] - queue[0] <= WINDOW)
  }

  lemma PruneKeeps(allowed: seq<int>, queue: seq<int>, clock: int, now: int)
    requires Remembers(allowed, queue, clock) && clock <= now
    ensures Remembers(allowed, Pruned(queue, now), now)
    ensures var q := Pruned(queue, now); q != [] ==> q[0] >= now - WINDOW
  {
    var q := Pruned(queue, now);
    PrunedIsSuffix(queue, now);
    forall i | 0 <= i < |allowed| - |q|
      ensures allowed[i] < now - WINDOW
    {
      var k := i - (|allowed| - |queue|);
      if k >= 0 {
        assert allowed[i] == queue[k];
      }
    }
  }

  lemma RequestKeeps(allowed: seq<int>, queue: seq<int>, clock: int, now: int)
    requires Remembers(allowed, queue, clock) && clock <= now
    ensures Remembers(if Allows(queue, now) then allowed + [now] else allowed, AfterRequest(queue, now), now)
  {
    var q := Pruned(queue, now);
    PruneKeeps(allowed, queue, clock, now);
    if Allows(queue, now) {
      RememberOneMore(allowed, q, now);
    } else {
      assert q + [] == q;
    }
  }

  lemma SortedAppend(times: seq<int>, t: int)
    requires Sorted(times) && forall i :: 0 <= i < |times| ==> times[i] <= t
    ensures Sorted(times + [t])
  {
  }

  lemma OldestForgotten(allowed: seq<int>, queue: seq<int>, now: int)
    requires Remembers(allowed, queue, now) && |queue| < REQUESTS
    ensures |allowed| >= REQUESTS ==> now - allowed[|allowed| - REQUESTS] > WINDOW
  {
  }

  lemma SuffixAppend(all: seq<int>, suffix: seq<int>, t: int)
    requires |suffix| <= |all| && suffix == all[|all| - |suffix|..]
    ensures suffix + [t] == (all + [t])[|all + [t]| - |suffix + [t]|..]
  {
  }

  lemma RememberOneMore(allowed: seq<int>, queue: seq<int>, now: int)
    requires Remembers(allowed, queue, now) && |queue| < REQUESTS
    requires queue != [] ==> queue[0] >= now - WINDOW
    ensures Remembers(allowed + [now], queue + [now], now)
  {
    OldestForgotten(allowed, queue, now);
    SpacedAppend(allowed, REQUESTS, WINDOW, now);
    SortedAppend(allowed, now);
    SuffixAppend(allowed, queue, now);
  }

  /** The queue of an expired limiter remembers nothing that is still inside the window. */
  lemma ExpiryKeeps(allowed: seq<int>, queue: seq<int>, clock: int, now: int)
    requires Remembers(allowed, queue, clock) && clock <= now && Stale(queue, now)
    ensures Remembers(allowed, [], now)
  {
    forall i | 0 <= i < |allowed|
      ensures allowed[i] < now - WINDOW
    {
      var k := i - (|allowed| - |queue|);
      if k >= 0 {
        assert allowed[i] == queue[k] <= queue[|queue| - 1];
      }
    }
  }

  // ----- All addresses -----

  type Limiters = map<string, seq<int>>

  datatype Event = Request(ip: string, now: int) | Cleanup(now: int)

  function QueueOf(m: Limiters, ip: string): seq<int> {
    if ip in m then m[ip] else []
  }

  function Kept(m: Limiters, now: int): Limiters {
    map ip | ip in m && !Stale(m[ip], now) :: m[ip]
  }

  function Step(m: Limiters, e: Event): Limiters {
    match e
    case Request(ip, now) => m[ip := AfterRequest(QueueOf(m, ip), now)]
    case Cleanup(now) => Kept(m, now)
  }

  function Run(events: seq<Event>): Limiters
    decreases |events|
  {
    if events == [] then map[] else Step(Run(events[..|events| - 1]), events[|events| - 1])
  }

  /** The times at which requests of an address were allowed. */
  function Allowed(events: seq<Event>, ip: string): seq<int>
    decreases |events|
  {
    if events == [] then []
    else
      var init, e := events[..|events| - 1], events[|events| - 1];
      if e.Request? && e.ip == ip && Allows(QueueOf(Run(init), ip), e.now) then Allowed(init, ip) + [e.now]
      else Allowed(init, ip)
  }

  predicate ClockNeverBack(events: seq<Event>) {
    forall i, j :: 0 <= i <= j < |events| ==> events[i].now <= events[j].now
  }

  lemma {:induction false} RunRemembers(events: seq<Event>, ip: string, clock: int)
    requires ClockNeverBack(events)
    requires forall i :: 0 <= i < |events| ==> events[i].now <= clock
    ensures Remembers(Allowed(events, ip), QueueOf(Run(events), ip), clock)
    decreases |events|
  {
    if events != [] {
      var init, e := events[..|events| - 1], events[|events| - 1];
      RunRemembers(init, ip, e.now);
      StepRemembers(Allowed(init, ip), Run(init), e, ip);
      LaterClock(Allowed(events, ip), QueueOf(Run(events), ip), e.now, clock);
    }
  }

  lemma StepRemembers(allowed: seq<int>, m: Limiters, e: Event, ip: string)
    requires Remembers(allowed, QueueOf(m, ip), e.now)
    ensures Remembers(if e.Request? && e.ip == ip && Allows(QueueOf(m, ip), e.now) then allowed + [e.now] else allowed,
                      QueueOf(Step(m, e), ip), e.now)
  {
    match e
    case Request(who, now) =>
      if who == ip { RequestKeeps(allowed, QueueOf(m, ip), now, now); }
    case Cleanup(now) =>
      if ip in m && Stale(m[ip], now) { ExpiryKeeps(allowed, m[ip], now, now); }
  }

  lemma LaterClock(allowed: seq<int>, queue: seq<int>, clock: int, later: int)
    requires Remembers(allowed, queue, clock) && clock <= later
    ensures Remembers(allowed, queue, later)
  {
  }

  /** Over any run, clean-ups included, no closed interval as long as the window contains more than
      100 allowed requests of one address. */
  lemma SlidingWindowSafe(events: seq<Event>, ip: string, lo: int, hi: int)
    requires ClockNeverBack(events) && hi - lo <= WINDOW
    ensures CountIn(Allowed(events, ip), lo, hi) <= REQUESTS
  {
    if events != [] {
      RunRemembers(events, ip, events[|events| - 1].now);
      SpacedBound(Allowed(events, ip), REQUESTS, WINDOW, lo, hi);
    }
  }

  lemma {:induction false} CountAll(times: seq<int>, lo: int, hi: int)
    requires forall i :: 0 <= i < |times| ==> lo <= times[i] <= hi
    ensures CountIn(times, lo, hi) == |times|
    decreases |times|
  {
    if times != [] { CountAll(times[..|times| - 1], lo, hi); }
  }

  /** A pruned queue holds exactly the allowed times of the last window. */
  lemma QueueCountsWindow(allowed: seq<int>, queue: seq<int>, now: int)
    requires Remembers(allowed, queue, now)
    ensures CountIn(allowed, now - WINDOW, now) == |Pruned(queue, now)|
  {
    var q := Pruned(queue, now);
    PruneKeeps(allowed, queue, now, now);
    CountOfSuffix(allowed[..|allowed| - |q|], q, now - WINDOW, now);
    assert allowed == allowed[..|allowed| - |q|] + q;
  }

  lemma CountOfSuffix(before: seq<int>, q: seq<int>, lo: int, hi: int)
    requires forall i :: 0 <= i < |before| ==> before[i] < lo
    requires Sorted(q) && forall i :: 0 <= i < |q| ==> q[i] <= hi
    requires q != [] ==> lo <= q[0]
    ensures CountIn(before + q, lo, hi) == |q|
  {
    CountConcat(before, q, lo, hi);
    CountBelow(before, lo, hi);
    CountAll(q, lo, hi);
  }

  /** After any run a request is refused if and only if 100 requests of its address were allowed within
      the last minute, this instant included; other addresses and clean-ups play no part. */
  lemma RequestRefusedIff(events: seq<Event>, ip: string, now: int)
    requires ClockNeverBack(events + [Request(ip, now)])
    ensures Allowed(events + [Request(ip, now)], ip) ==
            if CountIn(Allowed(events, ip), now - 60_000, now) == 100 then Allowed(events, ip)
            else Allowed(events, ip) + [now]
    ensures Allows(QueueOf(Run(events), ip), now) <==> CountIn(Allowed(events, ip), now - 60_000, now) < 100
  {
    EarlierEvents(events, Request(ip, now));
    AllowsIff(events, ip, now);
    OneMoreRequest(events, ip, now);
  }

  lemma OneMoreRequest(events: seq<Event>, ip: string, now: int)
    ensures Allowed(events + [Request(ip, now)], ip) ==
            if Allows(QueueOf(Run(events), ip), now) then Allowed(events, ip) + [now] else Allowed(events, ip)
  {
    assert (events + [Request(ip, now)])[..|events|] == events;
  }

  lemma EarlierEvents(events: seq<Event>, e: Event)
    requires ClockNeverBack(events + [e])
    ensures ClockNeverBack(events) && forall i :: 0 <= i < |events| ==> events[i].now <= e.now
  {
    var all := events + [e];
    forall i, j | 0 <= i <= j < |events|
      ensures events[i].now <= events[j].now
    {
      assert all[i].now <= all[j].now;
    }
    forall i | 0 <= i < |events|
      ensures events[i].now <= e.now
    {
      assert all[i].now <= all[|events|].now;
    }
  }

  lemma AllowsIff(events: seq<Event>, ip: string, now: int)
    requires ClockNeverBack(events) && forall i :: 0 <= i < |events| ==> events[i].now <= now
    ensures CountIn(Allowed(events, ip), now - 60_000, now) <= 100
    ensures Allows(QueueOf(Run(events), ip), now) <==> CountIn(Allowed(events, ip), now - 60_000, now) < 100
  {
    RunRemembers(events, ip, now);
    QueueCountsWindow(Allowed(events, ip), QueueOf(Run(events), ip), now);
    SlidingWindowSafe(events, ip, now - WINDOW, now);
  }

  /** k requests of one address at the same instant. */
  function AtOnce(ip: string, t: int, k: nat): (events: seq<Event>)
    ensures |events| == k && forall i :: 0 <= i < k ==> events[i] == Request(ip, t)
    decreases k
  {
    if k == 0 then [] else AtOnce(ip, t, k - 1) + [Request(ip, t)]
  }

  lemma AtOnceNeverBack(ip: string, t: int, k: nat)
    ensures ClockNeverBack(AtOnce(ip, t, k))
  {
  }

  predicate AllAt(times: seq<int>, t: int, n: nat) {
    |times| == n && forall i :: 0 <= i < n ==> times[i] == t
  }

  lemma GrantOneMore(events: seq<Event>, ip: string, t: int, n: nat)
    requires ClockNeverBack(events + [Request(ip, t)]) && AllAt(Allowed(events, ip), t, n)
    ensures AllAt(Allowed(events + [Request(ip, t)], ip), t, if n == 100 then 100 else n + 1)
  {
    CountAll(Allowed(events, ip), t - 60_000, t);
    RequestRefusedIff(events, ip, t);
  }

  /** The limit is granted in full: of any number of requests at one instant, 100 are allowed, or all. */
  lemma {:induction false} LimitGranted(ip: string, t: int, k: nat)
    ensures AllAt(Allowed(AtOnce(ip, t, k), ip), t, if k <= 100 then k else 100)
    decreases k
  {
    if k > 0 {
      LimitGranted(ip, t, k - 1);
      AtOnceNeverBack(ip, t, k);
      GrantOneMore(AtOnce(ip, t, k - 1), ip, t, if k <= 100 then k - 1 else 100);
    }
  }

  class ProxyServer {
    var rateLimiters: map<string, RateLimiter>

    /** Every address has a limiter of its own. */
    ghost predicate Valid()
      reads this
    {
      forall a, b :: a in rateLimiters && b in rateLimiters && a != b ==> rateLimiters[a] != rateLimiters[b]
    }

    ghost function Limiters(): Limiters
      reads this, rateLimiters.Values
    {
      map ip | ip in rateLimiters :: rateLimiters[ip].requestTimes
    }

    constructor ()
      ensures Valid() && Limiters() == map[]
    {
      rateLimiters := map[];
    }

    method CheckRequest(ip: string, now: int) returns (ok: bool)
      requires Valid()
      modifies this, rateLimiters.Values
      ensures Valid() && fresh(rateLimiters.Values - old(rateLimiters.Values))
      ensures ok <==> Allows(QueueOf(old(Limiters()), ip), now)
      ensures Limiters() == Step(old(Limiters()), Request(ip, now))
    {
      ghost var m := Limiters();
      if ip !in rateLimiters {
        var limiter := new RateLimiter();
        rateLimiters := rateLimiters[ip := limiter];
      }
      var limiter := rateLimiters[ip];
      assert limiter.requestTimes == QueueOf(m, ip);
      ok := limiter.AllowRequest(now);
      assert forall a :: a in rateLimiters && a != ip ==> a in m && rateLimiters[a].requestTimes == m[a];
    }

    method CleanupLimiters(now: int)
      requires Valid()
      modifies this
      ensures Valid() && rateLimiters.Values <= old(rateLimiters.Values)
      ensures Limiters() == Step(old(Limiters()), Cleanup(now))
      ensures forall ip :: ip in Limiters() <==>
                ip in old(Limiters()) && old(Limiters())[ip] != [] && now - old(Limiters())[ip][0] <= 120_000
      ensures forall ip :: ip in Limiters() ==> Limiters()[ip] == old(Limiters())[ip]
    {
      rateLimiters := map ip | ip in rateLimiters && !rateLimiters[ip].IsExpired(now) :: rateLimiters[ip];
    }
  }

  // ----- The fixed window of one key -----

  datatype RateLimit = RateLimit(count: nat, windowStart: uint64)

  /** The difference of two clock readings in unsigned 64-bit arithmetic. */
  function Gap(now: uint64, start: uint64): uint64 {
    (now - start) % TWO_TO_THE_64
  }

  lemma GapForward(now: uint64, start: uint64)
    requires start <= now
    ensures Gap(now, start) == now - start
  {
  }

  predicate Reopens(state: Option<RateLimit>, window: uint64, now: uint64) {
    state == None || Gap(now, state.value.windowStart) > window
  }

  function Next(state: Option<RateLimit>, window: uint64, now: uint64): RateLimit {
    if Reopens(state, window, now) then RateLimit(1, now) else state.value.(count := state.value.count + 1)
  }

  /** The call that opens a window is never limited. */
  predicate Limited(state: Option<RateLimit>, maxAttempts: nat, window: uint64, now: uint64) {
    !Reopens(state, window, now) && state.value.count + 1 > maxAttempts
  }

  class IntrusionDetection {
    var rateLimits: map<string, RateLimit>

    constructor ()
      ensures rateLimits == map[]
    {
      rateLimits := map[];
    }

    function StateOf(key: string): Option<RateLimit>
      reads this
    {
      if key in rateLimits then Some(rateLimits[key]) else None
    }

    method IsRateLimited(key: string, maxAttempts: nat, window: uint64, now: uint64) returns (limited: bool)
      modifies this
      ensures limited <==> Limited(old(StateOf(key)), maxAttempts, window, now)
      ensures rateLimits == old(rateLimits)[key := Next(old(StateOf(key)), window, now)]
    {
      if key !in rateLimits {
        rateLimits := rateLimits[key := RateLimit(1, now)];
        return false;
      }
      var entry := rateLimits[key];
      if (now - entry.windowStart) % TWO_TO_THE_64 > window {
        rateLimits := rateLimits[key := RateLimit(1, now)];
        return false;
      }
      entry := entry.(count := entry.count + 1);
      rateLimits := rateLimits[key := entry];
      limited := entry.count > maxAttempts;
    }
  }

  function RunFixed(calls: seq<uint64>, window: uint64): Option<RateLimit>
    decreases |calls|
  {
    if calls == [] then None else Some(Next(RunFixed(calls[..|calls| - 1], window), window, calls[|calls| - 1]))
  }

  function AllowedFixed(calls: seq<uint64>, maxAttempts: nat, window: uint64): seq<uint64>
    decreases |calls|
  {
    if calls == [] then []
    else
      var init, now := calls[..|calls| - 1], calls[|calls| - 1];
      AllowedFixed(init, maxAttempts, window) +
      if Limited(RunFixed(init, window), maxAttempts, window, now) then [] else [now]
  }

  /** At least the opening call of a window is allowed. */
  function PerWindow(maxAttempts: nat): (m: nat)
    ensures m >= 1
  {
    if maxAttempts == 0 then 1 else maxAttempts
  }

  /** The most calls allowed in a closed interval as long as the window. A window of 0 leaves no room
      for two of them in one interval, and the longest window never reopens. */
  function Most(m: nat, window: uint64): (n: nat)
    requires m >= 1
    ensures n >= 1
  {
    if 0 < window < TWO_TO_THE_64 - 1 then 2 * m - 1 else m
  }

  /** The current window's allowed calls are allowed[s..], the ones before it allowed[r..s]. */
  ghost predicate Windows(allowed: seq<uint64>, state: RateLimit, m: nat, window: uint64, clock: uint64, r: nat, s: nat) {
    && m >= 1 && r <= s < |allowed| && Sorted(allowed) && Spaced(allowed, Most(m, window), window)
    && (forall i :: 0 <= i < |allowed| ==> allowed[i] <= clock)
    && allowed[s] == state.windowStart && allowed[|allowed| - 1] <= state.windowStart + window
    && |allowed| - s == (if state.count <= m then state.count else m)
    && state.count >= 1
    && s - r <= m && (s == 0 || r < s) && (r > 0 || s <= m)
    && (s > 0 ==> allowed[s - 1] <= allowed[r] + window < allowed[s])
  }

  lemma SameWindow(allowed: seq<uint64>, state: RateLimit, m: nat, window: uint64, clock: uint64, r: nat, s: nat,
                   now: uint64)
    requires Windows(allowed, state, m, window, clock, r, s) && clock <= now
    requires now - state.windowStart <= window
    ensures var next := state.(count := state.count + 1);
            Windows(if next.count > m then allowed else allowed + [now], next, m, window, now, r, s)
  {
    var n := Most(m, window);
    if state.count + 1 <= m {
      if |allowed| >= n {
        if n == 2 * m - 1 && m > 1 {
          assert |allowed| - n <= r;
        } else {
          assert |allowed| - n <= s - 1 && allowed[|allowed| - n] <= allowed[s - 1];
        }
      }
      SpacedAppend(allowed, n, window, now);
    }
  }

  lemma NewWindow(allowed: seq<uint64>, state: RateLimit, m: nat, window: uint64, clock: uint64, r: nat, s: nat,
                  now: uint64)
    requires Windows(allowed, state, m, window, clock, r, s) && clock <= now
    requires now - state.windowStart > window
    ensures Windows(allowed + [now], RateLimit(1, now), m, window, now, s, |allowed|)
  {
    var n := Most(m, window);
    if |allowed| >= n {
      assert |allowed| - n <= s;
    }
    SpacedAppend(allowed, n, window, now);
  }

  lemma CallKeepsWindows(allowed: seq<uint64>, state: RateLimit, maxAttempts: nat, window: uint64, clock: uint64,
                         r: nat, s: nat, now: uint64)
    returns (r': nat, s': nat)
    requires Windows(allowed, state, PerWindow(maxAttempts), window, clock, r, s) && clock <= now
    ensures Windows(AfterCall(allowed, state, maxAttempts, window, now), Next(Some(state), window, now),
                    PerWindow(maxAttempts), window, now, r', s')
  {
    var m := PerWindow(maxAttempts);
    assert state.windowStart <= clock;
    GapForward(now, state.windowStart);
    if now - state.windowStart > window {
      NewWindow(allowed, state, m, window, clock, r, s, now);
      r', s' := s, |allowed|;
    } else {
      SameWindow(allowed, state, m, window, clock, r, s, now);
      assert allowed + [] == allowed;
      r', s' := r, s;
    }
  }

  lemma {:induction false} RunFixedWindows(calls: seq<uint64>, maxAttempts: nat, window: uint64) returns (r: nat, s: nat)
    requires calls != [] && Sorted(calls)
    ensures Windows(AllowedFixed(calls, maxAttempts, window), RunFixed(calls, window).value, PerWindow(maxAttempts),
                    window, calls[|calls| - 1], r, s)
    decreases |calls|
  {
    var init, now, m := calls[..|calls| - 1], calls[|calls| - 1], PerWindow(maxAttempts);
    if init == [] {
      assert AllowedFixed(calls, maxAttempts, window) == [now];
      r, s := 0, 0;
    } else {
      r, s := RunFixedWindows(init, maxAttempts, window);
      var a, state := AllowedFixed(init, maxAttempts, window), RunFixed(init, window);
      r, s := CallKeepsWindows(a, state.value, maxAttempts, window, init[|init| - 1], r, s, now);
      assert AllowedFixed(calls, maxAttempts, window) == AfterCall(a, state.value, maxAttempts, window, now);
      assert RunFixed(calls, window).value == Next(state, window, now);
    }
  }

  function AfterCall(allowed: seq<uint64>, state: RateLimit, maxAttempts: nat, window: uint64, now: uint64): seq<uint64> {
    allowed + if Limited(Some(state), maxAttempts, window, now) then [] else [now]
  }

  /** A closed interval as long as the window holds at most twice the limit less one; at most the
      limit for the shortest and the longest window. */
  lemma FixedWindowBound(calls: seq<uint64>, maxAttempts: nat, window: uint64, lo: int, hi: int)
    requires Sorted(calls) && hi - lo <= window
    ensures CountIn(AllowedFixed(calls, maxAttempts, window), lo, hi) <= Most(PerWindow(maxAttempts), window)
  {
    if calls != [] {
      var r, s := RunFixedWindows(calls, maxAttempts, window);
      SpacedBound(AllowedFixed(calls, maxAttempts, window), Most(PerWindow(maxAttempts), window), window, lo, hi);
    }
  }

  function Repeat(t: uint64, k: nat): (r: seq<uint64>)
    ensures |r| == k
    decreases k
  {
    if k == 0 then [] else Repeat(t, k - 1) + [t]
  }

  lemma {:induction false} RepeatedValue(t: uint64, k: nat)
    ensures forall i :: 0 <= i < k ==> Repeat(t, k)[i] == t
    decreases k
  {
    if k > 0 { RepeatedValue(t, k - 1); }
  }

  ghost predicate Reaches(calls: seq<uint64>, maxAttempts: nat, window: uint64, state: RateLimit, allowed: seq<uint64>) {
    RunFixed(calls, window) == Some(state) && AllowedFixed(calls, maxAttempts, window) == allowed
  }

  lemma CallWithinLimit(calls: seq<uint64>, m: nat, window: uint64, state: RateLimit, allowed: seq<uint64>, t: uint64)
    requires Reaches(calls, m, window, state, allowed)
    requires 0 <= t - state.windowStart <= window && state.count + 1 <= m
    ensures Reaches(calls + [t], m, window, RateLimit(state.count + 1, state.windowStart), allowed + [t])
  {
    GapForward(t, state.windowStart);
    assert (calls + [t])[..|calls|] == calls;
  }

  lemma CallReopens(calls: seq<uint64>, m: nat, window: uint64, state: RateLimit, allowed: seq<uint64>, t: uint64)
    requires Reaches(calls, m, window, state, allowed) && t - state.windowStart > window
    ensures Reaches(calls + [t], m, window, RateLimit(1, t), allowed + [t])
  {
    GapForward(t, state.windowStart);
    assert (calls + [t])[..|calls|] == calls;
  }

  lemma {:induction false} RepeatWithinLimit(calls: seq<uint64>, m: nat, window: uint64, state: RateLimit,
                                             allowed: seq<uint64>, t: uint64, k: nat)
    requires Reaches(calls, m, window, state, allowed)
    requires 0 <= t - state.windowStart <= window && (k == 0 || state.count + k <= m)
    ensures Reaches(calls + Repeat(t, k), m, window, RateLimit(state.count + k, state.windowStart),
                    allowed + Repeat(t, k))
    decreases k
  {
    if k == 0 {
      assert calls + [] == calls && allowed + [] == allowed;
    } else {
      RepeatWithinLimit(calls, m, window, state, allowed, t, k - 1);
      CallWithinLimit(calls + Repeat(t, k - 1), m, window, RateLimit(state.count + k - 1, state.windowStart),
                      allowed + Repeat(t, k - 1), t);
      ConcatAssociates(calls, Repeat(t, k - 1), [t]);
      ConcatAssociates(allowed, Repeat(t, k - 1), [t]);
    }
  }

  lemma {:induction false} CountRepeat(t: uint64, k: nat, lo: int, hi: int)
    requires lo <= t <= hi
    ensures CountIn(Repeat(t, k), lo, hi) == k
    decreases k
  {
    if k > 0 {
      CountRepeat(t, k - 1, lo, hi);
      assert Repeat(t, k)[..k - 1] == Repeat(t, k - 1);
    }
  }

  /** One call, the rest of the limit at time w, and nothing more. */
  function Burst(m: nat, w: uint64): seq<uint64>
    requires m >= 1
  {
    [0] + Repeat(w, m - 1)
  }

  lemma BurstAllowed(maxAttempts: nat, w: uint64, window: uint64)
    requires w <= window
    ensures var m := PerWindow(maxAttempts);
            Reaches(Burst(m, w), maxAttempts, window, RateLimit(m, 0), Burst(m, w))
  {
    assert [0][..0] == [];
    assert Reaches([0], maxAttempts, window, RateLimit(1, 0), [0]);
    RepeatWithinLimit([0], maxAttempts, window, RateLimit(1, 0), [0], w, PerWindow(maxAttempts) - 1);
  }

  /** One call, the rest of the limit as the window ends, and a full limit one tick later. */
  function Bursts(m: nat, w: uint64): seq<uint64>
    requires m >= 1 && w < TWO_TO_THE_64 - 1
  {
    Burst(m, w) + [w + 1] + Repeat(w + 1, m - 1)
  }

  /** None of these calls is limited. */
  lemma BurstsAllowed(maxAttempts: nat, w: uint64)
    requires 1 <= w < TWO_TO_THE_64 - 1
    ensures var calls := Bursts(PerWindow(maxAttempts), w); AllowedFixed(calls, maxAttempts, w) == calls
  {
    var m := PerWindow(maxAttempts);
    var first := Burst(m, w);
    BurstAllowed(maxAttempts, w, w);
    CallReopens(first, maxAttempts, w, RateLimit(m, 0), first, w + 1);
    RepeatWithinLimit(first + [w + 1], maxAttempts, w, RateLimit(1, w + 1), first + [w + 1], w + 1, m - 1);
  }

  lemma BurstsSorted(m: nat, w: uint64)
    requires m >= 1 && w < TWO_TO_THE_64 - 1
    ensures Sorted(Bursts(m, w)) && Sorted(Burst(m, 0))
  {
    RepeatedValue(w, m - 1);
    RepeatedValue(w + 1, m - 1);
    RepeatedValue(0, m - 1);
  }

  lemma CountBurst(m: nat, w: uint64, lo: int, hi: int)
    requires m >= 1 && 0 <= lo <= w <= hi
    ensures CountIn(Burst(m, w), lo, hi) == m - if lo == 0 then 0 else 1
  {
    CountConcat([0], Repeat(w, m - 1), lo, hi);
    CountRepeat(w, m - 1, lo, hi);
    CountSingle(0, lo, hi);
  }

  lemma CountBursts(m: nat, w: uint64)
    requires m >= 1 && 1 <= w < TWO_TO_THE_64 - 1
    ensures CountIn(Bursts(m, w), w, w + 1) == 2 * m - 1
  {
    var first := Burst(m, w);
    CountBurst(m, w, w, w + 1);
    CountConcat(first, [w + 1], w, w + 1);
    CountConcat(first + [w + 1], Repeat(w + 1, m - 1), w, w + 1);
    CountRepeat(w + 1, m - 1, w, w + 1);
    CountSingle(w + 1, w, w + 1);
  }

  /** For every limit and window some run and interval reach the bound, so the fixed window does not
      promise the limit itself. */
  lemma FixedWindowBoundReached(maxAttempts: nat, window: uint64) returns (calls: seq<uint64>, lo: int, hi: int)
    ensures Sorted(calls) && hi - lo <= window
    ensures CountIn(AllowedFixed(calls, maxAttempts, window), lo, hi) == Most(PerWindow(maxAttempts), window)
  {
    var m := PerWindow(maxAttempts);
    if 0 < window < TWO_TO_THE_64 - 1 {
      calls, lo, hi := Bursts(m, window), window, window + 1;
      BurstsAllowed(maxAttempts, window);
      BurstsSorted(m, window);
      CountBursts(m, window);
    } else {
      calls, lo, hi := Burst(m, 0), 0, 0;
      BurstAllowed(maxAttempts, 0, window);
      BurstsSorted(m, 0);
      CountBurst(m, 0, 0, 0);
    }
  }

  lemma CountSingle(t: int, lo: int, hi: int)
    ensures CountIn([t], lo, hi) == if lo <= t <= hi then 1 else 0
  {
    assert [t][..0] == [];
  }
}
