/** The limiter against its specification: one bucket per client that is never evicted. */
module RateLimitTheorems {
  import opened Common
  import opened RateLimit

  datatype Request = Request(ip: string, at: Instant)

  predicate Ordered(requests: seq<Request>) {
    forall i, j :: 0 <= i < j < |requests| ==> requests[i].at <= requests[j].at
  }

  // The limiter's map after a run that began with an empty map.
  function Table(p: Limits, requests: seq<Request>): map<string, Entry> {
    if requests == [] then map[]
    else
      var last := requests[|requests| - 1];
      Serve(p, Table(p, requests[..|requests| - 1]), last.ip, last.at).0
  }

  // The limiter's verdict on the last request of a run.
  function Verdict(p: Limits, requests: seq<Request>): bool
    requires requests != []
  {
    var last := requests[|requests| - 1];
    Serve(p, Table(p, requests[..|requests| - 1]), last.ip, last.at).1
  }

  // ---- the specification: a client's own bucket ----

  function Own(requests: seq<Request>, ip: string): seq<Instant> {
    if requests == [] then []
    else
      var last := requests[|requests| - 1];
      Own(requests[..|requests| - 1], ip) + if last.ip == ip then [last.at] else []
  }

  // The bucket as the client's next request at time now finds it: full before the first one.
  function BucketAt(p: Limits, times: seq<Instant>, now: Instant): Bucket {
    if times == [] then FullBucket(p, now)
    else
      var last := times[|times| - 1];
      Allow(p, BucketAt(p, times[..|times| - 1], last), last).0
  }

  function IsolatedVerdict(p: Limits, times: seq<Instant>): bool
    requires times != []
  {
    var last := times[|times| - 1];
    Allow(p, BucketAt(p, times[..|times| - 1], last), last).1
  }

  // ---- token arithmetic ----

  lemma RefillAdds(rpm: int, a: int, b: int)
    ensures Refill(rpm, a) + Refill(rpm, b) == Refill(rpm, a + b)
  {
    assert rpm * a + rpm * b == rpm * (a + b);
  }

  lemma RefillMonotone(rpm: int, a: int, b: int)
    requires rpm >= 0 && a <= b
    ensures Refill(rpm, a) <= Refill(rpm, b)
    ensures a == 0 ==> Refill(rpm, a) == 0.0
  {
    assert rpm * a <= rpm * b;
  }

  // A client idle for more than fifteen minutes has a full bucket again.
  predicate SweepSafe(p: Limits) {
    p.burst * MINUTE <= p.rpm * (IDLE + 1)
  }

  predicate WellSet(p: Limits) {
    p.rpm >= 1 && p.burst >= 1
  }

  // Every call site of the limiter satisfies it, at every positive rate.
  lemma CallSitesAreSafe(rpm: int)
    requires rpm >= 1
    ensures SweepSafe(Limits(rpm, EffectiveBurst(rpm, LoginBurst(rpm))))
    ensures SweepSafe(Limits(rpm, EffectiveBurst(rpm, 5))) && SweepSafe(Limits(rpm, EffectiveBurst(rpm, 2)))
    ensures SweepSafe(Limits(rpm, EffectiveBurst(rpm, 0)))
  {
    assert LoginBurst(rpm) <= 5 * rpm;
  }

  predicate IsFull(p: Limits, b: Bucket, now: Instant) {
    b.tokens + Refill(p.rpm, now - b.last) >= p.burst as real
  }

  // Exactly then is every bucket that the sweep may drop full at the time it is dropped.
  lemma IdleBucketsFullIffSafe(p: Limits)
    requires WellSet(p)
    ensures SweepSafe(p) <==>
            forall b: Bucket, now: Instant :: b.tokens >= 0.0 && b.last < now - IDLE ==> IsFull(p, b, now)
  {
    if SweepSafe(p) {
      forall b: Bucket, now: Instant | b.tokens >= 0.0 && b.last < now - IDLE ensures IsFull(p, b, now) {
        IdleBucketIsFull(p, b, now);
      }
    } else {
      var b := Bucket(0.0, 0);
      assert (p.rpm * (IDLE + 1)) as real < (p.burst * MINUTE) as real;
      assert !IsFull(p, b, IDLE + 1);
    }
  }

  lemma IdleBucketIsFull(p: Limits, b: Bucket, now: Instant)
    requires WellSet(p) && SweepSafe(p) && b.tokens >= 0.0 && b.last < now - IDLE
    ensures IsFull(p, b, now)
  {
    RefillMonotone(p.rpm, IDLE + 1, now - b.last);
    assert (p.burst * MINUTE) as real <= (p.rpm * (IDLE + 1)) as real;
  }

  // ---- the sweep is invisible ----

  lemma OwnOfPrefix(requests: seq<Request>, ip: string)
    requires Ordered(requests)
    ensures forall t :: t in Own(requests, ip) ==> requests != [] && t <= requests[|requests| - 1].at
    ensures Own(requests, ip) == [] ==> forall r :: r in requests ==> r.ip != ip
    decreases |requests|
  {
    if requests != [] {
      var prefix := requests[..|requests| - 1];
      OwnOfPrefix(prefix, ip);
      assert requests == prefix + [requests[|requests| - 1]];
      if prefix != [] {
        assert prefix[|prefix| - 1] == requests[|prefix| - 1];
      }
    }
  }

  // A bucket in use holds between nothing and its burst, and was last drawn at some request.
  lemma {:induction false} BucketBounds(p: Limits, times: seq<Instant>, now: Instant)
    requires WellSet(p)
    requires forall i, j :: 0 <= i < j < |times| ==> times[i] <= times[j]
    ensures var b := BucketAt(p, times, now);
            0.0 <= b.tokens <= p.burst as real && (times != [] ==> b.last <= times[|times| - 1])
            && (times == [] ==> b.last == now)
    decreases |times|
  {
    if times != [] {
      var n := |times| - 1;
      BucketBounds(p, times[..n], times[n]);
      if n > 0 {
        assert times[..n][n - 1] <= times[n];
      }
    }
  }

  // What the map knows of one client: the bucket of its own, or nothing when that bucket is full.
  ghost predicate Tracks(p: Limits, table: map<string, Entry>, times: seq<Instant>, ip: string, now: Instant) {
    if ip in table then
      && times != []
      && table[ip] == Entry(BucketAt(p, times, now), times[|times| - 1])
    else
      times == [] || IsFull(p, BucketAt(p, times, now), now)
  }

  predicate Rising(times: seq<Instant>, now: Instant) {
    && (forall i, j :: 0 <= i < j < |times| ==> times[i] <= times[j])
    && (times != [] ==> times[|times| - 1] <= now)
  }

  lemma OwnRises(requests: seq<Request>, ip: string)
    requires Ordered(requests) && requests != []
    ensures Rising(Own(requests, ip), requests[|requests| - 1].at)
    decreases |requests|
  {
    var prefix := requests[..|requests| - 1];
    if prefix != [] {
      OwnRises(prefix, ip);
      assert prefix[|prefix| - 1].at <= requests[|requests| - 1].at;
    }
  }

  // A full bucket stays full, and a swept client had one.
  lemma TracksAfterSweep(p: Limits, table: map<string, Entry>, times: seq<Instant>, ip: string, before: Instant, now: Instant)
    requires WellSet(p) && SweepSafe(p) && before <= now && Rising(times, before)
    requires Tracks(p, table, times, ip, before)
    ensures Tracks(p, Sweep(table, now), times, ip, now)
  {
    hide SweepSafe;
    if times != [] {
      var b := BucketAt(p, times, now);
      assert b == BucketAt(p, times, before);
      BucketBounds(p, times, now);
      if ip !in table {
        RefillMonotone(p.rpm, before - b.last, now - b.last);
      } else if ip !in Sweep(table, now) {
        IdleBucketIsFull(p, b, now);
      }
    }
  }

  // Serving a tracked client gives the verdict of its own bucket, and keeps every client tracked.
  lemma ServeTracks(p: Limits, table: map<string, Entry>, times: seq<Instant>, ip: string, before: Instant, now: Instant)
    requires WellSet(p) && SweepSafe(p) && before <= now && Rising(times, before)
    requires Tracks(p, table, times, ip, before)
    ensures var (after, allowed) := Serve(p, table, ip, now);
            Tracks(p, after, times + [now], ip, now) && allowed == IsolatedVerdict(p, times + [now])
  {
    TracksAfterSweep(p, table, times, ip, before, now);
    hide Sweep, SweepSafe;
    var kept := Sweep(table, now);
    assert (times + [now])[..|times|] == times;
    var own := BucketAt(p, times, now);
    var used := if ip in kept then kept[ip].bucket else FullBucket(p, now);
    RefillMonotone(p.rpm, 0, 0);
    assert Level(p, used, now) == Level(p, own, now);
    if ip !in kept {
      assert Level(p, own, now) == p.burst as real >= 1.0;
    }
  }

  lemma {:induction false} RunTracks(p: Limits, requests: seq<Request>, ip: string)
    requires WellSet(p) && SweepSafe(p) && Ordered(requests) && requests != []
    ensures Tracks(p, Table(p, requests), Own(requests, ip), ip, requests[|requests| - 1].at)
    decreases |requests|
  {
    hide SweepSafe, Serve, Tracks, BucketAt;
    var n := |requests| - 1;
    var prefix, last := requests[..n], requests[n];
    var before := if n == 0 then last.at else prefix[n - 1].at;
    TracksInPrefix(p, requests, ip);
    if last.ip == ip {
      ServeTracks(p, Table(p, prefix), Own(prefix, ip), ip, before, last.at);
    } else {
      TracksAfterSweep(p, Table(p, prefix), Own(prefix, ip), ip, before, last.at);
      OthersUnserved(p, Table(p, prefix), Own(prefix, ip), ip, last);
      assert Own(requests, ip) == Own(prefix, ip);
    }
  }

  // Before its last request, a run tracks the client as of the request before.
  lemma {:induction false} TracksInPrefix(p: Limits, requests: seq<Request>, ip: string)
    requires WellSet(p) && SweepSafe(p) && Ordered(requests) && requests != []
    ensures var n := |requests| - 1;
            var before := if n == 0 then requests[n].at else requests[n - 1].at;
            before <= requests[n].at
            && Rising(Own(requests[..n], ip), before)
            && Tracks(p, Table(p, requests[..n]), Own(requests[..n], ip), ip, before)
    decreases |requests|, 0
  {
    var n := |requests| - 1;
    if n > 0 {
      assert requests[..n][n - 1] == requests[n - 1];
      OwnRises(requests[..n], ip);
      RunTracks(p, requests[..n], ip);
    }
  }

  lemma OthersUnserved(p: Limits, table: map<string, Entry>, times: seq<Instant>, ip: string, other: Request)
    requires other.ip != ip && Tracks(p, Sweep(table, other.at), times, ip, other.at)
    ensures Tracks(p, Serve(p, table, other.ip, other.at).0, times, ip, other.at)
  {
  }

  // Main result: on every run with a steady clock, whatever is swept and whenever, the limiter
  // decides each request as the client's own never-evicted bucket would.
  lemma SweepIsInvisible(p: Limits, requests: seq<Request>)
    requires WellSet(p) && SweepSafe(p) && Ordered(requests) && requests != []
    ensures var ip := requests[|requests| - 1].ip;
            Own(requests, ip) != [] && Verdict(p, requests) == IsolatedVerdict(p, Own(requests, ip))
  {
    hide SweepSafe, Serve, Tracks, BucketAt, IsolatedVerdict;
    var n := |requests| - 1;
    var last := requests[n];
    var prefix := requests[..n];
    TracksInPrefix(p, requests, last.ip);
    var before := if n == 0 then last.at else requests[n - 1].at;
    ServeTracks(p, Table(p, prefix), Own(prefix, last.ip), last.ip, before, last.at);
  }

  // ---- the bound on any window ----

  // Requests of a client let through at or after an instant, counted on its own bucket.
  function AllowedSince(p: Limits, times: seq<Instant>, from: Instant): nat {
    if times == [] then 0
    else
      AllowedSince(p, times[..|times| - 1], from)
      + if times[|times| - 1] >= from && IsolatedVerdict(p, times) then 1 else 0
  }

  lemma AllowedSinceLater(p: Limits, times: seq<Instant>, from: Instant)
    requires Rising(times, from - 1)
    ensures AllowedSince(p, times, from) == 0
    decreases |times|
  {
    if times != [] {
      var n := |times| - 1;
      if n > 0 {
        assert times[n - 1] <= times[n];
      }
      AllowedSinceLater(p, times[..n], from);
    }
  }

  lemma LevelGrowth(p: Limits, b: Bucket, s: Instant, t: Instant)
    requires p.rpm >= 0 && s <= t
    ensures Level(p, b, t) <= Level(p, b, s) + Refill(p.rpm, t - s)
  {
    RefillAdds(p.rpm, s - b.last, t - s);
    RefillMonotone(p.rpm, 0, t - s);
  }

  // Tokens spent in the window and tokens left are covered by the burst and the refill.
  lemma {:induction false} TokensConserved(p: Limits, times: seq<Instant>, from: Instant)
    requires WellSet(p) && times != []
    requires Rising(times, times[|times| - 1]) && from <= times[|times| - 1]
    ensures var now := times[|times| - 1];
            AllowedSince(p, times, from) as real + Level(p, BucketAt(p, times, now), now)
            <= p.burst as real + Refill(p.rpm, now - from)
    decreases |times|
  {
    hide Level;
    var n := |times| - 1;
    var now, earlier := times[n], times[..n];
    var b := BucketAt(p, earlier, now);
    RefillMonotone(p.rpm, 0, now - from);
    SpendOne(p, b, now);
    if n > 0 && times[n - 1] >= from {
      TokensConserved(p, earlier, from);
      LevelGrowth(p, b, times[n - 1], now);
      RefillAdds(p.rpm, times[n - 1] - from, now - times[n - 1]);
      assert b == BucketAt(p, earlier, times[n - 1]);
    } else {
      AllowedSinceLater(p, earlier, from);
      LevelAtMostBurst(p, b, now);
    }
  }

  lemma LevelAtMostBurst(p: Limits, b: Bucket, now: Instant)
    ensures Level(p, b, now) <= p.burst as real
  {
  }

  // One verdict costs one token if it lets the request through and nothing if it does not.
  lemma SpendOne(p: Limits, b: Bucket, now: Instant)
    requires WellSet(p)
    ensures var (after, allowed) := Allow(p, b, now);
            Level(p, after, now) == Level(p, b, now) - if allowed then 1.0 else 0.0
  {
    RefillMonotone(p.rpm, 0, 0);
  }

  // Requests of a client that the limiter lets through in the window [from, to].
  function AllowedIn(p: Limits, requests: seq<Request>, ip: string, from: Instant, to: Instant): nat {
    if requests == [] then 0
    else
      var last := requests[|requests| - 1];
      AllowedIn(p, requests[..|requests| - 1], ip, from, to)
      + if last.ip == ip && from <= last.at <= to && Verdict(p, requests) then 1 else 0
  }

  lemma WindowStep(p: Limits, run: seq<Request>, r: Request, ip: string, from: Instant, to: Instant)
    ensures AllowedIn(p, run + [r], ip, from, to) ==
            AllowedIn(p, run, ip, from, to) + if r.ip == ip && from <= r.at <= to && Verdict(p, run + [r]) then 1 else 0
    ensures Own(run + [r], ip) == if r.ip == ip then Own(run, ip) + [r.at] else Own(run, ip)
  {
    hide Verdict;
    assert (run + [r])[..|run|] == run;
  }

  lemma SinceStep(p: Limits, times: seq<Instant>, t: Instant, from: Instant)
    ensures AllowedSince(p, times + [t], from) ==
            AllowedSince(p, times, from) + if t >= from && IsolatedVerdict(p, times + [t]) then 1 else 0
  {
    hide IsolatedVerdict;
    assert (times + [t])[..|times|] == times;
  }

  lemma {:induction false} WindowCounts(p: Limits, requests: seq<Request>, ip: string, from: Instant, to: Instant)
    requires WellSet(p) && SweepSafe(p) && Ordered(requests)
    requires requests != [] ==> requests[|requests| - 1].at <= to
    ensures AllowedIn(p, requests, ip, from, to) == AllowedSince(p, Own(requests, ip), from)
    decreases |requests|
  {
    if requests != [] {
      hide SweepSafe, Verdict, IsolatedVerdict, AllowedIn, AllowedSince, Own;
      var n := |requests| - 1;
      var prefix, last := requests[..n], requests[n];
      assert requests == prefix + [last];
      assert n > 0 ==> prefix[n - 1].at <= last.at;
      WindowCounts(p, prefix, ip, from, to);
      WindowStep(p, prefix, last, ip, from, to);
      if last.ip == ip {
        SweepIsInvisible(p, requests);
        SinceStep(p, Own(prefix, ip), last.at, from);
      }
    }
  }

  // Main result: in any window of any run, sweeps included, a client gets at most its burst
  // plus what its rate refills over the window.
  lemma {:induction false} WindowBound(p: Limits, requests: seq<Request>, ip: string, from: Instant, to: Instant)
    requires WellSet(p) && SweepSafe(p) && Ordered(requests) && from <= to
    ensures AllowedIn(p, requests, ip, from, to) as real <= p.burst as real + Refill(p.rpm, to - from)
    decreases |requests|
  {
    hide SweepSafe, Verdict, Level;
    RefillMonotone(p.rpm, 0, to - from);
    if requests != [] {
      var n := |requests| - 1;
      if requests[n].at > to {
        WindowBound(p, requests[..n], ip, from, to);
      } else {
        WindowCounts(p, requests, ip, from, to);
        OwnRises(requests, ip);
        var times := Own(requests, ip);
        if times != [] && from <= times[|times| - 1] {
          var now := times[|times| - 1];
          TokensConserved(p, times, from);
          BucketBounds(p, times, now);
          LevelNotNegative(p, BucketAt(p, times, now), now);
          RefillMonotone(p.rpm, now - from, to - from);
        } else if times != [] {
          AllowedSinceLater(p, times, from);
        }
      }
    }
  }

  lemma LevelNotNegative(p: Limits, b: Bucket, now: Instant)
    requires WellSet(p) && b.tokens >= 0.0 && b.last <= now
    ensures Level(p, b, now) >= 0.0
  {
    RefillMonotone(p.rpm, 0, now - b.last);
  }

  // ---- and only then is it invisible ----

  function Client(k: nat): (name: string)
    ensures |name| == k
  {
    seq(k, _ => 'x')
  }

  // The first client spends its burst at time 0, a crowd of other clients follows, and just
  // after the idle time the first client comes back.
  function Burst(n: nat): seq<Request> {
    if n == 0 then [] else Burst(n - 1) + [Request(Client(0), 0)]
  }

  function Crowd(p: Limits, m: nat): seq<Request>
    requires WellSet(p)
  {
    if m == 0 then Burst(p.burst) else Crowd(p, m - 1) + [Request(Client(m), 0)]
  }

  function Comeback(p: Limits, n: nat): seq<Request>
    requires WellSet(p)
  {
    if n == 0 then Crowd(p, MAX_ENTRIES) else Comeback(p, n - 1) + [Request(Client(0), IDLE + 1)]
  }

  lemma Appended(p: Limits, run: seq<Request>, r: Request)
    ensures Table(p, run + [r]) == Serve(p, Table(p, run), r.ip, r.at).0
    ensures Verdict(p, run + [r]) == Serve(p, Table(p, run), r.ip, r.at).1
    ensures Own(run + [r], r.ip) == Own(run, r.ip) + [r.at]
    ensures forall ip :: ip != r.ip ==> Own(run + [r], ip) == Own(run, ip)
  {
    assert (run + [r])[..|run|] == run;
  }

  lemma DrawnAgain(p: Limits, times: seq<Instant>, t: Instant, now: Instant)
    ensures BucketAt(p, times + [t], now) == Allow(p, BucketAt(p, times, t), t).0
    ensures IsolatedVerdict(p, times + [t]) == Allow(p, BucketAt(p, times, t), t).1
  {
    assert (times + [t])[..|times|] == times;
  }

  lemma DrawNow(p: Limits, b: Bucket)
    requires WellSet(p) && b.tokens <= p.burst as real
    ensures Level(p, b, b.last) == b.tokens
    ensures b.tokens >= 1.0 ==> Allow(p, b, b.last) == (Bucket(b.tokens - 1.0, b.last), true)
  {
    RefillMonotone(p.rpm, 0, 0);
  }

  // A request on a table too small to be swept changes the client's own entry only.
  lemma UnsweptServe(p: Limits, table: map<string, Entry>, ip: string, now: Instant)
    requires |table| <= MAX_ENTRIES
    ensures var (bucket, allowed) := Allow(p, if ip in table then table[ip].bucket else FullBucket(p, now), now);
            Serve(p, table, ip, now) == (table[ip := Entry(bucket, now)], allowed)
  {
    hide Allow;
  }

  // Drawing one of k whole tokens at the time of the last draw leaves k - 1.
  lemma DrawWhole(p: Limits, k: nat, now: Instant)
    requires WellSet(p) && 1 <= k <= p.burst
    ensures Allow(p, Bucket(k as real, now), now) == (Bucket((k - 1) as real, now), true)
  {
    DrawNow(p, Bucket(k as real, now));
    assert (k - 1) as real == k as real - 1.0;
  }

  lemma {:induction false} BurstSpends(p: Limits, n: nat, now: Instant)
    requires WellSet(p) && 1 <= n <= p.burst
    ensures Table(p, Burst(n)) == map[Client(0) := Entry(Bucket((p.burst - n) as real, 0), 0)]
    ensures BucketAt(p, Own(Burst(n), Client(0)), now) == Bucket((p.burst - n) as real, 0)
    decreases n
  {
    hide Allow, BucketAt, Own, Verdict, Client, Table, Serve, Level, Refill;
    var earlier := Burst(n - 1);
    var left := p.burst - n + 1;
    var b := Bucket(left as real, 0);
    Appended(p, earlier, Request(Client(0), 0));
    DrawnAgain(p, Own(earlier, Client(0)), 0, now);
    DrawWhole(p, left, 0);
    var table := Table(p, earlier);
    if n > 1 {
      BurstSpends(p, n - 1, 0);
    } else {
      NoHistory(p, 0, Client(0));
    }
    UnsweptServe(p, table, Client(0), 0);
    assert (if Client(0) in table then table[Client(0)].bucket else FullBucket(p, 0)) == b;
    var spent := Entry(Bucket((left - 1) as real, 0), 0);
    assert table[Client(0) := spent] == map[Client(0) := spent];
  }

  lemma NoHistory(p: Limits, now: Instant, ip: string)
    ensures Own([], ip) == [] && Table(p, []) == map[] && BucketAt(p, [], now) == FullBucket(p, now)
  {
  }

  lemma {:induction false} CrowdFills(p: Limits, m: nat)
    requires WellSet(p) && m <= MAX_ENTRIES
    ensures var table := Table(p, Crowd(p, m));
            |table| == m + 1
            && forall ip :: ip in table ==> |ip| <= m && table[ip].lastSeen == 0
    ensures Own(Crowd(p, m), Client(0)) == Own(Burst(p.burst), Client(0))
    decreases m
  {
    hide Allow, BucketAt, Table, Serve, Own, Client, Verdict;
    if m == 0 {
      BurstSpends(p, p.burst, 0);
    } else {
      CrowdFills(p, m - 1);
      var table := Table(p, Crowd(p, m - 1));
      Appended(p, Crowd(p, m - 1), Request(Client(m), 0));
      UnsweptServe(p, table, Client(m), 0);
      assert Client(m) !in table;
      assert |Client(m)| != |Client(0)|;
    }
  }

  // A table full of clients idle for longer than the idle time is swept empty.
  lemma SweptEmpty(p: Limits, table: map<string, Entry>, ip: string, now: Instant)
    requires |table| > MAX_ENTRIES && forall k :: k in table ==> table[k].lastSeen < now - IDLE
    ensures var (bucket, allowed) := Allow(p, FullBucket(p, now), now);
            Serve(p, table, ip, now) == (map[ip := Entry(bucket, now)], allowed)
  {
    hide Allow;
    assert Sweep(table, now) == map[];
  }

  // The limiter has forgotten the first client: its comeback meets a fresh bucket.
  lemma {:induction false} ComebackIsFresh(p: Limits, n: nat)
    requires WellSet(p) && 1 <= n <= p.burst
    ensures Verdict(p, Comeback(p, n))
    ensures Table(p, Comeback(p, n)) == map[Client(0) := Entry(Bucket((p.burst - n) as real, IDLE + 1), IDLE + 1)]
    decreases n
  {
    hide Allow, Verdict, Table, Serve, Own, Client;
    var earlier := Comeback(p, n - 1);
    Appended(p, earlier, Request(Client(0), IDLE + 1));
    DrawWhole(p, p.burst - n + 1, IDLE + 1);
    if n == 1 {
      CrowdFills(p, MAX_ENTRIES);
      SweptEmpty(p, Table(p, earlier), Client(0), IDLE + 1);
    } else {
      ComebackIsFresh(p, n - 1);
      UnsweptServe(p, Table(p, earlier), Client(0), IDLE + 1);
    }
  }

  // In isolation the comeback draws down what the idle time refilled.
  lemma {:induction false} ComebackDrawsRefill(p: Limits, n: nat)
    requires WellSet(p) && Refill(p.rpm, IDLE + 1) < p.burst as real
    requires n as real <= Refill(p.rpm, IDLE + 1)
    ensures Level(p, BucketAt(p, Own(Comeback(p, n), Client(0)), IDLE + 1), IDLE + 1) == Refill(p.rpm, IDLE + 1) - n as real
    decreases n
  {
    hide Level, BucketAt, Table, Own, Verdict, Refill, Client, IsolatedVerdict;
    var gained := Refill(p.rpm, IDLE + 1);
    if n == 0 {
      CrowdFills(p, MAX_ENTRIES);
      BurstSpends(p, p.burst, IDLE + 1);
      LevelAfterIdle(p);
    } else {
      ComebackDrawsRefill(p, n - 1);
      Appended(p, Comeback(p, n - 1), Request(Client(0), IDLE + 1));
      DrawnAgain(p, Own(Comeback(p, n - 1), Client(0)), IDLE + 1, IDLE + 1);
      DrawNow(p, Bucket(gained - n as real, IDLE + 1));
    }
  }

  lemma LevelAfterIdle(p: Limits)
    requires Refill(p.rpm, IDLE + 1) < p.burst as real
    ensures Level(p, Bucket(0.0, 0), IDLE + 1) == Refill(p.rpm, IDLE + 1)
  {
  }

  lemma ComebackOrdered(p: Limits, n: nat)
    requires WellSet(p)
    ensures Ordered(Comeback(p, n)) && forall r :: r in Comeback(p, n) ==> r.at <= IDLE + 1
  {
    if n == 0 {
      CrowdAtOnce(p, MAX_ENTRIES);
    } else {
      ComebackOrdered(p, n - 1);
    }
  }

  lemma CrowdAtOnce(p: Limits, m: nat)
    requires WellSet(p)
    ensures forall r :: r in Crowd(p, m) ==> r.at == 0
  {
    if m == 0 {
      BurstAtOnce(p.burst);
    } else {
      CrowdAtOnce(p, m - 1);
    }
  }

  lemma BurstAtOnce(n: nat)
    ensures forall r :: r in Burst(n) ==> r.at == 0
  {
  }

  // Without the bound there is a run on which the limiter lets through what the client's own
  // bucket refuses, so the bound is exactly the condition for the sweep to be invisible.
  lemma SweepIsInvisibleOnlyIfSafe(p: Limits)
    requires WellSet(p) && !SweepSafe(p)
    ensures exists requests: seq<Request> ::
              && Ordered(requests) && requests != []
              && var own := Own(requests, requests[|requests| - 1].ip);
              && own != [] && Verdict(p, requests) != IsolatedVerdict(p, own)
  {
    hide Level, BucketAt, Verdict, IsolatedVerdict, Own, Table, Refill, Client, SweepSafe;
    var whole := RefillShort(p);
    var run, earlier := Comeback(p, whole + 1), Comeback(p, whole);
    ComebackIsFresh(p, whole + 1);
    ComebackDrawsRefill(p, whole);
    Appended(p, earlier, Request(Client(0), IDLE + 1));
    DrawnAgain(p, Own(earlier, Client(0)), IDLE + 1, IDLE + 1);
    ComebackOrdered(p, whole + 1);
    assert run[|run| - 1].ip == Client(0);
    assert !IsolatedVerdict(p, Own(run, Client(0)));
  }

  // The whole tokens that the idle time refills, fewer than the burst.
  lemma RefillShort(p: Limits) returns (whole: nat)
    requires WellSet(p) && !SweepSafe(p)
    ensures whole < p.burst && Refill(p.rpm, IDLE + 1) < p.burst as real
    ensures whole as real <= Refill(p.rpm, IDLE + 1) < whole as real + 1.0
  {
    var gained := Refill(p.rpm, IDLE + 1);
    assert (p.rpm * (IDLE + 1)) as real < (p.burst * MINUTE) as real;
    assert gained < p.burst as real;
    RefillMonotone(p.rpm, 0, IDLE + 1);
    assert 0.0 <= gained by { RefillMonotone(p.rpm, 0, 0); }
    whole := gained.Floor;
  }

  // ---- in numbers ----

  // The bursts of the call sites, at every positive rate: five or a sixth of the rate for the login, as
  // for a burst that is not positive, and the five and the two the messaging routes name.
  lemma CallSiteBursts(rpm: int, burst: int)
    requires rpm >= 1
    ensures EffectiveBurst(rpm, LoginBurst(rpm)) == if rpm < 36 then 5 else rpm / 6
    ensures EffectiveBurst(rpm, 5) == 5 && EffectiveBurst(rpm, 2) == 2
    ensures EffectiveBurst(rpm, burst) == if burst >= 1 then burst else if rpm < 36 then 5 else rpm / 6
  {
  }

  // An entry goes exactly when there are more than twenty thousand and it was last seen more than
  // fifteen minutes ago: at fifteen minutes it stays, a nanosecond later it goes.
  lemma SweptExactly(ips: map<string, Entry>, ip: string, now: Instant)
    requires ip in ips
    ensures ip in Sweep(ips, now) <==> |ips| <= 20_000 || now - ips[ip].lastSeen <= 15 * 60 * 1_000_000_000
    ensures ip in Sweep(ips, now) ==> Sweep(ips, now)[ip] == ips[ip]
  {
  }

  // n requests at one instant.
  function Together(n: nat, now: Instant): seq<Instant> {
    seq(n, _ => now)
  }

  lemma {:induction false} TogetherSpends(p: Limits, n: nat, now: Instant, later: Instant)
    requires WellSet(p) && n <= p.burst
    ensures BucketAt(p, Together(n, now), later) ==
            if n == 0 then FullBucket(p, later) else Bucket((p.burst - n) as real, now)
    decreases n
  {
    if n > 0 {
      var times := Together(n, now);
      assert times[..n - 1] == Together(n - 1, now);
      TogetherSpends(p, n - 1, now, now);
      hide Allow;
      DrawWhole(p, p.burst - n + 1, now);
    }
  }

  // A client's first requests, made at once, pass up to the burst; and the next one, some time later,
  // passes exactly when that time has refilled a whole token, at rpm tokens in sixty seconds.
  lemma BurstThenWait(p: Limits, n: nat, now: Instant, wait: int)
    requires WellSet(p) && n < p.burst && wait >= 0
    ensures IsolatedVerdict(p, Together(n + 1, now))
    ensures IsolatedVerdict(p, Together(p.burst, now) + [now + wait]) <==> p.rpm * wait >= 60_000_000_000
  {
    var times := Together(n + 1, now);
    assert times[..n] == Together(n, now);
    TogetherSpends(p, n, now, now);
    DrawWhole(p, p.burst - n, now);
    var all := Together(p.burst, now) + [now + wait];
    assert all[..p.burst] == Together(p.burst, now);
    TogetherSpends(p, p.burst, now, now + wait);
    WholeTokens(p.rpm * wait);
  }

  lemma WholeTokens(gained: int)
    ensures gained as real / 60_000_000_000.0 >= 1.0 <==> gained >= 60_000_000_000
  {
  }
}
