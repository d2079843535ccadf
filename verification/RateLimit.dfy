/** The per-IP rate limiter: one token bucket per client, kept in a map that is swept of idle
    clients when it grows large. */
module RateLimit {
  import opened Common

  const MINUTE: int := 60_000_000_000
  const IDLE: int := 900_000_000_000
  const MAX_ENTRIES: nat := 20_000

  // rate.Limiter as a token bucket: tokens held at the last admitted request.
  datatype Bucket = Bucket(tokens: real, last: Instant)

  datatype Limits = Limits(rpm: int, burst: int)

  // Tokens gained in a span of time, at rpm tokens a minute.
  function Refill(rpm: int, span: int): real {
    (rpm * span) as real / 60_000_000_000.0
  }

  function Level(p: Limits, b: Bucket, now: Instant): real {
    var tokens := b.tokens + Refill(p.rpm, now - b.last);
    if tokens > p.burst as real then p.burst as real else tokens
  }

  function FullBucket(p: Limits, now: Instant): Bucket {
    Bucket(p.burst as real, now)
  }

  // Limiter.Allow: a denied request leaves the bucket as it was.
  function Allow(p: Limits, b: Bucket, now: Instant): (Bucket, bool) {
    var level := Level(p, b, now);
    if level >= 1.0 then (Bucket(level - 1.0, now), true) else (b, false)
  }

  datatype Entry = Entry(bucket: Bucket, lastSeen: Instant)

  // delete every entry last seen more than fifteen minutes ago, if there are too many
  function Sweep(ips: map<string, Entry>, now: Instant): map<string, Entry> {
    if |ips| > MAX_ENTRIES then map ip | ip in ips && ips[ip].lastSeen >= now - IDLE :: ips[ip] else ips
  }

  function Serve(p: Limits, ips: map<string, Entry>, ip: string, now: Instant): (map<string, Entry>, bool) {
    var kept := Sweep(ips, now);
    var (bucket, allowed) := Allow(p, if ip in kept then kept[ip].bucket else FullBucket(p, now), now);
    (kept[ip := Entry(bucket, now)], allowed)
  }

  function Max(a: int, b: int): int {
    if a > b then a else b
  }

  // The burst IPRateLimiter works with, given the one it is asked for.
  function EffectiveBurst(rpm: int, burst: int): int {
    var b := if burst <= 0 then Max(5, rpm / 6) else burst;
    if b < 1 then 1 else b
  }

  // AuthLoginRateLimiter asks for this one.
  function LoginBurst(rpm: int): int {
    Max(5, rpm / 6)
  }

  class IpRateLimiter {
    const limits: Limits
    var ips: map<string, Entry>

    constructor (rpm: int, burst: int)
      ensures limits == Limits(rpm, EffectiveBurst(rpm, burst)) && ips == map[]
    {
      var b := burst;
      if b <= 0 { b := Max(5, rpm / 6); }
      if b < 1 { b := 1; }
      limits := Limits(rpm, b);
      ips := map[];
    }

    // The middleware: a limiter with no positive rate lets everything through.
    method Handle(ip: string, now: Instant) returns (allowed: bool)
      modifies this
      ensures limits.rpm <= 0 ==> allowed && ips == old(ips)
      ensures limits.rpm > 0 ==> (ips, allowed) == Serve(limits, old(ips), ip, now)
    {
      if limits.rpm <= 0 {
        return true;
      }
      hide Allow;
      SweepIdle(now);
      ghost var kept := ips;
      if ip !in ips {
        ips := ips[ip := Entry(FullBucket(limits, now), now)];
      }
      var (bucket, ok) := Allow(limits, ips[ip].bucket, now);
      ips := ips[ip := Entry(bucket, now)];
      assert ips == kept[ip := Entry(bucket, now)];
      return ok;
    }

    method SweepIdle(now: Instant)
      modifies this
      ensures ips == Sweep(old(ips), now)
    {
      if |ips| <= MAX_ENTRIES {
        return;
      }
      var rest := ips.Keys;
      while rest != {}
        invariant rest <= ips.Keys <= old(ips).Keys
        invariant forall k :: k in old(ips) && k !in rest ==> (k in ips <==> old(ips)[k].lastSeen >= now - IDLE)
        invariant forall k :: k in ips ==> ips[k] == old(ips)[k]
        invariant forall k :: k in rest ==> k in ips
        decreases |rest|
      {
        var k :| k in rest;
        if ips[k].lastSeen < now - IDLE {
          ips := ips - {k};
        }
        rest := rest - {k};
      }
    }
  }
}
