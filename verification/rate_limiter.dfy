/** `check_rate_limit`: a per-source fixed one-second window. Each source
    address has a window start and a packet count; a packet at least one
    whole second after the window start opens a new window, and a packet is
    admitted while the window's count is below the limit. The map grows by
    one entry per new source and is never pruned. Time is a count of
    `steady_clock` ticks (nanoseconds); the default entry's window starts at
    the clock's epoch, tick 0. */
module RateLimiter {
  import opened FixedWidth

  const TicksPerSecond: nat := 1_000_000_000

  datatype RateLimitInfo = RateLimitInfo(windowStart: int, packetCount: int)

  /** A value-initialised entry: epoch time point and `packet_count = 0`. */
  const FreshInfo: RateLimitInfo := RateLimitInfo(0, 0)

  type RateMap = map<uint32, RateLimitInfo>

  datatype Verdict = Verdict(allowed: bool, rates: RateMap)

  /** `duration_cast<seconds>(now - start).count()`: whole seconds,
      truncated toward zero. */
  function ElapsedSeconds(now: int, start: int): (s: int)
    ensures s >= 1 <==> now - start >= TicksPerSecond
    ensures now >= start ==> s * TicksPerSecond <= now - start < (s + 1) * TicksPerSecond
  {
    var d := now - start;
    if d >= 0 then d / TicksPerSecond else -((-d) / TicksPerSecond)
  }

  /** `g_rate_map[src_ip]`: the stored entry, or a fresh one. */
  function Lookup(rates: RateMap, srcIp: uint32): (r: RateLimitInfo)
    ensures srcIp !in rates ==> r.packetCount == 0 && r.windowStart == 0
  {
    if srcIp in rates then rates[srcIp] else FreshInfo
  }

  /** `check_rate_limit(src_ip)` against `rateLimit` at time `now`. */
  function CheckRateLimit(rateLimit: int, rates: RateMap, srcIp: uint32, now: int): (v: Verdict)
    ensures rateLimit <= 0 ==> v.allowed && v.rates == rates
    ensures rateLimit > 0 ==> v.rates.Keys == rates.Keys + {srcIp}
    ensures forall k :: k in rates && k != srcIp ==> k in v.rates && v.rates[k] == rates[k]
  {
    if rateLimit <= 0 then Verdict(true, rates)
    else
      var info := Lookup(rates, srcIp);
      var info := if ElapsedSeconds(now, info.windowStart) >= 1 then RateLimitInfo(now, 0) else info;
      if info.packetCount >= rateLimit then Verdict(false, rates[srcIp := info])
      else Verdict(true, rates[srcIp := info.(packetCount := info.packetCount + 1)])
  }

  /** The window is reset exactly when a full second has passed since its
      start, so a packet exactly one second after the start opens a new
      window; after that, the packet is admitted iff the count is below the
      limit, an admitted packet adds one and a rejected one adds nothing. */
  lemma WindowRule(rateLimit: int, rates: RateMap, srcIp: uint32, now: int)
    requires rateLimit > 0
    ensures var prior := Lookup(rates, srcIp);
            var reset := now >= prior.windowStart + TicksPerSecond;
            var count := if reset then 0 else prior.packetCount;
            var v := CheckRateLimit(rateLimit, rates, srcIp, now);
            && v.rates[srcIp].windowStart == (if reset then now else prior.windowStart)
            && (v.allowed <==> count < rateLimit)
            && v.rates[srcIp].packetCount == (if v.allowed then count + 1 else count)
  {
  }

  /** The counts the limiter keeps stay within `0..rateLimit`. */
  predicate Bounded(rates: RateMap, rateLimit: int) {
    forall k :: k in rates ==> 0 <= rates[k].packetCount <= rateLimit
  }

  lemma CheckKeepsBounded(rateLimit: int, rates: RateMap, srcIp: uint32, now: int)
    requires rateLimit > 0 && Bounded(rates, rateLimit)
    ensures Bounded(CheckRateLimit(rateLimit, rates, srcIp, now).rates, rateLimit)
  {
  }

  /** A packet a full second or more after its source's window start is
      always admitted, however many came before. */
  lemma NewWindowAdmits(rateLimit: int, rates: RateMap, srcIp: uint32, now: int)
    requires rateLimit > 0
    requires now >= Lookup(rates, srcIp).windowStart + TicksPerSecond
    ensures CheckRateLimit(rateLimit, rates, srcIp, now).allowed
  {
  }

  /** A sequence of packets from one source, checked in order. */
  function CheckAll(rateLimit: int, rates: RateMap, srcIp: uint32, times: seq<int>): (r: (seq<bool>, RateMap))
    ensures |r.0| == |times|
    decreases |times|
  {
    if |times| == 0 then ([], rates)
    else
      var v := CheckRateLimit(rateLimit, rates, srcIp, times[0]);
      var rest := CheckAll(rateLimit, v.rates, srcIp, times[1..]);
      ([v.allowed] + rest.0, rest.1)
  }

  /** Inside one window that started at `start` with `count` packets, the
      next packets are admitted exactly while the count stays below the limit. */
  lemma {:induction false} WithinWindow(rateLimit: int, rates: RateMap, srcIp: uint32, times: seq<int>, start: int, count: int)
    requires rateLimit > 0 && 0 <= count
    requires srcIp in rates && rates[srcIp] == RateLimitInfo(start, if count < rateLimit then count else rateLimit)
    requires forall i :: 0 <= i < |times| ==> start <= times[i] < start + TicksPerSecond
    ensures forall i :: 0 <= i < |times| ==> (CheckAll(rateLimit, rates, srcIp, times).0[i] <==> count + i < rateLimit)
    decreases |times|
  {
    if |times| > 0 {
      var v := CheckRateLimit(rateLimit, rates, srcIp, times[0]);
      assert v.allowed <==> count < rateLimit;
      var next := count + 1;
      assert v.rates[srcIp] == RateLimitInfo(start, if next < rateLimit then next else rateLimit);
      WithinWindow(rateLimit, v.rates, srcIp, times[1..], start, next);
      var r := CheckAll(rateLimit, rates, srcIp, times);
      forall i | 0 <= i < |times|
        ensures r.0[i] <==> count + i < rateLimit
      {
        if i > 0 {
          assert r.0[i] == CheckAll(rateLimit, v.rates, srcIp, times[1..]).0[i - 1];
          assert times[1..][i - 1] == times[i];
        }
      }
    }
  }

  /** A burst from a new source within one second of its first packet: the
      first `rateLimit` packets are admitted and the rest rejected. */
  lemma Burst(rateLimit: int, rates: RateMap, srcIp: uint32, times: seq<int>)
    requires rateLimit > 0 && srcIp !in rates && |times| > 0
    requires times[0] >= TicksPerSecond
    requires forall i :: 0 <= i < |times| ==> times[0] <= times[i] < times[0] + TicksPerSecond
    ensures forall i :: 0 <= i < |times| ==> (CheckAll(rateLimit, rates, srcIp, times).0[i] <==> i < rateLimit)
  {
    var v := CheckRateLimit(rateLimit, rates, srcIp, times[0]);
    assert v.allowed;
    assert v.rates[srcIp] == RateLimitInfo(times[0], if 1 < rateLimit then 1 else rateLimit);
    assert forall i :: 0 <= i < |times[1..]| ==> times[1..][i] == times[i + 1];
    WithinWindow(rateLimit, v.rates, srcIp, times[1..], times[0], 1);
    var r := CheckAll(rateLimit, rates, srcIp, times);
    forall i | 0 <= i < |times|
      ensures r.0[i] <==> i < rateLimit
    {
      if i > 0 {
        assert r.0[i] == CheckAll(rateLimit, v.rates, srcIp, times[1..]).0[i - 1];
      }
    }
  }
}
