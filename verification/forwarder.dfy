/** `run_forwarder` as a state machine over the events the environment
    delivers: a signal (handled by `signal_handler`), a datagram received
    (with the source address, its length, the clock reading and what each
    `sendto` returned), a receive interrupted by a signal (`EINTR`), and
    any other receive failure. `keep_running` is tested only at the top of
    the loop, before each receive, so a datagram once received is always
    handled to the end; a signal takes effect at the next receive. */
module Forwarder {
  import opened FixedWidth
  import opened RateLimiter
  import opened AddressParser
  import opened Arguments
  import opened Shutdown

  /** `MAX_UDP_PAYLOAD`, the size of the receive buffer: the 16-bit IPv4
      total length less a 20-byte IPv4 header and the 8-byte UDP header. */
  const MaxUdpPayload: nat := 65507

  datatype Event =
    | Signal
    | RecvOk(srcIp: uint32, length: nat, now: int, sendResults: seq<int>)
    | RecvInterrupted
    | RecvFailed

  datatype StopReason = Drained | ReceiveFailed | Forced(code: int)

  datatype Phase = Running | Stopped(reason: StopReason)

  /** One `sendto`: the destination and the number of bytes handed over. */
  datatype Send = Send(dest: SockAddrIn, length: nat)

  /** The decisions behind the program's output lines. */
  datatype Note =
    | RateLimitedNote(srcIp: uint32, length: nat)
    | SendFailedNote(dest: SockAddrIn)
    | PartialSendNote(dest: SockAddrIn, sent: int, length: nat)
    | ForwardedNote(srcIp: uint32, length: nat, count: nat)

  datatype Engine = Engine(
    config: Config,
    phase: Phase,
    shutdown: ShutdownState,
    rates: RateMap,
    sends: seq<Send>,
    log: seq<Note>)

  /** The state when `run_forwarder` is entered. */
  function Start(config: Config): Engine {
    Engine(config, Running, Initial, map[], [], [])
  }

  /** The bytes `recvfrom` stores: a longer datagram is cut to the buffer. */
  function Received(length: nat): (r: nat)
    ensures r <= MaxUdpPayload && r <= length
    ensures length <= MaxUdpPayload ==> r == length
  {
    if length <= MaxUdpPayload then length else MaxUdpPayload
  }

  /** A received datagram carries one `sendto` result per destination. */
  predicate WellFormed(config: Config, ev: Event) {
    ev.RecvOk? ==> |ev.sendResults| == |config.destinations|
  }

  predicate WellFormedTrace(config: Config, trace: seq<Event>) {
    forall k :: 0 <= k < |trace| ==> WellFormed(config, trace[k])
  }

  /** The `for (dest : destinations)` loop: one send per destination, in
      order, of `received` bytes; a warning for each failed or short send. */
  function Fanout(dests: seq<SockAddrIn>, received: nat, results: seq<int>): (r: (seq<Send>, seq<Note>, bool))
    requires |results| == |dests|
    ensures |r.0| == |dests| && forall i :: 0 <= i < |dests| ==> r.0[i] == Send(dests[i], received)
    ensures r.2 <==> forall i :: 0 <= i < |dests| ==> results[i] == received
    ensures r.2 <==> r.1 == []
    ensures forall k :: 0 <= k < |r.1| ==> r.1[k].SendFailedNote? || r.1[k].PartialSendNote?
    decreases |dests|
  {
    if |dests| == 0 then ([], [], true)
    else
      var rest := Fanout(dests[1..], received, results[1..]);
      assert forall i :: 0 < i < |dests| ==> dests[i] == dests[1..][i - 1] && results[i] == results[1..][i - 1];
      var warning: seq<Note> :=
        if results[0] < 0 then [SendFailedNote(dests[0])]
        else if results[0] != received then [PartialSendNote(dests[0], results[0], received)]
        else [];
      ([Send(dests[0], received)] + rest.0, warning + rest.1, warning == [] && rest.2)
  }

  /** The body of the loop after a successful `recvfrom`. */
  function Deliver(e: Engine, srcIp: uint32, length: nat, now: int, results: seq<int>): (r: Engine)
    requires |results| == |e.config.destinations|
    ensures r.config == e.config && r.phase == e.phase && r.shutdown == e.shutdown
  {
    var received := Received(length);
    var v := CheckRateLimit(e.config.rateLimit, e.rates, srcIp, now);
    if !v.allowed then
      var note := if e.config.verbose then [RateLimitedNote(srcIp, received)] else [];
      e.(rates := v.rates, log := e.log + note)
    else
      var f := Fanout(e.config.destinations, received, results);
      var summary := if e.config.verbose && f.2 then [ForwardedNote(srcIp, received, |e.config.destinations|)] else [];
      e.(rates := v.rates, sends := e.sends + f.0, log := e.log + f.1 + summary)
  }

  /** One event. A stopped loop ignores everything; a signal runs the
      handler; a receive first passes the `while (keep_running)` test. */
  function Step(e: Engine, ev: Event): (r: Engine)
    requires WellFormed(e.config, ev)
    ensures r.config == e.config
    ensures e.phase.Stopped? ==> r == e
  {
    if e.phase.Stopped? then e
    else if ev.Signal? then
      match SignalHandler(e.shutdown)
      case ForcedExit(c) => e.(phase := Stopped(Forced(c)))
      case Returned(st) => e.(shutdown := st)
    else if !e.shutdown.keepRunning then e.(phase := Stopped(Drained))
    else if ev.RecvInterrupted? then e
    else if ev.RecvFailed? then e.(phase := Stopped(ReceiveFailed))
    else Deliver(e, ev.srcIp, ev.length, ev.now, ev.sendResults)
  }

  /** The events of a trace, in order. */
  function Run(e: Engine, trace: seq<Event>): (r: Engine)
    requires WellFormedTrace(e.config, trace)
    ensures r.config == e.config
    decreases |trace|
  {
    if |trace| == 0 then e
    else Run(Step(e, trace[0]), trace[1..])
  }

  /** `main`'s status once the loop has ended: 0 after the loop, whether it
      drained or a receive failed, and the handler's status when forced. */
  function ExitStatus(reason: StopReason): int {
    match reason
    case Forced(c) => c
    case _ => 0
  }

  /** A datagram received while running and admitted by the limiter is sent
      to every destination, in order, with the received length, and
      nothing already sent changes. */
  lemma AdmittedGoesToAll(e: Engine, ev: Event)
    requires WellFormed(e.config, ev) && ev.RecvOk?
    requires e.phase.Running? && e.shutdown.keepRunning
    requires CheckRateLimit(e.config.rateLimit, e.rates, ev.srcIp, ev.now).allowed
    ensures var r := Step(e, ev);
            var ds := e.config.destinations;
            && r.phase.Running?
            && |r.sends| == |e.sends| + |ds|
            && r.sends[..|e.sends|] == e.sends
            && forall i :: 0 <= i < |ds| ==> r.sends[|e.sends| + i] == Send(ds[i], Received(ev.length))
  {
    var f := Fanout(e.config.destinations, Received(ev.length), ev.sendResults);
    assert Step(e, ev).sends == e.sends + f.0;
  }

  /** Nothing is sent except for a datagram received while running and
      admitted by the limiter: not on a signal, an interrupted or failed
      receive, a rate-limited datagram, or after the loop has stopped. */
  lemma SendsOnlyWhenAdmitted(e: Engine, ev: Event)
    requires WellFormed(e.config, ev)
    requires !(ev.RecvOk? && e.phase.Running? && e.shutdown.keepRunning &&
               CheckRateLimit(e.config.rateLimit, e.rates, ev.srcIp, ev.now).allowed)
    ensures Step(e, ev).sends == e.sends
  {
  }

  /** A rate-limited datagram is noted only in verbose mode. */
  lemma RateLimitedNoted(e: Engine, ev: Event)
    requires WellFormed(e.config, ev) && ev.RecvOk?
    requires e.phase.Running? && e.shutdown.keepRunning
    requires !CheckRateLimit(e.config.rateLimit, e.rates, ev.srcIp, ev.now).allowed
    ensures Step(e, ev).log == e.log + (if e.config.verbose then [RateLimitedNote(ev.srcIp, Received(ev.length))] else [])
  {
  }

  /** The step printed the "Forwarded" summary. */
  predicate SummaryPrinted(before: Engine, after: Engine) {
    |after.log| > |before.log| && after.log[|after.log| - 1].ForwardedNote?
  }

  /** The summary is printed exactly when verbose mode is on, the datagram
      was admitted and every send handed over exactly the received bytes. */
  lemma SummaryRule(e: Engine, ev: Event)
    requires WellFormed(e.config, ev) && ev.RecvOk?
    requires e.phase.Running? && e.shutdown.keepRunning
    ensures var received := Received(ev.length);
            SummaryPrinted(e, Step(e, ev)) <==>
              && e.config.verbose
              && CheckRateLimit(e.config.rateLimit, e.rates, ev.srcIp, ev.now).allowed
              && forall i :: 0 <= i < |ev.sendResults| ==> ev.sendResults[i] == received
  {
    var received := Received(ev.length);
    var v := CheckRateLimit(e.config.rateLimit, e.rates, ev.srcIp, ev.now);
    var r := Step(e, ev);
    if v.allowed {
      var f := Fanout(e.config.destinations, received, ev.sendResults);
      var summary := if e.config.verbose && f.2 then [ForwardedNote(ev.srcIp, received, |e.config.destinations|)] else [];
      assert r.log == e.log + f.1 + summary;
      if !f.2 && |f.1| > 0 {
        assert r.log[|r.log| - 1] == f.1[|f.1| - 1];
      }
    }
  }

  /** A receive failure other than `EINTR` ends the loop with status 0. */
  lemma ReceiveFailureStops(e: Engine)
    requires e.phase.Running? && e.shutdown.keepRunning
    ensures Step(e, RecvFailed).phase == Stopped(ReceiveFailed)
    ensures ExitStatus(Step(e, RecvFailed).phase.reason) == 0
    ensures Step(e, RecvFailed).sends == e.sends
  {
  }

  /** Once the flag is clear the next receive does not happen: the loop ends
      with status 0 and nothing is sent. */
  lemma ClearedFlagDrains(e: Engine, ev: Event)
    requires WellFormed(e.config, ev) && !ev.Signal?
    requires e.phase.Running? && !e.shutdown.keepRunning
    ensures Step(e, ev) == e.(phase := Stopped(Drained))
    ensures ExitStatus(Step(e, ev).phase.reason) == 0
  {
  }

  /** A stopped loop stays stopped and unchanged. */
  lemma {:induction false} StoppedAbsorbs(e: Engine, trace: seq<Event>)
    requires WellFormedTrace(e.config, trace) && e.phase.Stopped?
    ensures Run(e, trace) == e
    decreases |trace|
  {
    if |trace| > 0 {
      StoppedAbsorbs(Step(e, trace[0]), trace[1..]);
    }
  }

  lemma WellFormedSplit(config: Config, a: seq<Event>, b: seq<Event>)
    requires WellFormedTrace(config, a + b)
    ensures WellFormedTrace(config, a) && WellFormedTrace(config, b)
  {
    assert forall k :: 0 <= k < |a| ==> (a + b)[k] == a[k];
    assert forall k :: 0 <= k < |b| ==> (a + b)[|a| + k] == b[k];
  }

  /** Running two traces one after the other is running their concatenation. */
  lemma {:induction false} RunAppend(e: Engine, a: seq<Event>, b: seq<Event>)
    requires WellFormedTrace(e.config, a + b)
    ensures WellFormedTrace(e.config, a) && WellFormedTrace(e.config, b)
    ensures Run(e, a + b) == Run(Run(e, a), b)
    decreases |a|
  {
    WellFormedSplit(e.config, a, b);
    if |a| > 0 {
      assert (a + b)[0] == a[0];
      assert (a + b)[1..] == a[1..] + b;
      RunAppend(Step(e, a[0]), a[1..], b);
    } else {
      assert a + b == b;
    }
  }

  /** Sends and notes are only ever appended. */
  lemma {:induction false} OutputOnlyGrows(e: Engine, trace: seq<Event>)
    requires WellFormedTrace(e.config, trace)
    ensures var r := Run(e, trace);
            |r.sends| >= |e.sends| && r.sends[..|e.sends|] == e.sends &&
            |r.log| >= |e.log| && r.log[..|e.log|] == e.log
    decreases |trace|
  {
    if |trace| > 0 {
      var s := Step(e, trace[0]);
      assert |s.sends| >= |e.sends| && s.sends[..|e.sends|] == e.sends &&
             |s.log| >= |e.log| && s.log[..|e.log|] == e.log;
      OutputOnlyGrows(s, trace[1..]);
      var r := Run(e, trace);
      assert r.sends[..|e.sends|] == r.sends[..|s.sends|][..|e.sends|];
      assert r.log[..|e.log|] == r.log[..|s.log|][..|e.log|];
    }
  }

  /** What every state reached from the start satisfies: while running, the
      handler state is one the handler can leave, and the limiter's counts
      stay within the limit. */
  predicate Invariant(e: Engine) {
    (e.phase.Running? ==> Reachable(e.shutdown)) &&
    (e.config.rateLimit > 0 ==> Bounded(e.rates, e.config.rateLimit))
  }

  lemma StartInvariant(config: Config)
    ensures Invariant(Start(config))
  {
  }

  lemma StepKeepsInvariant(e: Engine, ev: Event)
    requires WellFormed(e.config, ev) && Invariant(e)
    ensures Invariant(Step(e, ev))
  {
    if e.phase.Running? {
      if ev.Signal? {
        if SignalHandler(e.shutdown).Returned? {
          HandlerKeepsReachable(e.shutdown);
        }
      } else if ev.RecvOk? && e.shutdown.keepRunning && e.config.rateLimit > 0 {
        CheckKeepsBounded(e.config.rateLimit, e.rates, ev.srcIp, ev.now);
      }
    }
  }

  lemma {:induction false} RunKeepsInvariant(e: Engine, trace: seq<Event>)
    requires WellFormedTrace(e.config, trace) && Invariant(e)
    ensures Invariant(Run(e, trace))
    decreases |trace|
  {
    if |trace| > 0 {
      StepKeepsInvariant(e, trace[0]);
      RunKeepsInvariant(Step(e, trace[0]), trace[1..]);
    }
  }

  /** Once cleared, `keep_running` is never set again. */
  lemma {:induction false} FlagStaysCleared(e: Engine, trace: seq<Event>)
    requires WellFormedTrace(e.config, trace) && !e.shutdown.keepRunning
    ensures !Run(e, trace).shutdown.keepRunning
    decreases |trace|
  {
    if |trace| > 0 {
      var s := Step(e, trace[0]);
      if e.phase.Running? && trace[0].Signal? && SignalHandler(e.shutdown).Returned? {
        HandlerClearsFlag(e.shutdown);
      }
      FlagStaysCleared(s, trace[1..]);
    }
  }

  /** `n` signals and nothing else. */
  function Signals(n: nat): (t: seq<Event>)
    ensures |t| == n && forall k :: 0 <= k < n ==> t[k] == Signal
  {
    seq(n, k => Signal)
  }

  /** Signals alone, from the start, track the handler: the loop keeps
      running with the handler's state until the third signal forces the
      exit with status 1. */
  lemma {:induction false} SignalsOnly(config: Config, n: nat)
    ensures WellFormedTrace(config, Signals(n))
    ensures var r := Run(Start(config), Signals(n));
            match AfterSignals(n)
            case Returned(st) => r.phase.Running? && r.shutdown == st
            case ForcedExit(c) => r.phase == Stopped(Forced(c)) && c == 1
    decreases n
  {
    SignalSequence(n);
    if n > 0 {
      assert Signals(n) == Signals(n - 1) + [Signal];
      RunAppend(Start(config), Signals(n - 1), [Signal]);
      SignalsOnly(config, n - 1);
      var m := Run(Start(config), Signals(n - 1));
      assert Run(m, [Signal]) == Step(m, Signal);
      if m.phase.Stopped? {
        SignalSequence(n - 1);
      }
    }
  }

  /** A signal while running and idle ends the loop at the next receive:
      the datagram is not read and nothing is sent. */
  lemma SignalThenReceive(e: Engine, ev: Event)
    requires WellFormed(e.config, ev) && !ev.Signal?
    requires e.phase.Running? && Reachable(e.shutdown) && e.shutdown.callCount < 2
    ensures Run(e, [Signal, ev]).phase == Stopped(Drained)
    ensures Run(e, [Signal, ev]).sends == e.sends
  {
    var s := Step(e, Signal);
    assert [Signal, ev][1..] == [ev];
    assert Run(e, [Signal, ev]) == Run(s, [ev]);
    assert Run(s, [ev]) == Step(s, ev);
  }

  /** A datagram that arrives, then a signal, then another datagram: the
      first is forwarded to the destination, the second is never read, and
      the program ends with status 0. */
  lemma Example(d: SockAddrIn)
    ensures var config := Config(9999, [d], false, DefaultRateLimit);
            var trace := [RecvOk(7, 100, TicksPerSecond, [100]), Signal, RecvOk(7, 50, TicksPerSecond, [50])];
            var r := Run(Start(config), trace);
            r.sends == [Send(d, 100)] && r.phase == Stopped(Drained) && ExitStatus(r.phase.reason) == 0
  {
    var config := Config(9999, [d], false, DefaultRateLimit);
    var trace := [RecvOk(7, 100, TicksPerSecond, [100]), Signal, RecvOk(7, 50, TicksPerSecond, [50])];
    var e0 := Start(config);
    assert CheckRateLimit(DefaultRateLimit, map[], 7, TicksPerSecond).allowed;
    var e1 := Step(e0, trace[0]);
    AdmittedGoesToAll(e0, trace[0]);
    assert e1.sends == [Send(d, 100)];
    var e2 := Step(e1, Signal);
    assert e2.phase.Running? && !e2.shutdown.keepRunning && e2.sends == e1.sends;
    var e3 := Step(e2, trace[2]);
    assert e3.phase == Stopped(Drained) && e3.sends == e1.sends;
    assert trace[1..][1..][1..] == [];
    assert Run(e0, trace) == Run(e1, trace[1..]);
    assert Run(e1, trace[1..]) == Run(e2, trace[1..][1..]);
    assert Run(e2, trace[1..][1..]) == Run(e3, []);
  }

  /** Two destinations, a limit of 2, and three datagrams from one source
      within 200 ms: the first two go to both destinations in order, the
      third is dropped and, in verbose mode, noted as rate-limited. */
  lemma ExampleRateLimited(d1: SockAddrIn, d2: SockAddrIn)
    ensures var config := Config(9999, [d1, d2], true, 2);
            var t := TicksPerSecond;
            var trace := [RecvOk(7, 10, t, [10, 10]), RecvOk(7, 10, t + 100_000_000, [10, 10]), RecvOk(7, 10, t + 200_000_000, [10, 10])];
            var r := Run(Start(config), trace);
            && r.sends == [Send(d1, 10), Send(d2, 10), Send(d1, 10), Send(d2, 10)]
            && r.log == [ForwardedNote(7, 10, 2), ForwardedNote(7, 10, 2), RateLimitedNote(7, 10)]
            && r.phase.Running?
  {
    var config := Config(9999, [d1, d2], true, 2);
    var t := TicksPerSecond;
    var ev1 := RecvOk(7, 10, t, [10, 10]);
    var ev2 := RecvOk(7, 10, t + 100_000_000, [10, 10]);
    var ev3 := RecvOk(7, 10, t + 200_000_000, [10, 10]);
    var e0 := Start(config);
    LimiterExample();
    PairAdmitted(e0, 7, t, map[7 := RateLimitInfo(t, 1)]);
    var e1 := Step(e0, ev1);
    PairAdmitted(e1, 7, ev2.now, map[7 := RateLimitInfo(t, 2)]);
    var e2 := Step(e1, ev2);
    assert e2.rates == map[7 := RateLimitInfo(t, 2)];
    var e3 := Step(e2, ev3);
    assert e3.sends == e2.sends && e3.log == e2.log + [RateLimitedNote(7, 10)];
    RunThree(e0, ev1, ev2, ev3);
  }

  /** The limiter's verdicts behind the example: a limit of 2 admits the
      first two packets of a window and refuses the third. */
  lemma LimiterExample()
    ensures var t := TicksPerSecond;
            && CheckRateLimit(2, map[], 7, t) == Verdict(true, map[7 := RateLimitInfo(t, 1)])
            && CheckRateLimit(2, map[7 := RateLimitInfo(t, 1)], 7, t + 100_000_000) == Verdict(true, map[7 := RateLimitInfo(t, 2)])
            && !CheckRateLimit(2, map[7 := RateLimitInfo(t, 2)], 7, t + 200_000_000).allowed
  {
    var t := TicksPerSecond;
    assert CheckRateLimit(2, map[], 7, t) == Verdict(true, map[7 := RateLimitInfo(t, 1)]);
    assert CheckRateLimit(2, map[7 := RateLimitInfo(t, 1)], 7, t + 100_000_000) == Verdict(true, map[7 := RateLimitInfo(t, 2)]);
  }

  /** A three-event trace is its three steps in order. */
  lemma RunThree(e: Engine, a: Event, b: Event, c: Event)
    requires WellFormed(e.config, a) && WellFormed(e.config, b) && WellFormed(e.config, c)
    ensures Run(e, [a, b, c]) == Step(Step(Step(e, a), b), c)
  {
    var ea := Step(e, a);
    var eb := Step(ea, b);
    assert [a, b, c][1..] == [b, c] && [b, c][1..] == [c] && [c][1..] == [];
    assert Run(e, [a, b, c]) == Run(ea, [b, c]);
    assert Run(ea, [b, c]) == Run(eb, [c]);
    assert Run(eb, [c]) == Run(Step(eb, c), []);
  }

  /** One admitted 10-byte datagram, in verbose mode, to two destinations
      that both take all of it. */
  lemma PairAdmitted(e: Engine, src: uint32, now: int, rates: RateMap)
    requires e.phase.Running? && e.shutdown.keepRunning && e.config.verbose
    requires |e.config.destinations| == 2
    requires CheckRateLimit(e.config.rateLimit, e.rates, src, now) == Verdict(true, rates)
    ensures var ds := e.config.destinations;
            Step(e, RecvOk(src, 10, now, [10, 10]))
            == e.(rates := rates, sends := e.sends + [Send(ds[0], 10), Send(ds[1], 10)], log := e.log + [ForwardedNote(src, 10, 2)])
  {
    var ds := e.config.destinations;
    assert ds == [ds[0], ds[1]];
    FanoutPair(ds[0], ds[1]);
  }

  lemma FanoutPair(d1: SockAddrIn, d2: SockAddrIn)
    ensures Fanout([d1, d2], 10, [10, 10]) == ([Send(d1, 10), Send(d2, 10)], [], true)
  {
    var f := Fanout([d1, d2], 10, [10, 10]);
    assert f.0 == [Send(d1, 10), Send(d2, 10)];
  }
}
