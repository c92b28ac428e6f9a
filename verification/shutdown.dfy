/** `signal_handler` and the `keep_running` flag. The handler counts its
    calls in a static counter; the first two calls clear `keep_running`
    and the third ends the program with status 1. Nothing else writes the
    flag, whose initial value is `true`. */
module Shutdown {

  datatype ShutdownState = ShutdownState(callCount: nat, keepRunning: bool)

  /** `call_count = 0` and `keep_running = true` at program start. */
  const Initial: ShutdownState := ShutdownState(0, true)

  /** The status `exit` is given on the third signal. */
  const ForcedExitCode: int := 1

  /** The handler either returns, leaving a new state, or ends the program. */
  datatype HandlerOutcome = Returned(state: ShutdownState) | ForcedExit(code: int)

  /** One call of `signal_handler`. */
  function SignalHandler(st: ShutdownState): (r: HandlerOutcome)
    ensures r.Returned? ==> !r.state.keepRunning && r.state.callCount == st.callCount + 1
    ensures r.ForcedExit? <==> st.callCount >= 2
    ensures r.ForcedExit? ==> r.code == ForcedExitCode
  {
    var count := st.callCount + 1;
    if count >= 3 then ForcedExit(ForcedExitCode)
    else Returned(ShutdownState(count, false))
  }

  /** A handler that returns has counted the call and cleared the flag: it
      never sets `keep_running` back to `true`. */
  lemma HandlerClearsFlag(st: ShutdownState)
    requires SignalHandler(st).Returned?
    ensures SignalHandler(st).state.callCount == st.callCount + 1
    ensures !SignalHandler(st).state.keepRunning
  {
  }

  /** The handler forces the exit exactly on the call that brings the count to three. */
  lemma HandlerForcesOnThird(st: ShutdownState)
    ensures SignalHandler(st).ForcedExit? <==> st.callCount >= 2
    ensures SignalHandler(st).ForcedExit? ==> SignalHandler(st).code == 1
  {
  }

  /** `n` signals delivered from program start; once one has forced the exit the rest change nothing. */
  function AfterSignals(n: nat): (r: HandlerOutcome)
    ensures r.Returned? ==> r.state.callCount == n
  {
    if n == 0 then Returned(Initial)
    else
      match AfterSignals(n - 1)
      case ForcedExit(c) => ForcedExit(c)
      case Returned(st) => SignalHandler(st)
  }

  /** From program start: no signal leaves the flag set, one or two signals
      leave it cleared, and the third signal (or any later count) forces
      the exit with status 1. */
  lemma {:induction false} SignalSequence(n: nat)
    ensures n == 0 ==> AfterSignals(n) == Returned(Initial)
    ensures 1 <= n <= 2 ==> AfterSignals(n) == Returned(ShutdownState(n, false))
    ensures n >= 3 ==> AfterSignals(n) == ForcedExit(1)
  {
    if n > 0 {
      SignalSequence(n - 1);
    }
  }

  /** The states a handler can leave behind from program start. */
  predicate Reachable(st: ShutdownState) {
    st.callCount <= 2 && (st.keepRunning <==> st.callCount == 0)
  }

  /** Reachable states are closed under a returning handler call. */
  lemma HandlerKeepsReachable(st: ShutdownState)
    requires Reachable(st) && SignalHandler(st).Returned?
    ensures Reachable(SignalHandler(st).state)
  {
  }

  lemma {:induction false} AfterSignalsReachable(n: nat)
    requires AfterSignals(n).Returned?
    ensures Reachable(AfterSignals(n).state)
  {
    if n > 0 {
      AfterSignalsReachable(n - 1);
      HandlerKeepsReachable(AfterSignals(n - 1).state);
    }
  }
}
