/**
 * The Device Manager runtime state machine (DevM_Runtime.c): a static current
 * state that DevM_RunStateMachine advances by one transition per call. The
 * post-OS initialisation result is an input; the FAULT handler never returns.
 */
module DevMRuntime {

  /** DevM_ReturnType */
  datatype ReturnType = Ok | Error

  /**
   * DevM_StateType. `Unknown` stands for any value of the variable outside
   * the six enumerators.
   */
  datatype State = InitPreOs | InitOs | InitPostOs | Run | Fault | SoftRestart | Unknown

  /** Whether a call of DevM_RunStateMachine returns, or hangs in the fault handler. */
  datatype Outcome = Returned | Hung

  /** The value currentState holds after one call that returns. */
  function NextState(s: State, postOsResult: ReturnType): State
  {
    match s
    case InitPostOs => if postOsResult == Ok then Run else Fault
    case Run => Run
    case Fault => Fault
    case SoftRestart => SoftRestart
    case InitPreOs => Fault
    case InitOs => Fault
    case Unknown => Fault
  }

  /** DevM_StateFault loops forever; no other handler does. */
  function OutcomeOf(s: State): Outcome
  {
    if s == Fault then Hung else Returned
  }

  /** INIT_POST_OS goes to RUN exactly when post-OS init succeeds, else to FAULT. */
  lemma PostOsTransition(r: ReturnType)
    ensures NextState(InitPostOs, r) == Run <==> r == Ok
    ensures NextState(InitPostOs, r) != Run ==> NextState(InitPostOs, r) == Fault
    ensures OutcomeOf(InitPostOs) == Returned
  {
  }

  /** The pre-OS states and any out-of-range value fall to FAULT. */
  lemma DefaultToFault(s: State, r: ReturnType)
    requires s == InitPreOs || s == InitOs || s == Unknown
    ensures NextState(s, r) == Fault && OutcomeOf(s) == Returned
  {
  }

  /** RUN, SOFT_RESTART and FAULT leave the state as it is. */
  lemma HandlersKeepState(s: State, r: ReturnType)
    requires s == Run || s == SoftRestart || s == Fault
    ensures NextState(s, r) == s
  {
  }

  /** The state changes only in the INIT_POST_OS and default branches. */
  lemma OnlyInitAndDefaultWrite(s: State, r: ReturnType)
    ensures NextState(s, r) != s <==> s in {InitPostOs, InitPreOs, InitOs, Unknown}
  {
  }

  /** A single step enters RUN only from RUN, or from INIT_POST_OS with OK. */
  lemma RunEnteredOnlyFromPostOs(s: State, r: ReturnType)
    ensures NextState(s, r) == Run <==> s == Run || (s == InitPostOs && r == Ok)
  {
  }

  /** The state a call starts from: the start state, or the one before in t. */
  function Before(s: State, t: seq<State>, k: nat): State
    requires k < |t|
  {
    if k == 0 then s else t[k - 1]
  }

  /**
   * The states visited by successive calls, one per post-OS result given:
   * the state after each call that returned. Every state in the trace is
   * one step from the state before it, taken by a call that returned, and
   * nothing follows a call that hangs.
   */
  function Trace(s: State, inputs: seq<ReturnType>): (t: seq<State>)
    ensures |t| <= |inputs|
    ensures forall k :: 0 <= k < |t| ==>
      OutcomeOf(Before(s, t, k)) == Returned && t[k] == NextState(Before(s, t, k), inputs[k])
    ensures |t| < |inputs| ==> OutcomeOf(if t == [] then s else t[|t| - 1]) == Hung
    decreases |inputs|
  {
    if inputs == [] || OutcomeOf(s) == Hung then []
    else
      var next := NextState(s, inputs[0]);
      var rest := Trace(next, inputs[1..]);
      var t := [next] + rest;
      assert forall k :: 1 <= k < |t| ==> t[k] == rest[k - 1] && inputs[k] == inputs[1..][k - 1];
      assert forall k :: 1 <= k < |t| ==> Before(s, t, k) == Before(next, rest, k - 1);
      t
  }

  /**
   * t is a run of calls from s on the given post-OS results: every state in
   * t is the step from the state before it.
   */
  ghost predicate Steps(s: State, inputs: seq<ReturnType>, t: seq<State>)
  {
    && |t| <= |inputs|
    && forall k :: 0 <= k < |t| ==> t[k] == NextState(Before(s, t, k), inputs[k])
  }

  /**
   * In any run of calls, RUN is reached only from RUN or INIT_POST_OS: no
   * step enters INIT_POST_OS, so going back from a RUN over the calls that
   * produced it passes only through RUN until the start state.
   */
  lemma {:induction false} RunOnlyViaPostOs(s: State, inputs: seq<ReturnType>, t: seq<State>, k: nat)
    requires Steps(s, inputs, t) && k < |t| && t[k] == Run
    ensures s == Run || s == InitPostOs
    decreases k
  {
    RunEnteredOnlyFromPostOs(Before(s, t, k), inputs[k]);
    if k > 0 {
      assert t[k - 1] == NextState(Before(s, t, k - 1), inputs[k - 1]);
      RunOnlyViaPostOs(s, inputs, t, k - 1);
    }
  }

  /**
   * RUN is reached by DevM_RunStateMachine calls only from RUN or
   * INIT_POST_OS: every RUN in the trace of any other start state is
   * impossible.
   */
  lemma RunReachableOnlyViaPostOs(s: State, inputs: seq<ReturnType>, k: nat)
    requires k < |Trace(s, inputs)| && Trace(s, inputs)[k] == Run
    ensures s == Run || s == InitPostOs
  {
    var t := Trace(s, inputs);
    assert Steps(s, inputs, t);
    RunOnlyViaPostOs(s, inputs, t, k);
  }

  /**
   * From the initial state FAULT nothing is ever reached: the first call
   * hangs, so the trace is empty and RUN in particular is unreachable.
   */
  lemma FromInitialStateRunUnreachable(inputs: seq<ReturnType>)
    ensures Trace(Fault, inputs) == []
  {
  }

  /** The static `currentState` and DevM_RunStateMachine. */
  class DeviceManager {
    var currentState: State

    /** `static DevM_StateType currentState = DEVM_STATE_FAULT` */
    constructor ()
      ensures currentState == Fault
    {
      currentState := Fault;
    }

    /**
     * DevM_RunStateMachine with the result DevM_StateInitPostOS would give.
     * In FAULT the call hangs: the state is frozen and the caller never
     * resumes.
     */
    method RunStateMachine(postOsResult: ReturnType) returns (outcome: Outcome)
      modifies this
      ensures outcome == Hung <==> old(currentState) == Fault
      ensures outcome == OutcomeOf(old(currentState))
      ensures currentState == NextState(old(currentState), postOsResult)
    {
      match currentState {
        case InitPostOs =>
          currentState := if postOsResult == Ok then Run else Fault;
          outcome := Returned;
        case Run =>
          outcome := Returned;
        case Fault =>
          outcome := Hung;
        case SoftRestart =>
          outcome := Returned;
        case InitPreOs =>
          currentState := Fault;
          outcome := Returned;
        case InitOs =>
          currentState := Fault;
          outcome := Returned;
        case Unknown =>
          currentState := Fault;
          outcome := Returned;
      }
    }
  }
}
