/** DisposeOnce: runs a dispose action at most once successfully.  Its operation
    mode decides what a failing action leaves behind: with ExceptionRetry the next
    Dispose tries again, with SingleAttempt every later Dispose fails with the
    same exception.  Only sequential callers are modelled: a raised flag is never
    observed while the action is still running. */
module Threading {
  import opened Wrappers
  import opened Sequences

  /** The TOperationMode type argument. */
  datatype OperationMode = ExceptionRetry | SingleAttempt | OtherMode(typeName: string)

  datatype Exception = Exception(message: string)

  datatype DisposeError =
    | NotSupportedException(message: string)
    | AggregateException(inner: Exception)

  /** The status of the TaskCompletionSource of the current state. */
  datatype TaskStatus = Pending | RanToCompletion | Faulted(error: Exception)

  /** `_state`: the dispose-in-progress flag and the task that records how the run ended. */
  datatype State = State(Raised: bool, Task: TaskStatus)

  const Initial := State(false, Pending)

  predicate Supported(mode: OperationMode)
  {
    mode == ExceptionRetry || mode == SingleAttempt
  }

  /** Between calls the flag is raised exactly when the run it guards has ended. */
  predicate Settled(s: State)
  {
    s.Raised <==> s.Task != Pending
  }

  /** The constructor's check of the operation mode. */
  function CheckMode(mode: OperationMode): (r: Outcome<DisposeError>)
    ensures r.Pass? <==> Supported(mode)
    ensures r.Fail? ==> r.error == NotSupportedException("Unknown operation mode: " + mode.typeName)
  {
    if mode != ExceptionRetry && mode != SingleAttempt then
      Fail(NotSupportedException("Unknown operation mode: " + mode.typeName))
    else Pass
  }

  /** The `Disposed` getter over a state. */
  predicate IsDisposed(mode: OperationMode, s: State)
    requires Supported(mode)
  {
    if !s.Raised then false
    else if mode == SingleAttempt then true
    else if s.Task.Faulted? then false
    else s.Task == RanToCompletion
  }

  /** What one Dispose call does: the state after it, what it returns or throws,
      and whether it ran the action. */
  datatype Step = Step(next: State, result: Outcome<DisposeError>, ranAction: bool)

  /** One Dispose call from state `s`, where `outcome` is how the action would
      end if run (None when it returns normally). */
  function DisposeStep(mode: OperationMode, s: State, outcome: Option<Exception>): (r: Step)
    requires Supported(mode) && Settled(s)
    ensures Settled(r.next)
    ensures r.ranAction <==> !s.Raised
    ensures r.result.Pass? <==> (if s.Raised then !s.Task.Faulted? else outcome.None?)
  {
    if s.Raised then
      // another caller already ran it: wait for its task
      Step(s, if s.Task.Faulted? then Fail(AggregateException(s.Task.error)) else Pass, false)
    else match outcome
      case None => Step(State(true, RanToCompletion), Pass, true)
      case Some(e) =>
        if mode == ExceptionRetry then Step(Initial, Fail(AggregateException(e)), true)
        else Step(State(true, Faulted(e)), Fail(AggregateException(e)), true)
  }

  /** A disposed object stays disposed: Dispose no longer runs the action, changes
      nothing and succeeds, except after a SingleAttempt failure, where it throws
      the recorded exception again. */
  lemma DisposedIsFinal(mode: OperationMode, s: State, outcome: Option<Exception>)
    requires Supported(mode) && Settled(s) && IsDisposed(mode, s)
    ensures !DisposeStep(mode, s, outcome).ranAction
    ensures DisposeStep(mode, s, outcome).next == s
    ensures IsDisposed(mode, DisposeStep(mode, s, outcome).next)
    ensures s.Task.Faulted? ==>
      mode == SingleAttempt && DisposeStep(mode, s, outcome).result == Fail(AggregateException(s.Task.error))
    ensures !s.Task.Faulted? ==> DisposeStep(mode, s, outcome).result == Pass
  {
  }

  /** The first Dispose runs the action; if the action succeeds the object is
      disposed, if it fails the call throws the exception wrapped. */
  lemma FirstDispose(mode: OperationMode, outcome: Option<Exception>)
    requires Supported(mode)
    ensures DisposeStep(mode, Initial, outcome).ranAction
    ensures outcome.None? ==> IsDisposed(mode, DisposeStep(mode, Initial, outcome).next)
    ensures outcome.Some? ==> DisposeStep(mode, Initial, outcome).result == Fail(AggregateException(outcome.value))
  {
  }

  /** After a failure, SingleAttempt counts as disposed and remembers the exception;
      ExceptionRetry is back to the initial state, not disposed. */
  lemma AfterFailure(mode: OperationMode, e: Exception)
    requires Supported(mode)
    ensures mode == SingleAttempt ==>
      && IsDisposed(mode, DisposeStep(mode, Initial, Some(e)).next)
      && DisposeStep(mode, Initial, Some(e)).next.Task == Faulted(e)
    ensures mode == ExceptionRetry ==>
      && DisposeStep(mode, Initial, Some(e)).next == Initial
      && !IsDisposed(mode, DisposeStep(mode, Initial, Some(e)).next)
  {
  }

  /** The result of a sequence of Dispose calls. */
  datatype Trace = Trace(final: State, runs: nat, results: seq<Outcome<DisposeError>>)

  /** Dispose called once per element of `outcomes`, each element saying how the
      action would end on that call. */
  function Run(mode: OperationMode, s: State, outcomes: seq<Option<Exception>>): (t: Trace)
    requires Supported(mode) && Settled(s)
    ensures Settled(t.final) && |t.results| == |outcomes|
    ensures t.runs <= |outcomes|
    decreases |outcomes|
  {
    if outcomes == [] then Trace(s, 0, [])
    else
      var step := DisposeStep(mode, s, outcomes[0]);
      var rest := Run(mode, step.next, outcomes[1..]);
      Trace(rest.final, rest.runs + (if step.ranAction then 1 else 0), [step.result] + rest.results)
  }

  predicate Succeeds(outcome: Option<Exception>)
  {
    outcome.None?
  }

  /** From a raised state nothing more runs and nothing changes. */
  lemma {:induction false} RunFromRaised(mode: OperationMode, s: State, outcomes: seq<Option<Exception>>)
    requires Supported(mode) && Settled(s) && s.Raised
    ensures Run(mode, s, outcomes).runs == 0 && Run(mode, s, outcomes).final == s
    ensures forall i :: 0 <= i < |outcomes| ==>
      Run(mode, s, outcomes).results[i] == (if s.Task.Faulted? then Fail(AggregateException(s.Task.error)) else Pass)
    decreases |outcomes|
  {
    if outcomes != [] {
      RunFromRaised(mode, s, outcomes[1..]);
    }
  }

  /** SingleAttempt runs the action exactly once, whatever happens; a failure
      makes every later call throw that same exception. */
  lemma SingleAttemptRunsOnce(outcomes: seq<Option<Exception>>)
    requires |outcomes| >= 1
    ensures Run(SingleAttempt, Initial, outcomes).runs == 1
    ensures IsDisposed(SingleAttempt, Run(SingleAttempt, Initial, outcomes).final)
    ensures outcomes[0].Some? ==> forall i :: 0 <= i < |outcomes| ==>
      Run(SingleAttempt, Initial, outcomes).results[i] == Fail(AggregateException(outcomes[0].value))
  {
    var step := DisposeStep(SingleAttempt, Initial, outcomes[0]);
    RunFromRaised(SingleAttempt, step.next, outcomes[1..]);
  }

  /** ExceptionRetry runs the action on every call up to and including the first
      one on which it succeeds, and never afterwards; it is disposed at the end
      exactly when some call succeeded. */
  lemma {:induction false} ExceptionRetryRunsUntilSuccess(outcomes: seq<Option<Exception>>)
    ensures Run(ExceptionRetry, Initial, outcomes).runs ==
      match FirstIndex(outcomes, Succeeds)
      case Some(k) => k + 1
      case None => |outcomes|
    ensures IsDisposed(ExceptionRetry, Run(ExceptionRetry, Initial, outcomes).final) <==>
      FirstIndex(outcomes, Succeeds).Some?
    decreases |outcomes|
  {
    if outcomes != [] {
      var step := DisposeStep(ExceptionRetry, Initial, outcomes[0]);
      if outcomes[0].None? {
        RunFromRaised(ExceptionRetry, step.next, outcomes[1..]);
      } else {
        ExceptionRetryRunsUntilSuccess(outcomes[1..]);
        match FirstIndex(outcomes[1..], Succeeds)
        case Some(k) =>
          assert FirstIndex(outcomes, Succeeds) == Some(k + 1);
        case None =>
          assert FirstIndex(outcomes, Succeeds) == None;
      }
    }
  }

  class DisposeOnce {
    const mode: OperationMode
    var state: State                 // _state
    /** How many times the dispose action has been run. */
    ghost var ActionRuns: nat

    ghost predicate Valid()
      reads this
    {
      Supported(mode) && Settled(state)
    }

    constructor (mode: OperationMode)
      requires Supported(mode)
      ensures Valid() && this.mode == mode && state == Initial && ActionRuns == 0
    {
      this.mode := mode;
      state := Initial;
      ActionRuns := 0;
    }

    /** `new DisposeOnce<TOperationMode>(action)`: refused for any other mode. */
    static method Create(mode: OperationMode) returns (r: Result<DisposeOnce, DisposeError>)
      ensures r.Failure? <==> !Supported(mode)
      ensures r.Failure? ==> Fail(r.error) == CheckMode(mode)
      ensures r.Success? ==> fresh(r.value) && r.value.Valid() && r.value.mode == mode
                             && r.value.state == Initial && r.value.ActionRuns == 0
    {
      var check := CheckMode(mode);
      if check.Fail? {
        return Failure(check.error);
      }
      var d := new DisposeOnce(mode);
      return Success(d);
    }

    /** Runs the dispose action unless a previous call already did; `actionOutcome`
        is how the action ends if it is run. */
    method Dispose(actionOutcome: Option<Exception>) returns (r: Outcome<DisposeError>)
      requires Valid()
      modifies this
      ensures Valid()
      ensures state == DisposeStep(mode, old(state), actionOutcome).next
      ensures r == DisposeStep(mode, old(state), actionOutcome).result
      ensures ActionRuns == old(ActionRuns) + (if DisposeStep(mode, old(state), actionOutcome).ranAction then 1 else 0)
    {
      if state.Raised {
        // Raise() failed: wait for the run in place; Wait rethrows its failure wrapped
        if state.Task.Faulted? {
          return Fail(AggregateException(state.Task.error));
        }
        return Pass;
      }
      state := state.(Raised := true);
      ActionRuns := ActionRuns + 1;   // _action()
      match actionOutcome {
        case None =>
          state := state.(Task := RanToCompletion);
          r := Pass;
        case Some(e) =>
          state := state.(Task := Faulted(e));
          if mode == ExceptionRetry {
            // a fresh flag and task replace the failed ones for the next attempt
            state := Initial;
          }
          r := Fail(AggregateException(e));
      }
    }

    /** The `Disposed` getter.  Once it holds, Dispose runs nothing and changes nothing. */
    function Disposed(): (r: bool)
      reads this
      requires Valid()
      ensures r ==> state.Raised
      ensures r ==> forall o: Option<Exception> ::
        !DisposeStep(mode, state, o).ranAction && DisposeStep(mode, state, o).next == state
    {
      IsDisposed(mode, state)
    }
  }
}
