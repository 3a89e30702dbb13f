/** How `fetchBounded` hands an interrupt over: the main goroutine, its watcher, two channels of one
    slot, and the signals that arrive at any moment. */
module FetchSignals {
  import opened Option

  type Signal = nat

  /** The main goroutine, by what it does next. */
  datatype Main =
    | RunGit
    | CloseDone
    | Receive
    | StopNotify(got: Option<Signal>)
    | Drain(got: Option<Signal>)
    | Returned(report: Option<Signal>)

  /** The watcher, by what it does next. */
  datatype Watcher = Select | Cancel(s: Signal) | Tell(answer: Option<Signal>) | Ended

  /** `sigs` and `caught` are buffered channels of one; `relayed` counts on the first signal that entered
      `sigs` while it was registered. */
  datatype State = State(
    main: Main, watcher: Watcher, sigs: Option<Signal>, caught: Option<Option<Signal>>,
    done: bool, registered: bool, cancelled: bool, first: Option<Signal>)

  datatype Step =
    | Arrive(s: Signal)    // the runtime relays a signal; a full channel drops it
    | RunReturns           // git exited, was killed, or hit the deadline
    | DoneCloses
    | CaughtReceived
    | Stopped
    | Drained
    | SelectSignal
    | SelectDone
    | ContextCancelled
    | AnswerSent

  predicate Start(s: State) {
    exists registered: bool :: s == State(RunGit, Select, None, None, false, registered, false, None)
  }

  predicate Enabled(s: State, step: Step) {
    match step
    case Arrive(_) => s.registered
    case RunReturns => s.main == RunGit
    case DoneCloses => s.main == CloseDone
    case CaughtReceived => s.main == Receive && s.caught.Some?
    case Stopped => s.main.StopNotify?
    case Drained => s.main.Drain?
    case SelectSignal => s.watcher == Select && s.sigs.Some?
    case SelectDone => s.watcher == Select && s.done
    case ContextCancelled => s.watcher.Cancel?
    case AnswerSent => s.watcher.Tell? && s.caught.None?
  }

  function Next(s: State, step: Step): State
    requires Enabled(s, step)
  {
    match step
    case Arrive(sig) =>
      if s.sigs.Some? then s else s.(sigs := Some(sig), first := if s.first.None? then Some(sig) else s.first)
    case RunReturns => s.(main := CloseDone)
    case DoneCloses => s.(main := Receive, done := true)
    case CaughtReceived => s.(main := StopNotify(s.caught.value), caught := None)
    case Stopped => s.(main := Drain(s.main.got), registered := false)
    case Drained =>
      if s.main.got.None? && s.sigs.Some? then s.(main := Returned(s.sigs), sigs := None)
      else s.(main := Returned(s.main.got))
    case SelectSignal => s.(watcher := Cancel(s.sigs.value), sigs := None)
    case SelectDone => s.(watcher := Tell(None))
    case ContextCancelled => s.(watcher := Tell(Some(s.watcher.s)), cancelled := true)
    case AnswerSent => s.(watcher := Ended, caught := Some(s.watcher.answer))
  }

  ghost predicate Run(states: seq<State>, steps: seq<Step>) {
    && |states| == |steps| + 1 && Start(states[0])
    && forall k :: 0 <= k < |steps| ==> Enabled(states[k], steps[k]) && states[k + 1] == Next(states[k], steps[k])
  }

  /** What the watcher took out of `sigs`, wherever it now is. */
  function Taken(s: State): Option<Signal> {
    match s.watcher
    case Select => None
    case Cancel(sig) => Some(sig)
    case Tell(answer) => answer
    case Ended =>
      match s.main
      case StopNotify(got) => got
      case Drain(got) => got
      case Returned(report) => report
      case _ => if s.caught.Some? then s.caught.value else None
  }

  /** The first relayed signal is never lost: it was taken by the watcher, or lies in `sigs`, or was
      drained; and the two goroutines are in step. */
  predicate Inv(s: State) {
    && (s.watcher == Ended <==> s.caught.Some? || s.main.StopNotify? || s.main.Drain? || s.main.Returned?)
    && (s.caught.Some? ==> s.main in {RunGit, CloseDone, Receive})
    && (s.done <==> !(s.main in {RunGit, CloseDone}))
    && (s.watcher == Tell(None) ==> s.done)
    && (Taken(s).Some? ==> Taken(s) == s.first)
    && (Taken(s).None? ==> s.sigs == s.first)
    && (s.main.Drain? || s.main.Returned? ==> !s.registered)
    && (s.watcher.Tell? && s.watcher.answer.Some? ==> s.cancelled)
  }

  lemma StepKeepsInv(s: State, step: Step)
    requires Inv(s) && Enabled(s, step)
    ensures Inv(Next(s, step))
  {
  }

  lemma {:induction false} RunKeepsInv(states: seq<State>, steps: seq<Step>, k: nat)
    requires Run(states, steps) && k < |states|
    ensures Inv(states[k])
  {
    if k > 0 {
      RunKeepsInv(states, steps, k - 1);
      StepKeepsInv(states[k - 1], steps[k - 1]);
    }
  }

  // ---------------------------------------------------------------------------------------
  // What is reported
  // ---------------------------------------------------------------------------------------

  /** Which arrivals of a run were relayed while registered: any, before `Stop`. */
  ghost predicate SomeRelayed(steps: seq<Step>, k: nat) {
    exists i :: 0 <= i < |steps| && i < k && steps[i].Arrive?
  }

  /** Only the first arrival sets `first`. */
  lemma FirstOfStep(s: State, step: Step)
    requires Inv(s) && Enabled(s, step)
    ensures Next(s, step).first == if step.Arrive? && s.first.None? then Some(step.s) else s.first
  {
  }

  lemma {:induction false} FirstIsTheFirstArrival(states: seq<State>, steps: seq<Step>, k: nat)
    requires Run(states, steps) && k < |states|
    ensures states[k].first.Some? <==> SomeRelayed(steps, k)
    ensures states[k].first.Some? ==> exists i :: && 0 <= i < k && steps[i] == Arrive(states[k].first.value)
                                                  && !SomeRelayed(steps, i)
  {
    if k > 0 {
      FirstIsTheFirstArrival(states, steps, k - 1);
      RunKeepsInv(states, steps, k - 1);
      FirstOfStep(states[k - 1], steps[k - 1]);
      assert states[k - 1 + 1] == Next(states[k - 1], steps[k - 1]);
      if steps[k - 1].Arrive? && states[k - 1].first.None? {
        assert steps[k - 1] == Arrive(states[k].first.value) && !SomeRelayed(steps, k - 1);
      }
    }
  }

  /** In every interleaving the call reports an interrupt exactly when a watched signal arrived before
      `Stop`, and the one it reports is the first. */
  lemma ReportsTheFirstSignal(states: seq<State>, steps: seq<Step>, k: nat)
    requires Run(states, steps) && k < |states| && states[k].main.Returned?
    ensures states[k].main.report.Some? <==> SomeRelayed(steps, k)
    ensures states[k].main.report.Some?
            ==> exists i :: 0 <= i < k && steps[i] == Arrive(states[k].main.report.value) && !SomeRelayed(steps, i)
    ensures states[k].watcher == Ended
  {
    RunKeepsInv(states, steps, k);
    FirstIsTheFirstArrival(states, steps, k);
    DrainLeavesNone(states, steps, k);
  }

  /** After the drain nothing is left in `sigs` that was never reported. */
  lemma DrainLeavesNone(states: seq<State>, steps: seq<Step>, k: nat)
    requires Run(states, steps) && k < |states| && states[k].main.Returned?
    ensures states[k].main.report == states[k].first
  {
    RunKeepsInv(states, steps, k - 1);
    RunKeepsInv(states, steps, k);
    assert states[k - 1 + 1] == Next(states[k - 1], steps[k - 1]);
  }

  /** A signal the watcher took cancels git's context before the main goroutine can learn of it. */
  lemma TakenSignalCancels(states: seq<State>, steps: seq<Step>, k: nat)
    requires Run(states, steps) && k < |states| && states[k].watcher.Tell? && states[k].watcher.answer.Some?
    ensures states[k].cancelled && states[k].main in {RunGit, CloseDone, Receive}
  {
    RunKeepsInv(states, steps, k);
  }

  // ---------------------------------------------------------------------------------------
  // It ends
  // ---------------------------------------------------------------------------------------

  predicate Over(s: State) {
    s.main.Returned? && s.watcher == Ended
  }

  /** How many steps of the two goroutines are left at most. */
  function Left(s: State): nat {
    (match s.main
     case RunGit => 5
     case CloseDone => 4
     case Receive => 3
     case StopNotify(_) => 2
     case Drain(_) => 1
     case Returned(_) => 0)
    + (match s.watcher
       case Select => 3
       case Cancel(_) => 2
       case Tell(_) => 1
       case Ended => 0)
  }

  /** Until both are through, one of them can move without any signal; every such move brings the end
      nearer, and a signal never puts it off. So no interleaving deadlocks, and none is longer than eight
      steps of the two. */
  lemma NeverStuck(states: seq<State>, steps: seq<Step>, k: nat)
    requires Run(states, steps) && k < |states|
    ensures !Over(states[k]) ==> exists step: Step :: !step.Arrive? && Enabled(states[k], step)
    ensures forall step: Step :: Enabled(states[k], step) ==>
              if step.Arrive? then Left(Next(states[k], step)) == Left(states[k])
              else Left(Next(states[k], step)) < Left(states[k])
  {
    RunKeepsInv(states, steps, k);
    var s := states[k];
    if !Over(s) {
      var step := Move(s);
      assert Enabled(s, step) && !step.Arrive?;
    }
  }

  /** A move that is possible. */
  function Move(s: State): Step {
    match s.main
    case RunGit => RunReturns
    case CloseDone => DoneCloses
    case StopNotify(_) => Stopped
    case Drain(_) => Drained
    case _ =>
      match s.watcher
      case Select => SelectDone
      case Cancel(_) => ContextCancelled
      case Tell(_) => AnswerSent
      case Ended => CaughtReceived
  }

  /** The steps of the two goroutines, and their number. */
  function Own(steps: seq<Step>): nat {
    if steps == [] then 0 else Own(steps[..|steps| - 1]) + if steps[|steps| - 1].Arrive? then 0 else 1
  }

  lemma {:induction false} EndsInEightSteps(states: seq<State>, steps: seq<Step>)
    requires Run(states, steps)
    ensures Own(steps) + Left(states[|steps|]) <= 8
  {
    if steps != [] {
      var n := |steps| - 1;
      assert Run(states[..n + 1], steps[..n]);
      EndsInEightSteps(states[..n + 1], steps[..n]);
      NeverStuck(states, steps, n);
    }
  }
}
