// Runs of the bounded buffer with their steps: which items the producers were started with
// and which the consumers got hold of.
module BufferHistory {
  import opened Options
  import opened Tally
  import opened BoundedBuffer

  datatype Step = Step(thread: nat, action: Action)

  // A run, step by step.
  ghost predicate Trace(run: seq<State>, steps: seq<Step>) {
    && |run| == |steps| + 1 && Init(run[0])
    && forall i :: 0 <= i < |steps| ==> Takes(run[i], steps[i], run[i + 1])
  }

  ghost predicate Takes(s: State, step: Step, s': State) {
    && Positions(s) && step.thread < |s.threads| && Can(s, step.thread, step.action)
    && s' == After(s, step.thread, step.action)
  }

  lemma TraceIsRun(run: seq<State>, steps: seq<Step>)
    requires Trace(run, steps)
    ensures Run(run)
  {
    hide Can, After, Init;
    forall i | 0 < i < |run| ensures Next(run[i - 1], run[i]) {
      assert Takes(run[i - 1], steps[i - 1], run[i - 1 + 1]);
    }
  }

  lemma {:induction false} RunHasTrace(run: seq<State>) returns (steps: seq<Step>)
    requires Run(run)
    ensures Trace(run, steps)
  {
    hide Can, After, Init;
    var n := |run| - 1;
    steps := [];
    if n > 0 {
      var before := run[..n];
      steps := RunHasTrace(before);
      assert Next(run[n - 1], run[n]);
      var t: nat, a :| t < |run[n - 1].threads| && Can(run[n - 1], t, a) && run[n] == After(run[n - 1], t, a);
      var longer := steps + [Step(t, a)];
      forall i | 0 <= i < |longer| ensures Takes(run[i], longer[i], run[i + 1]) {
        if i < n - 1 {
          assert Takes(before[i], steps[i], before[i + 1]);
        }
      }
      steps := longer;
    }
  }

  // The item that thread t was started with last.
  ghost function Given(steps: seq<Step>, i: nat, t: nat): Option<int>
    requires i <= |steps|
  {
    if i == 0 then None
    else if steps[i - 1].thread == t && steps[i - 1].action.Start? then Some(steps[i - 1].action.item)
    else Given(steps, i - 1, t)
  }

  // The thread that moves an item in this step.
  ghost predicate Moves(s: State, step: Step, kind: Kind) {
    step.action.Move? && step.thread < |s.threads| && s.threads[step.thread].kind == kind
  }

  // The items that producers were started with, in the order in which they put them in.
  ghost function Offered(run: seq<State>, steps: seq<Step>, i: nat): seq<int>
    requires i <= |steps| < |run|
  {
    if i == 0 then []
    else
      var before := Offered(run, steps, i - 1);
      var x := Given(steps, i - 1, steps[i - 1].thread);
      if Moves(run[i - 1], steps[i - 1], Producer) && x.Some? then before + [x.value] else before
  }

  // The items that consumers hold after taking them out, in the order in which they do.
  ghost function Obtained(run: seq<State>, steps: seq<Step>, i: nat): seq<int>
    requires i <= |steps| < |run|
  {
    if i == 0 then []
    else
      var before := Obtained(run, steps, i - 1);
      var t := steps[i - 1].thread;
      if Moves(run[i - 1], steps[i - 1], Consumer) && t < |run[i].threads| then before + [run[i].threads[t].item] else before
  }

  // ----- one step -----

  predicate Busy(th: Thread) {
    !th.stage.Idle? && !th.stage.Ended?
  }

  // A thread is started with an item, and keeps the one it has until it is idle again; only
  // a consumer that takes something out gets another.
  lemma StepItems(s: State, step: Step, s': State, t: nat)
    requires Takes(s, step, s') && t < |s.threads|
    ensures |s'.threads| == |s.threads| && s'.threads[t].kind == s.threads[t].kind
    ensures !Busy(s.threads[t]) && Busy(s'.threads[t]) && s.threads[t].kind.Producer? ==>
      step.thread == t && step.action == Start(s'.threads[t].item)
    ensures Busy(s.threads[t]) ==>
      && !(step.thread == t && step.action.Start?)
      && (s'.threads[t].item == s.threads[t].item || (step.thread == t && Moves(s, step, Consumer)))
  {
  }

  // A producer's move puts its own item in, a consumer's move hands it the oldest one.
  lemma StepMoves(s: State, step: Step, s': State)
    requires Takes(s, step, s')
    ensures Moves(s, step, Producer) ==>
      s'.inserted == s.inserted + [s.threads[step.thread].item] && s'.removed == s.removed && Busy(s.threads[step.thread])
    ensures Moves(s, step, Consumer) ==>
      && |s'.threads| == |s.threads| && s'.removed == s.removed + [s'.threads[step.thread].item] && s'.inserted == s.inserted
      && HasMoved(s'.threads[step.thread])
    ensures !Moves(s, step, Producer) && !Moves(s, step, Consumer) ==> s'.inserted == s.inserted && s'.removed == s.removed
  {
  }

  // ----- whole runs -----

  // A producer at work carries the item it was started with.
  lemma {:induction false} CarriesGiven(run: seq<State>, steps: seq<Step>, i: nat, t: nat)
    requires Trace(run, steps) && i < |run| && t < |run[i].threads|
    requires Busy(run[i].threads[t]) && run[i].threads[t].kind.Producer?
    ensures Given(steps, i, t) == Some(run[i].threads[t].item)
  {
    if i > 0 {
      hide Takes;
      assert Takes(run[i - 1], steps[i - 1], run[i - 1 + 1]);
      SameThreads(run[i - 1], steps[i - 1], run[i]);
      StepItems(run[i - 1], steps[i - 1], run[i], t);
      if Busy(run[i - 1].threads[t]) {
        CarriesGiven(run, steps, i - 1, t);
      }
    }
  }

  lemma SameThreads(s: State, step: Step, s': State)
    requires Takes(s, step, s')
    ensures |s'.threads| == |s.threads|
  {
  }

  // From taking an item out until it has posted, a consumer keeps that item.
  lemma ConsumerKeeps(run: seq<State>, steps: seq<Step>, i: nat, t: nat)
    requires Trace(run, steps) && 0 < i < |run| && t < |run[i - 1].threads|
    requires run[i - 1].threads[t].kind.Consumer? && HasMoved(run[i - 1].threads[t])
    ensures |run[i].threads| == |run[i - 1].threads| && run[i].threads[t].item == run[i - 1].threads[t].item
  {
    assert Takes(run[i - 1], steps[i - 1], run[i - 1 + 1]);
    StepItems(run[i - 1], steps[i - 1], run[i], t);
  }

  // What the state records of the items is what the threads were seen to do.
  lemma {:induction false} Recorded(run: seq<State>, steps: seq<Step>, i: nat)
    requires Trace(run, steps) && i < |run|
    ensures run[i].inserted == Offered(run, steps, i) && run[i].removed == Obtained(run, steps, i)
  {
    hide Takes;
    if i > 0 {
      Recorded(run, steps, i - 1);
      var s, step, s' := run[i - 1], steps[i - 1], run[i];
      assert Takes(s, step, run[i - 1 + 1]);
      StepMoves(s, step, s');
      if Moves(s, step, Producer) {
        CarriesGiven(run, steps, i - 1, step.thread);
      }
    }
  }

  // The consumers get the producers' items, in the order in which they were put in; those
  // not yet taken lie in the buffer.
  lemma ItemsInOrder(run: seq<State>, steps: seq<Step>, i: nat)
    requires Trace(run, steps) && i < |run|
    ensures |run[i].buffer| > 0 && run[i].count >= 0
    ensures Offered(run, steps, i) == Obtained(run, steps, i) + Window(run[i].buffer, run[i].outPos, run[i].count)
  {
    TraceIsRun(run, steps);
    Recorded(run, steps, i);
    Safety(run, i);
  }

  // At the joins of the main program the consumers have got exactly the items that the
  // producers were started with, in that order.
  lemma AllObtained(run: seq<State>, steps: seq<Step>, i: nat, total: nat, producers: nat, consumers: nat)
    requires Trace(run, steps) && i < |run| && producers > 0 && consumers > 0 && Finished(run[i])
    requires run[0].threads == Workers(Producer, total, producers) + Workers(Consumer, total, consumers)
    ensures Obtained(run, steps, i) == Offered(run, steps, i) && |Offered(run, steps, i)| == total
  {
    hide Takes, Offered, Obtained, Init;
    TraceIsRun(run, steps);
    Recorded(run, steps, i);
    MainProgram(run, i, total, producers, consumers);
  }
}
