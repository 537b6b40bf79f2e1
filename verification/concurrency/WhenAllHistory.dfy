// What the tasks of a when_all are seen to do, told from their stages alone: which task
// stores its outcome at which step, and which of them fails first.
module WhenAllHistory {
  import opened Options
  import opened WhenAll

  // The i-th task stores its outcome.
  ghost predicate Stores<T, E>(s: State<T, E>, s': State<T, E>, i: nat) {
    i < |s.posts| && i < |s'.posts| && s.posts[i].Storing? && s'.posts[i].Counting?
  }

  // The states of a call, with pauses in which others move.
  ghost predicate Trace<T(!new), E(!new)>(tr: seq<State<T, E>>) {
    && |tr| > 0 && Init(tr[0])
    && forall i :: 0 < i < |tr| ==> tr[i] == tr[i - 1] || Next(tr[i - 1], tr[i])
  }

  lemma RunIsTrace<T(!new), E(!new)>(run: seq<State<T, E>>)
    requires Run(run)
    ensures Trace(run)
  {
  }

  // ----- one step -----

  // What storing the i-th outcome does, and what no other step does.
  ghost predicate Records<T, E>(s: State<T, E>, s': State<T, E>, i: nat)
    requires Sized(s) && i < |s.posts|
  {
    && s'.posted == s.posted + [i]
    && s'.results == (if s.outcomes[i].Value? then s.results[i := s.outcomes[i].value] else s.results)
    && s'.exception == if s.exception == None && s.outcomes[i].Failure? then Some(s.outcomes[i].error) else s.exception
  }

  ghost predicate RecordsNothing<T, E>(s: State<T, E>, s': State<T, E>) {
    s'.posted == s.posted && s'.results == s.results && s'.exception == s.exception
  }

  ghost predicate SomeoneStores<T, E>(s: State<T, E>, s': State<T, E>) {
    exists i: nat :: Stores(s, s', i)
  }

  lemma StepRecords<T, E>(s: State<T, E>, s': State<T, E>)
    requires Sized(s) && Next(s, s')
    ensures Sized(s') && s'.outcomes == s.outcomes
    ensures forall i: nat :: Stores(s, s', i) ==> Records(s, s', i)
    ensures !SomeoneStores(s, s') ==> RecordsNothing(s, s')
  {
    hide Stores;
    if a :| CanWait(s, a) && s' == AfterWait(s, a) {
      WaitRecords(s, a);
    } else {
      var i: nat, a :| i < |s.posts| && CanPost(s, i, a) && s' == AfterPost(s, i, a);
      PostRecords(s, i, a);
    }
  }

  lemma WaitRecords<T, E>(s: State<T, E>, a: Action)
    requires Sized(s) && CanWait(s, a)
    ensures var s' := AfterWait(s, a);
      Sized(s') && s'.outcomes == s.outcomes && !SomeoneStores(s, s') && RecordsNothing(s, s')
  {
  }

  lemma PostRecords<T, E>(s: State<T, E>, i: nat, a: Action)
    requires Sized(s) && i < |s.posts| && CanPost(s, i, a)
    ensures var s' := AfterPost(s, i, a);
      && Sized(s') && s'.outcomes == s.outcomes && (forall j: nat :: Stores(s, s', j) ==> Records(s, s', j))
      && (!SomeoneStores(s, s') ==> RecordsNothing(s, s'))
  {
    if a.Store? {
      assert Stores(s, AfterPost(s, i, a), i);
    }
  }

  // ----- whole traces -----

  ghost function StoredIn<T, E>(s: State<T, E>, s': State<T, E>): seq<nat> {
    if exists i: nat :: Stores(s, s', i) then var i: nat :| Stores(s, s', i); [i] else []
  }

  // The tasks in the order in which they stored their outcomes.
  ghost function Stored<T, E>(tr: seq<State<T, E>>, k: nat): seq<nat>
    requires k < |tr|
  {
    if k == 0 then [] else Stored(tr, k - 1) + StoredIn(tr[k - 1], tr[k])
  }

  lemma {:induction false} TraceInv<T(!new), E(!new)>(tr: seq<State<T, E>>, k: nat)
    requires Trace(tr) && k < |tr|
    ensures Inv(tr[k])
  {
    hide Inv, Init, Next;
    if k == 0 {
      InitInv(tr[0]);
    } else {
      TraceInv(tr, k - 1);
      if tr[k] != tr[k - 1] {
        NextInv(tr[k - 1], tr[k]);
      }
    }
  }

  // One step of a trace, pauses included.
  lemma TraceStep<T(!new), E(!new)>(tr: seq<State<T, E>>, k: nat)
    requires Trace(tr) && 0 < k < |tr|
    ensures Sized(tr[k - 1]) && Sized(tr[k]) && tr[k].outcomes == tr[k - 1].outcomes
    ensures var s, s' := tr[k - 1], tr[k];
      (forall i: nat :: Stores(s, s', i) ==> Records(s, s', i)) && (!SomeoneStores(s, s') ==> RecordsNothing(s, s'))
  {
    hide Next, Mutex, Counters, Posted, Awaited;
    TraceInv(tr, k - 1);
    TraceInv(tr, k);
    if tr[k] != tr[k - 1] {
      StepRecords(tr[k - 1], tr[k]);
    }
  }

  // The record kept in the state is the order seen; what the tasks end with is settled.
  lemma {:induction false} StoredIsPosted<T(!new), E(!new)>(tr: seq<State<T, E>>, k: nat)
    requires Trace(tr) && k < |tr|
    ensures tr[k].posted == Stored(tr, k) && tr[k].outcomes == tr[0].outcomes
  {
    hide Next, Stores;
    if k > 0 {
      StoredIsPosted(tr, k - 1);
      TraceStep(tr, k);
    }
  }

  // The exception, once set, is never replaced, and no store is taken back.
  lemma {:induction false} HistoryGrows<T(!new), E(!new)>(tr: seq<State<T, E>>, i: nat, j: nat)
    requires Trace(tr) && i <= j < |tr|
    ensures Stored(tr, i) <= Stored(tr, j)
    ensures tr[i].exception.Some? ==> tr[j].exception == tr[i].exception
  {
    hide Init, Next, Stores, StoredIn;
    if i < j {
      HistoryGrows(tr, i, j - 1);
      TraceStep(tr, j);
      Longer(Stored(tr, i), Stored(tr, j - 1), StoredIn(tr[j - 1], tr[j]));
    }
  }

  lemma Longer<X>(a: seq<X>, b: seq<X>, c: seq<X>)
    requires a <= b
    ensures a <= b + c
  {
  }

  // ----- the first failure -----

  // At step j a task stores an outcome of the given kind.
  ghost predicate StoresAt<T, E>(tr: seq<State<T, E>>, j: nat, i: nat) {
    0 < j < |tr| && Stores(tr[j - 1], tr[j], i)
  }

  ghost predicate FailsAt<T, E>(tr: seq<State<T, E>>, j: nat, i: nat) {
    StoresAt(tr, j, i) && i < |tr[0].outcomes| && tr[0].outcomes[i].Failure?
  }

  // The i-th task stores a failure at step j, and no task did so before.
  ghost predicate FailsFirst<T, E>(tr: seq<State<T, E>>, j: nat, i: nat) {
    FailsAt(tr, j, i) && forall k: nat, l: nat :: k < j ==> !FailsAt(tr, k, l)
  }

  ghost predicate ExceptionFits<T, E>(tr: seq<State<T, E>>, k: nat)
    requires k < |tr|
  {
    match tr[k].exception
    case None => forall j: nat, i: nat :: j <= k ==> !FailsAt(tr, j, i)
    case Some(e) => exists j: nat, i: nat :: j <= k && FailsFirst(tr, j, i) && tr[0].outcomes[i].error == e
  }

  // The exception is that of the first failing store so far.
  lemma {:induction false} ExceptionIsFirst<T(!new), E(!new)>(tr: seq<State<T, E>>, k: nat)
    requires Trace(tr) && k < |tr|
    ensures ExceptionFits(tr, k)
  {
    hide Next;
    if k == 0 {
      assert forall i: nat :: !FailsAt(tr, 0, i);
      NoException(tr);
    } else {
      ExceptionIsFirst(tr, k - 1);
      TraceStep(tr, k);
      StoredIsPosted(tr, k - 1);
      if tr[k - 1].exception.None? && tr[k].exception.Some? {
        var i: nat :| Stores(tr[k - 1], tr[k], i);
        assert FailsFirst(tr, k, i);
      }
    }
  }

  lemma NoException<T(!new), E(!new)>(tr: seq<State<T, E>>)
    requires Trace(tr)
    ensures tr[0].exception == None && Sized(tr[0])
  {
  }

  // What a finished call has to report: the error of the first task seen to store a failure,
  // or else all values, each in its slot.
  ghost predicate Deserved<T, E>(tr: seq<State<T, E>>, k: nat, r: Report<T, E>)
    requires k < |tr|
  {
    var outcomes := tr[0].outcomes;
    if exists i :: 0 <= i < |outcomes| && outcomes[i].Failure? then
      exists j: nat, i: nat :: j <= k && FailsFirst(tr, j, i) && r == Raised(outcomes[i].error)
    else
      r.Results? && |r.values| == |outcomes| && forall i :: 0 <= i < |outcomes| ==> outcomes[i] == Value(r.values[i])
  }

  // When the waiter leaves its loop, each task has been seen to store once, and the report
  // is the one deserved.
  lemma Finishes<T(!new), E(!new)>(tr: seq<State<T, E>>, k: nat)
    requires Trace(tr) && k < |tr| && tr[k].wait.Finished?
    ensures EachOnce(Stored(tr, k), |tr[0].outcomes|) && Deserved(tr, k, tr[k].wait.result)
  {
    TraceInv(tr, k);
    FinishedCorrect(tr[k]);
    StoredIsPosted(tr, k);
    ExceptionIsFirst(tr, k);
    hide Stored, FailsFirst, Trace;
    FinishedReports(tr[k]);
    var outcomes := tr[0].outcomes;
    if i :| 0 <= i < |outcomes| && outcomes[i].Failure? {
      assert i in tr[k].posted;
      FailureRaises(outcomes, tr[k].posted, i);
    }
  }

  lemma FinishedReports<T, E>(s: State<T, E>)
    requires Inv(s) && s.wait.Finished?
    ensures s.wait.result == Reported(s) && s.exception == FirstFailure(s.outcomes, s.posted)
  {
  }

  lemma {:induction false} FailureRaises<T, E>(outcomes: seq<Outcome<T, E>>, posted: seq<nat>, i: nat)
    requires i in posted && i < |outcomes| && outcomes[i].Failure?
    ensures FirstFailure(outcomes, posted).Some?
  {
    if FirstFailure(outcomes, posted).None? {
      NoFailure(outcomes, posted, i);
    }
  }
}
