// when_all over a vector of tasks: each task posts its outcome under a mutex and notifies,
// the waiter sleeps on the condition variable until all have posted.
module WhenAll {
  import opened Options
  import opened Tally

  // What a task will end with.
  datatype Outcome<T, E> = Value(value: T) | Failure(error: E)

  datatype Post =
    | NotStarted
    | Running   // the awaited task runs
    | Locking   // has its outcome, about to lock
    | Storing   // holds the lock
    | Counting  // holds the lock, stored its outcome
    | Counted   // holds the lock, incremented the counter
    | Notifying // unlocked, about to notify all
    | Done

  datatype Wait<T, E> =
    | Launching(next: nat)
    | Checking      // evaluates the loop condition without the lock
    | Acquiring     // saw the counter below the total, about to lock
    | Rechecking    // holds the lock
    | FallingAsleep // holds the lock, saw the counter below the total again
    | Asleep
    | Waking        // notified, about to lock again
    | Releasing     // holds the lock, about to leave the block
    | Finished(result: Report<T, E>)

  // What the waiter returns or rethrows.
  datatype Report<T, E> = Results(values: seq<T>) | Raised(error: E)

  datatype Who = Waiter | Poster(index: nat)

  // `outcomes` is what the tasks will end with and `posted` the order in which they stored it.
  datatype State<T, E> = State(
    outcomes: seq<Outcome<T, E>>, posts: seq<Post>, wait: Wait<T, E>, owner: Option<Who>,
    results: seq<T>, completed: nat, exception: Option<E>, posted: seq<nat>)

  datatype Action = Launch | Check | Lock | Recheck | Sleep | WakeSpuriously | Unlock | Complete | Store | Count | NotifyAll

  predicate PostHolds(p: Post) {
    p.Storing? || p.Counting? || p.Counted?
  }

  predicate WaitHolds<T, E>(w: Wait<T, E>) {
    w.Rechecking? || w.FallingAsleep? || w.Releasing?
  }

  predicate IsDone<T, E>(s: State<T, E>) {
    s.completed >= |s.posts|
  }

  // ----- steps -----

  predicate CanWait<T, E>(s: State<T, E>, a: Action) {
    match a
    case Launch => s.wait.Launching?
    case Check => s.wait.Checking?
    case Lock => s.owner == None && (s.wait.Acquiring? || s.wait.Waking?)
    case Recheck => s.wait.Rechecking?
    case Sleep => s.wait.FallingAsleep?
    case WakeSpuriously => s.wait.Asleep?
    case Unlock => s.wait.Releasing?
    case _ => false
  }

  function Reported<T, E>(s: State<T, E>): Report<T, E> {
    if s.exception.Some? then Raised(s.exception.value) else Results(s.results)
  }

  function AfterWait<T, E>(s: State<T, E>, a: Action): State<T, E>
    requires CanWait(s, a)
  {
    match a
    case Launch =>
      if s.wait.next < |s.posts| then
        s.(posts := s.posts[s.wait.next := Running], wait := Launching(s.wait.next + 1))
      else
        s.(wait := Checking)
    case Check => s.(wait := if IsDone(s) then Finished(Reported(s)) else Acquiring)
    case Lock => s.(owner := Some(Waiter), wait := if s.wait.Acquiring? then Rechecking else Releasing)
    case Recheck => s.(wait := if IsDone(s) then Releasing else FallingAsleep)
    case Sleep => s.(owner := None, wait := Asleep)
    case WakeSpuriously => s.(wait := Waking)
    case Unlock => s.(owner := None, wait := Checking)
  }

  predicate CanPost<T, E>(s: State<T, E>, i: nat, a: Action)
    requires i < |s.posts|
  {
    match a
    case Complete => s.posts[i].Running?
    case Lock => s.owner == None && s.posts[i].Locking?
    case Store => s.posts[i].Storing?
    case Count => s.posts[i].Counting?
    case Unlock => s.posts[i].Counted?
    case NotifyAll => s.posts[i].Notifying?
    case _ => false
  }

  function AfterPost<T, E>(s: State<T, E>, i: nat, a: Action): State<T, E>
    requires i < |s.posts| == |s.outcomes| == |s.results| && CanPost(s, i, a)
  {
    match a
    case Complete => s.(posts := s.posts[i := Locking])
    case Lock => s.(posts := s.posts[i := Storing], owner := Some(Poster(i)))
    case Store =>
      var s' := s.(posts := s.posts[i := Counting], posted := s.posted + [i]);
      if s.outcomes[i].Value? then s'.(results := s.results[i := s.outcomes[i].value])
      else if s.exception == None then s'.(exception := Some(s.outcomes[i].error))
      else s'
    case Count => s.(posts := s.posts[i := Counted], completed := s.completed + 1)
    case Unlock => s.(posts := s.posts[i := Notifying], owner := None)
    case NotifyAll => s.(posts := s.posts[i := Done], wait := if s.wait.Asleep? then Waking else s.wait)
  }

  ghost predicate Sized<T, E>(s: State<T, E>) {
    |s.posts| == |s.outcomes| == |s.results|
  }

  ghost predicate Init<T, E>(s: State<T, E>) {
    && Sized(s) && (forall i :: 0 <= i < |s.posts| ==> s.posts[i] == NotStarted)
    && s.wait == Launching(0) && s.owner == None && s.completed == 0 && s.exception == None && s.posted == []
  }

  ghost predicate Next<T, E>(s: State<T, E>, s': State<T, E>) {
    && Sized(s)
    && ((exists a :: CanWait(s, a) && s' == AfterWait(s, a))
      || (exists i: nat, a :: i < |s.posts| && CanPost(s, i, a) && s' == AfterPost(s, i, a)))
  }

  ghost predicate Run<T(!new), E(!new)>(run: seq<State<T, E>>) {
    |run| > 0 && Init(run[0]) && forall i :: 0 < i < |run| ==> Next(run[i - 1], run[i])
  }

  // ----- the invariant -----

  ghost predicate Mutex<T, E>(s: State<T, E>) {
    && (WaitHolds(s.wait) <==> s.owner == Some(Waiter))
    && (forall i: nat :: i < |s.posts| ==> (PostHolds(s.posts[i]) <==> s.owner == Some(Poster(i))))
    && (s.owner.Some? && s.owner.value.Poster? ==>
      s.owner.value.index < |s.posts| && PostHolds(s.posts[s.owner.value.index]))
  }

  predicate HasStored(p: Post) {
    p.Counting? || p.Counted? || p.Notifying? || p.Done?
  }

  function HasCounted(p: Post): int {
    if p.Counted? || p.Notifying? || p.Done? then 1 else 0
  }

  // The counter counts the tasks past their increment; the others come in launch order.
  ghost predicate Counters<T, E>(s: State<T, E>) {
    && s.completed == Sum(s.posts, HasCounted)
    && (forall i :: 0 <= i < |s.posts| ==> (s.posts[i].NotStarted? <==> s.wait.Launching? && s.wait.next <= i))
    && (s.wait.Launching? ==> s.wait.next <= |s.posts|)
    && (s.wait.FallingAsleep? ==> !IsDone(s))
  }

  // The error of the first task in `posted` that failed.
  ghost function FirstFailure<T, E>(outcomes: seq<Outcome<T, E>>, posted: seq<nat>): Option<E> {
    if posted == [] then None
    else
      var before := FirstFailure(outcomes, posted[..|posted| - 1]);
      var i := posted[|posted| - 1];
      if before == None && i < |outcomes| && outcomes[i].Failure? then Some(outcomes[i].error) else before
  }

  // Each task stores once; the slots and the exception are what the stores so far make them.
  ghost predicate Posted<T, E>(s: State<T, E>)
    requires Sized(s)
  {
    && (forall i: nat :: i < |s.posts| ==> (HasStored(s.posts[i]) <==> i in s.posted))
    && (forall i, j :: 0 <= i < j < |s.posted| ==> s.posted[i] != s.posted[j])
    && (forall i :: i in s.posted ==> i < |s.posts|)
    && (forall i: nat :: i < |s.posts| && i in s.posted && s.outcomes[i].Value? ==> s.results[i] == s.outcomes[i].value)
    && s.exception == FirstFailure(s.outcomes, s.posted)
  }

  ghost predicate SomeoneNotifies<T, E>(s: State<T, E>) {
    exists i :: 0 <= i < |s.posts| && (s.posts[i].Counted? || s.posts[i].Notifying?)
  }

  // A sleeping waiter still has a task to wait for or a notification to come.
  ghost predicate Awaited<T, E>(s: State<T, E>) {
    && (s.wait.Asleep? && IsDone(s) ==> SomeoneNotifies(s))
    && (s.wait.Finished? ==> IsDone(s) && s.wait.result == Reported(s))
  }

  ghost predicate Inv<T, E>(s: State<T, E>) {
    Sized(s) && Mutex(s) && Counters(s) && Posted(s) && Awaited(s)
  }

  lemma InitInv<T, E>(s: State<T, E>)
    requires Init(s)
    ensures Inv(s)
  {
    SumZero(s.posts, HasCounted);
  }

  // When the counter has reached the total, every task has stored and counted.
  lemma AllCounted<T, E>(s: State<T, E>)
    requires Counters(s) && IsDone(s)
    ensures forall i :: 0 <= i < |s.posts| ==> HasCounted(s.posts[i]) == 1
  {
    FullSum(s.posts, HasCounted);
  }

  lemma WaitMutex<T, E>(s: State<T, E>, a: Action)
    requires Sized(s) && Mutex(s) && Counters(s) && CanWait(s, a)
    ensures Sized(AfterWait(s, a)) && Mutex(AfterWait(s, a))
  {
  }

  lemma WaitCounters<T, E>(s: State<T, E>, a: Action)
    requires Sized(s) && Counters(s) && CanWait(s, a)
    ensures Counters(AfterWait(s, a))
  {
    if a.Launch? && s.wait.next < |s.posts| {
      SumUpdate(s.posts, HasCounted, s.wait.next, Running);
    }
  }

  lemma WaitPosted<T, E>(s: State<T, E>, a: Action)
    requires Sized(s) && Counters(s) && Posted(s) && CanWait(s, a)
    ensures Sized(AfterWait(s, a)) && Posted(AfterWait(s, a))
  {
  }

  lemma WaitAwaited<T, E>(s: State<T, E>, a: Action)
    requires Sized(s) && Counters(s) && Awaited(s) && CanWait(s, a)
    ensures Awaited(AfterWait(s, a))
  {
  }

  lemma WaitInv<T, E>(s: State<T, E>, a: Action)
    requires Inv(s) && CanWait(s, a)
    ensures Inv(AfterWait(s, a))
  {
    hide Mutex, Counters, Posted, Awaited, CanWait, AfterWait;
    WaitMutex(s, a);
    WaitCounters(s, a);
    WaitPosted(s, a);
    WaitAwaited(s, a);
  }

  lemma PostInv<T, E>(s: State<T, E>, i: nat, a: Action)
    requires Inv(s) && i < |s.posts| && CanPost(s, i, a)
    ensures Inv(AfterPost(s, i, a))
  {
    PostSized(s, i, a);
    hide Mutex, Counters, Posted, Awaited, CanPost, AfterPost;
    PostMutex(s, i, a);
    PostCounters(s, i, a);
    PostPosted(s, i, a);
    PostAwaited(s, i, a);
  }

  lemma PostSized<T, E>(s: State<T, E>, i: nat, a: Action)
    requires Sized(s) && i < |s.posts| && CanPost(s, i, a)
    ensures Sized(AfterPost(s, i, a))
  {
  }

  lemma PostMutex<T, E>(s: State<T, E>, i: nat, a: Action)
    requires Inv(s) && i < |s.posts| && CanPost(s, i, a)
    ensures Mutex(AfterPost(s, i, a))
  {
    hide Counters, Posted, Awaited;
  }

  lemma PostCounters<T, E>(s: State<T, E>, i: nat, a: Action)
    requires Inv(s) && i < |s.posts| && CanPost(s, i, a)
    ensures Counters(AfterPost(s, i, a))
  {
    hide Posted, Awaited;
    SumUpdate(s.posts, HasCounted, i, AfterPost(s, i, a).posts[i]);
  }

  lemma PostPosted<T, E>(s: State<T, E>, i: nat, a: Action)
    requires Inv(s) && i < |s.posts| && CanPost(s, i, a)
    ensures Sized(AfterPost(s, i, a)) && Posted(AfterPost(s, i, a))
  {
    hide Counters, Mutex, Awaited, FirstFailure;
    if a.Store? {
      StorePosted(s, i);
    }
  }

  lemma StorePosted<T, E>(s: State<T, E>, i: nat)
    requires Sized(s) && Posted(s) && i < |s.posts| && CanPost(s, i, Store)
    ensures Sized(AfterPost(s, i, Store)) && Posted(AfterPost(s, i, Store))
  {
    hide FirstFailure;
    var s' := AfterPost(s, i, Store);
    FailureAppend(s.outcomes, s.posted, i);
    assert forall k :: k in s'.posted <==> k in s.posted || k == i;
  }

  lemma FailureAppend<T, E>(outcomes: seq<Outcome<T, E>>, posted: seq<nat>, i: nat)
    requires i < |outcomes|
    ensures FirstFailure(outcomes, posted + [i]) ==
      var before := FirstFailure(outcomes, posted);
      if before == None && outcomes[i].Failure? then Some(outcomes[i].error) else before
  {
  }

  lemma PostAwaited<T, E>(s: State<T, E>, i: nat, a: Action)
    requires Inv(s) && i < |s.posts| && CanPost(s, i, a)
    ensures Awaited(AfterPost(s, i, a))
  {
    hide Posted;
    var s' := AfterPost(s, i, a);
    if IsDone(s) {
      AllCounted(s);
    }
    if s'.wait.Asleep? && IsDone(s') {
      if IsDone(s) {
        var j :| 0 <= j < |s.posts| && (s.posts[j].Counted? || s.posts[j].Notifying?);
        assert s'.posts[j].Counted? || s'.posts[j].Notifying?;
      } else {
        assert s'.posts[i].Counted?;
      }
    }
  }

  lemma {:induction false} RunInv<T(!new), E(!new)>(run: seq<State<T, E>>, k: nat)
    requires Run(run) && k < |run|
    ensures Inv(run[k])
  {
    hide Inv, Init;
    if k == 0 {
      InitInv(run[0]);
    } else {
      RunInv(run, k - 1);
      NextInv(run[k - 1], run[k]);
    }
  }

  lemma NextInv<T, E>(s: State<T, E>, s': State<T, E>)
    requires Inv(s) && Next(s, s')
    ensures Inv(s')
  {
    hide Mutex, Counters, Posted, Awaited, CanWait, AfterWait, CanPost, AfterPost;
    if a :| CanWait(s, a) && s' == AfterWait(s, a) {
      WaitInv(s, a);
    } else {
      var i: nat, a :| i < |s.posts| && CanPost(s, i, a) && s' == AfterPost(s, i, a);
      PostInv(s, i, a);
    }
  }

  // ----- every run -----

  // The result the tasks' outcomes and the order of their posts call for.
  ghost predicate Correct<T, E>(s: State<T, E>, r: Report<T, E>)
    requires Sized(s)
  {
    match FirstFailure(s.outcomes, s.posted)
    case Some(e) => r == Raised(e)
    case None =>
      (&& r.Results? && |r.values| == |s.outcomes|
       && forall i :: 0 <= i < |s.outcomes| ==> s.outcomes[i] == Value(r.values[i]))
  }

  ghost predicate EachOnce(posted: seq<nat>, n: nat) {
    && (forall i: nat :: i in posted <==> i < n)
    && (forall i, j :: 0 <= i < j < |posted| ==> posted[i] != posted[j])
  }

  // When the waiter leaves its loop, each task has posted exactly once, and the result is
  // either every task's value in its slot or the first error posted.
  lemma Finishes<T(!new), E(!new)>(run: seq<State<T, E>>, k: nat)
    requires Run(run) && k < |run| && run[k].wait.Finished?
    ensures Sized(run[k]) && EachOnce(run[k].posted, |run[k].outcomes|) && Correct(run[k], run[k].wait.result)
  {
    RunInv(run, k);
    FinishedCorrect(run[k]);
  }

  lemma FinishedCorrect<T, E>(s: State<T, E>)
    requires Inv(s) && s.wait.Finished?
    ensures EachOnce(s.posted, |s.outcomes|) && Correct(s, s.wait.result)
  {
    AllCounted(s);
    if FirstFailure(s.outcomes, s.posted) == None {
      forall i: nat | i < |s.outcomes| ensures s.outcomes[i].Value? {
        assert i in s.posted;
        NoFailure(s.outcomes, s.posted, i);
      }
    }
  }

  lemma {:induction false} NoFailure<T, E>(outcomes: seq<Outcome<T, E>>, posted: seq<nat>, i: nat)
    requires FirstFailure(outcomes, posted) == None && i in posted && i < |outcomes|
    ensures outcomes[i].Value?
  {
    var n := |posted| - 1;
    if i != posted[n] {
      NoFailure(outcomes, posted[..n], i);
    }
  }

  // The first failure is an error of some task that failed, and no task posted before it did.
  lemma {:induction false} FirstFailureIsFirst<T, E>(outcomes: seq<Outcome<T, E>>, posted: seq<nat>) returns (k: nat)
    requires FirstFailure(outcomes, posted).Some?
    ensures k < |posted| && posted[k] < |outcomes|
    ensures outcomes[posted[k]] == Failure(FirstFailure(outcomes, posted).value)
    ensures forall j :: 0 <= j < k && posted[j] < |outcomes| ==> outcomes[posted[j]].Value?
  {
    k := |posted| - 1;
    if FirstFailure(outcomes, posted[..k]).Some? {
      k := FirstFailureIsFirst(outcomes, posted[..k]);
    } else {
      forall j | 0 <= j < k && posted[j] < |outcomes| ensures outcomes[posted[j]].Value? {
        assert posted[..k][j] in posted[..k];
        NoFailure(outcomes, posted[..k], posted[j]);
      }
    }
  }

  // No wakeup is lost: a waiter asleep with every task counted will be notified.
  lemma NoLostWakeup<T(!new), E(!new)>(run: seq<State<T, E>>, k: nat)
    requires Run(run) && k < |run| && run[k].wait.Asleep? && IsDone(run[k])
    ensures SomeoneNotifies(run[k])
  {
    RunInv(run, k);
  }

  // ----- no deadlock -----

  ghost predicate Stuck<T, E>(s: State<T, E>) {
    && (forall a :: a != WakeSpuriously ==> !CanWait(s, a))
    && (forall i: nat, a :: i < |s.posts| ==> !CanPost(s, i, a))
  }

  lemma StuckPost<T, E>(s: State<T, E>, i: nat)
    requires Stuck(s) && i < |s.posts|
    ensures !s.posts[i].Running? && !s.posts[i].Notifying? && !PostHolds(s.posts[i])
    ensures s.posts[i].Locking? ==> s.owner != None
  {
    assert !CanPost(s, i, Complete) && !CanPost(s, i, Lock) && !CanPost(s, i, Store) && !CanPost(s, i, Count)
      && !CanPost(s, i, Unlock) && !CanPost(s, i, NotifyAll);
  }

  lemma StuckWait<T, E>(s: State<T, E>)
    requires Stuck(s)
    ensures s.wait.Asleep? || s.wait.Finished? || (s.owner != None && !WaitHolds(s.wait) && !s.wait.Launching?)
  {
    assert !CanWait(s, Launch) && !CanWait(s, Check) && !CanWait(s, Lock) && !CanWait(s, Recheck)
      && !CanWait(s, Sleep) && !CanWait(s, Unlock);
  }

  // If nobody holds the mutex, it is free.
  lemma FreeMutex<T, E>(s: State<T, E>)
    requires Mutex(s) && !WaitHolds(s.wait) && forall i :: 0 <= i < |s.posts| ==> !PostHolds(s.posts[i])
    ensures s.owner == None
  {
  }

  // If no thread can move, every task is done and the waiter has its result.
  lemma NoDeadlock<T(!new), E(!new)>(run: seq<State<T, E>>, k: nat)
    requires Run(run) && k < |run| && Stuck(run[k])
    ensures run[k].wait.Finished? && forall i :: 0 <= i < |run[k].posts| ==> run[k].posts[i].Done?
  {
    RunInv(run, k);
    StuckDone(run[k]);
  }

  lemma StuckDone<T, E>(s: State<T, E>)
    requires Inv(s) && Stuck(s)
    ensures s.wait.Finished? && forall i :: 0 <= i < |s.posts| ==> s.posts[i].Done?
  {
    hide Posted, Mutex, Stuck;
    StuckWait(s);
    forall i: nat | i < |s.posts|
      ensures !s.posts[i].Running? && !s.posts[i].Notifying? && !PostHolds(s.posts[i])
      ensures s.posts[i].Locking? ==> s.owner != None
    {
      StuckPost(s, i);
    }
    FreeMutex(s);
    AllDone(s.posts);
  }

  lemma {:induction false} AllDone(posts: seq<Post>)
    requires forall i :: 0 <= i < |posts| ==> posts[i].Done?
    ensures Sum(posts, HasCounted) == |posts|
  {
    if posts != [] {
      AllDone(posts[..|posts| - 1]);
    }
  }

  // ----- progress -----

  function PostWork(p: Post): int {
    match p
    case NotStarted => 30
    case Running => 29
    case Locking => 28
    case Storing => 27
    case Counting => 26
    case Counted => 14
    case Notifying => 12
    case Done => 0
  }

  function WaitWork<T, E>(w: Wait<T, E>, done: bool): nat {
    match w
    case Launching(_) => 9
    case Waking => if done then 4 else 8
    case Releasing => if done then 2 else 6
    case Checking => if done then 1 else 5
    case Acquiring => 4
    case Rechecking => 3
    case FallingAsleep => 2
    case Asleep => 0
    case Finished(_) => 0
  }

  ghost function Work<T, E>(s: State<T, E>): int {
    Sum(s.posts, PostWork) + WaitWork(s.wait, IsDone(s))
  }

  lemma WaitProgress<T, E>(s: State<T, E>, a: Action)
    requires CanWait(s, a) && a != WakeSpuriously && (s.wait.FallingAsleep? ==> !IsDone(s))
    requires s.wait.Launching? && s.wait.next < |s.posts| ==> s.posts[s.wait.next].NotStarted?
    ensures Work(AfterWait(s, a)) < Work(s)
  {
    if a.Launch? && s.wait.next < |s.posts| {
      SumUpdate(s.posts, PostWork, s.wait.next, Running);
    }
  }

  lemma PostProgress<T, E>(s: State<T, E>, i: nat, a: Action)
    requires Sized(s) && i < |s.posts| && CanPost(s, i, a)
    ensures Work(AfterPost(s, i, a)) < Work(s)
  {
    SumUpdate(s.posts, PostWork, i, AfterPost(s, i, a).posts[i]);
  }

  // Apart from spurious wakeups, every step uses up some of the remaining work, so every
  // schedule ends, and by NoDeadlock it ends with the result.
  lemma Progress<T, E>(s: State<T, E>, s': State<T, E>)
    requires Inv(s) && Next(s, s') && !(s.wait.Asleep? && s' == AfterWait(s, WakeSpuriously))
    ensures 0 <= Work(s') < Work(s)
  {
    hide Mutex, Posted, Awaited, Work, AfterWait, AfterPost;
    WorkNonNegative(s');
    if a :| CanWait(s, a) && s' == AfterWait(s, a) {
      WaitProgress(s, a);
    } else {
      var i: nat, a :| i < |s.posts| && CanPost(s, i, a) && s' == AfterPost(s, i, a);
      PostProgress(s, i, a);
    }
  }

  ghost predicate Spurious<T, E>(s: State<T, E>, s': State<T, E>) {
    s.wait.Asleep? && s' == AfterWait(s, WakeSpuriously)
  }

  // Without spurious wakeups no run is longer than the work at its start allows.
  lemma RunsEnd<T(!new), E(!new)>(run: seq<State<T, E>>)
    requires Run(run) && forall i :: 0 < i < |run| ==> !Spurious(run[i - 1], run[i])
    ensures |run| <= Work(run[0]) + 1
  {
    hide Inv, Init, Next, Work;
    var work := seq(|run|, i requires 0 <= i < |run| => Work(run[i]));
    forall i | 0 <= i < |run| ensures work[i] >= 0 {
      WorkNonNegative(run[i]);
    }
    forall i | 0 < i < |run| ensures work[i] < work[i - 1] {
      RunInv(run, i - 1);
      assert Next(run[i - 1], run[i]) && !Spurious(run[i - 1], run[i]);
      Progress(run[i - 1], run[i]);
    }
    Descends(work);
  }

  lemma WorkNonNegative<T, E>(s: State<T, E>)
    ensures Work(s) >= 0
  {
    SumNonNegative(s.posts, PostWork);
  }
}
