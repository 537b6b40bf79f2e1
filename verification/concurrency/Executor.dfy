// The executor: client threads schedule handles on a queue, workers take and resume them.
// Every lock, unlock, wait and notification is one step of one thread.
module Executor {
  import opened Options
  import opened Tally

  // Where a thread stands in the worker loop. Clients never enter it.
  datatype Loop<H> =
    | Client
    | Locking               // about to lock, at the top of the loop or woken from the wait
    | Testing               // holds the lock, evaluates the wait's condition
    | Asleep                // on the condition variable
    | Taking                // holds the lock, the condition held
    | Leaving(ticket: nat, handle: H) // holds the lock and the handle it took
    | Quitting              // holds the lock, about to return
    | Running(ticket: nat, handle: H) // resumes it
    | Exited

  // Where a thread stands in a call of schedule or shutdown.
  datatype Call<H> =
    | Idle
    | Scheduling(handle: H) // about to lock
    | Deciding(handle: H)   // holds the lock
    | Rejected              // holds the lock, saw the stop flag
    | Pushed                // holds the lock, the handle is queued
    | OwesOne               // about to notify one
    | Stopping              // about to lock
    | Marking               // holds the lock
    | Marked                // holds the lock, the flag is set
    | OwesAll               // about to notify all
    | Joining               // waits for every worker to return

  datatype Thread<H> = Thread(loop: Loop<H>, call: Call<H>)

  // `accepted`, `dequeued` and `resumed` record what happened so far. A ticket is a
  // position in `accepted`.
  datatype State<H> = State(
    threads: seq<Thread<H>>, owner: Option<nat>, queue: seq<H>, stopped: bool,
    accepted: seq<H>, dequeued: seq<H>, resumed: seq<nat>)

  datatype Action<H> =
    | Lock | Sleep | WakeSpuriously | Proceed | Pop | Quit | Unlock | Resume
    | CallSchedule(handle: H) | Push | Reject | NotifyOne(woken: nat) | NotifyNobody
    | CallShutdown | Mark | NotifyAll | Join

  predicate Holds<H>(th: Thread<H>) {
    || th.loop.Testing? || th.loop.Taking? || th.loop.Leaving? || th.loop.Quitting?
    || th.call.Deciding? || th.call.Rejected? || th.call.Pushed? || th.call.Marking? || th.call.Marked?
  }

  // A thread may call schedule when it is a client or while it resumes a handle.
  predicate Free<H>(th: Thread<H>) {
    th.call.Idle? && (th.loop.Client? || th.loop.Running?)
  }

  predicate Worker<H>(th: Thread<H>) {
    !th.loop.Client?
  }

  // ----- steps -----

  ghost predicate Can<H>(s: State<H>, t: nat, a: Action<H>)
    requires t < |s.threads|
  {
    var th := s.threads[t];
    match a
    case Lock => s.owner == None && (th.loop.Locking? || th.call.Scheduling? || th.call.Stopping?)
    case Sleep => th.loop.Testing? && !s.stopped && s.queue == []
    case WakeSpuriously => th.loop.Asleep?
    case Proceed => th.loop.Testing? && (s.stopped || s.queue != [])
    case Pop => th.loop.Taking? && s.queue != []
    case Quit => th.loop.Taking? && s.stopped && s.queue == []
    case Unlock => th.loop.Leaving? || th.loop.Quitting? || th.call.Rejected? || th.call.Pushed? || th.call.Marked?
    case Resume => th.loop.Running? && th.call.Idle?
    case CallSchedule(_) => Free(th)
    case Push => th.call.Deciding? && !s.stopped
    case Reject => th.call.Deciding? && s.stopped
    case NotifyOne(w) => th.call.OwesOne? && w < |s.threads| && s.threads[w].loop.Asleep?
    case NotifyNobody => th.call.OwesOne? && NoneAsleep(s)
    case CallShutdown => Free(th) && th.loop.Client?
    case Mark => th.call.Marking?
    case NotifyAll => th.call.OwesAll?
    case Join => th.call.Joining? && AllExited(s)
  }

  ghost predicate NoneAsleep<H>(s: State<H>) {
    forall i :: 0 <= i < |s.threads| ==> !s.threads[i].loop.Asleep?
  }

  ghost predicate AllExited<H>(s: State<H>) {
    forall i :: 0 <= i < |s.threads| && Worker(s.threads[i]) ==> s.threads[i].loop.Exited?
  }

  function Put<H>(s: State<H>, t: nat, th: Thread<H>): State<H>
    requires t < |s.threads|
  {
    s.(threads := s.threads[t := th])
  }

  function Woken<H>(th: Thread<H>): Thread<H> {
    if th.loop.Asleep? then th.(loop := Locking) else th
  }

  function WakeAll<H>(ths: seq<Thread<H>>): (woken: seq<Thread<H>>)
    ensures |woken| == |ths| && forall i :: 0 <= i < |ths| ==> woken[i] == Woken(ths[i])
  {
    seq(|ths|, i requires 0 <= i < |ths| => Woken(ths[i]))
  }

  function AfterUnlock<H>(th: Thread<H>): Thread<H> {
    if th.loop.Leaving? then th.(loop := Running(th.loop.ticket, th.loop.handle))
    else if th.loop.Quitting? then th.(loop := Exited)
    else if th.call.Rejected? then th.(call := Idle)
    else if th.call.Pushed? then th.(call := OwesOne)
    else th.(call := OwesAll)
  }

  function AfterLock<H>(th: Thread<H>): Thread<H> {
    if th.loop.Locking? then th.(loop := Testing)
    else if th.call.Scheduling? then th.(call := Deciding(th.call.handle))
    else th.(call := Marking)
  }

  ghost function After<H>(s: State<H>, t: nat, a: Action<H>): State<H>
    requires t < |s.threads| && Can(s, t, a)
  {
    var th := s.threads[t];
    match a
    case Lock => Put(s, t, AfterLock(th)).(owner := Some(t))
    case Sleep => Put(s, t, th.(loop := Asleep)).(owner := None)
    case WakeSpuriously => Put(s, t, th.(loop := Locking))
    case Proceed => Put(s, t, th.(loop := Taking))
    case Pop =>
      Put(s, t, th.(loop := Leaving(|s.dequeued|, s.queue[0]))).(queue := s.queue[1..], dequeued := s.dequeued + [s.queue[0]])
    case Quit => Put(s, t, th.(loop := Quitting))
    case Unlock => Put(s, t, AfterUnlock(th)).(owner := None)
    case Resume => Put(s, t, th.(loop := Locking)).(resumed := s.resumed + [th.loop.ticket])
    case CallSchedule(h) => Put(s, t, th.(call := Scheduling(h)))
    case Push =>
      Put(s, t, th.(call := Pushed)).(queue := s.queue + [th.call.handle], accepted := s.accepted + [th.call.handle])
    case Reject => Put(s, t, th.(call := Rejected))
    case NotifyOne(w) => Put(Put(s, t, th.(call := Idle)), w, s.threads[w].(loop := Locking))
    case NotifyNobody => Put(s, t, th.(call := Idle))
    case CallShutdown => Put(s, t, th.(call := Stopping))
    case Mark => Put(s, t, th.(call := Marked)).(stopped := true)
    case NotifyAll =>
      Put(s.(threads := WakeAll(s.threads)), t, th.(call := Joining))
    case Join => Put(s, t, th.(call := Idle))
  }

  // Some workers, about to enter their loop, and some clients; nothing queued.
  ghost predicate Init<H>(s: State<H>) {
    && (forall i :: 0 <= i < |s.threads| ==> s.threads[i].call.Idle? && (s.threads[i].loop.Client? || s.threads[i].loop.Locking?))
    && (exists i :: 0 <= i < |s.threads| && Worker(s.threads[i]))
    && s.owner == None && !s.stopped && s.queue == s.accepted == s.dequeued == [] && s.resumed == []
  }

  ghost predicate Next<H(!new)>(s: State<H>, s': State<H>) {
    exists t: nat, a :: t < |s.threads| && Can(s, t, a) && s' == After(s, t, a)
  }

  // Every run: any number of threads, any interleaving.
  ghost predicate Run<H(!new)>(run: seq<State<H>>) {
    |run| > 0 && Init(run[0]) && forall i :: 0 < i < |run| ==> Next(run[i - 1], run[i])
  }

  // ----- the invariant -----

  ghost predicate Mutex<H>(s: State<H>) {
    && (s.owner.Some? ==> s.owner.value < |s.threads|)
    && forall t: nat :: t < |s.threads| ==> (Holds(s.threads[t]) <==> s.owner == Some(t))
  }

  // Only clients and workers in the middle of a resume make calls; only clients shut down.
  ghost predicate Shape<H>(s: State<H>) {
    && (exists i :: 0 <= i < |s.threads| && Worker(s.threads[i]))
    && forall i :: 0 <= i < |s.threads| ==> Shaped(s.threads[i])
  }

  predicate Shaped<H>(th: Thread<H>) {
    && (!th.call.Idle? ==> th.loop.Client? || th.loop.Running?)
    && (th.call.Stopping? || th.call.Marking? || th.call.Marked? || th.call.OwesAll? || th.call.Joining? ==> th.loop.Client?)
  }

  // First in, first out.
  ghost predicate Fifo<H>(s: State<H>) {
    s.accepted == s.dequeued + s.queue
  }

  // The ticket of the handle in a worker's hands, or -1.
  function Hand<H>(th: Thread<H>): int {
    if th.loop.Leaving? || th.loop.Running? then th.loop.ticket else -1
  }

  ghost predicate InHand<H>(s: State<H>, k: int) {
    exists t :: 0 <= t < |s.threads| && Hand(s.threads[t]) == k
  }

  // Every handle taken off the queue is either in one worker's hands or was resumed once.
  ghost predicate Tickets<H>(s: State<H>) {
    && (forall k :: 0 <= k < |s.dequeued| ==> k in s.resumed || InHand(s, k))
    && (forall t :: 0 <= t < |s.threads| ==> Hand(s.threads[t]) < |s.dequeued| && Hand(s.threads[t]) !in s.resumed)
    && (forall t, u :: 0 <= t < u < |s.threads| && Hand(s.threads[t]) != -1 ==> Hand(s.threads[t]) != Hand(s.threads[u]))
    && (forall k :: k in s.resumed ==> 0 <= k < |s.dequeued|)
    && (forall i, j :: 0 <= i < j < |s.resumed| ==> s.resumed[i] != s.resumed[j])
  }

  // Workers return only after the stop flag is set and the queue has run empty.
  ghost predicate Late<H>(s: State<H>) {
    forall i :: 0 <= i < |s.threads| ==>
      && (s.threads[i].loop.Exited? || s.threads[i].loop.Quitting? ==> s.stopped && s.queue == [])
      && (s.threads[i].loop.Taking? ==> s.stopped || s.queue != [])
      && (s.threads[i].call.Marked? || s.threads[i].call.OwesAll? || s.threads[i].call.Joining? ==> s.stopped)
  }

  // A worker that will test the queue before it sleeps, or a notification still to come.
  function Covers<H>(th: Thread<H>): int {
    (if th.loop.Locking? || th.loop.Testing? || th.loop.Taking? then 1 else 0) +
    (if th.call.Pushed? || th.call.OwesOne? then 1 else 0)
  }

  predicate Wakes<H>(th: Thread<H>) {
    th.call.Marked? || th.call.OwesAll?
  }

  ghost predicate SomeoneWakes<H>(s: State<H>) {
    exists i :: 0 <= i < |s.threads| && Wakes(s.threads[i])
  }

  // While a worker sleeps, each queued handle has its own awake worker or its own pending
  // notification, and a set stop flag still has its notification of all pending.
  ghost predicate Covered<H>(s: State<H>) {
    || NoneAsleep(s)
    || (|s.queue| <= Sum(s.threads, Covers) && (s.stopped ==> SomeoneWakes(s)))
  }

  ghost predicate Inv<H>(s: State<H>) {
    Mutex(s) && Shape(s) && Fifo(s) && Tickets(s) && Late(s) && Covered(s)
  }

  lemma InitInv<H>(s: State<H>)
    requires Init(s)
    ensures Inv(s)
  {
  }

  // What one step does to the lock and to its own thread's hold on it.
  lemma OneMutex<H>(s: State<H>, t: nat, a: Action<H>)
    requires t < |s.threads| && Can(s, t, a) && Shaped(s.threads[t])
    ensures var s', th := After(s, t, a), s.threads[t];
      && |s'.threads| == |s.threads|
      && (if a.Lock? then s.owner == None && s'.owner == Some(t) && Holds(s'.threads[t])
        else if a.Sleep? || a.Unlock? then Holds(th) && !Holds(s'.threads[t]) && s'.owner == None
        else s'.owner == s.owner && Holds(s'.threads[t]) == Holds(th))
      && forall u :: 0 <= u < |s.threads| && u != t ==> Holds(s'.threads[u]) == Holds(s.threads[u])
  {
  }

  lemma StepMutex<H>(s: State<H>, t: nat, a: Action<H>)
    requires Mutex(s) && Shape(s) && t < |s.threads| && Can(s, t, a)
    ensures Mutex(After(s, t, a))
  {
    OneMutex(s, t, a);
    hide Can, After, Holds;
  }

  lemma StepShape<H>(s: State<H>, t: nat, a: Action<H>)
    requires Shape(s) && t < |s.threads| && Can(s, t, a)
    ensures Shape(After(s, t, a))
  {
    var i :| 0 <= i < |s.threads| && Worker(s.threads[i]);
    assert Worker(After(s, t, a).threads[i]);
  }

  lemma StepFifo<H>(s: State<H>, t: nat, a: Action<H>)
    requires Fifo(s) && t < |s.threads| && Can(s, t, a)
    ensures Fifo(After(s, t, a))
  {
  }

  // What each thread but possibly `t` holds stays the same.
  ghost predicate OtherHands<H>(s: State<H>, s': State<H>, t: nat) {
    && |s'.threads| == |s.threads| && t < |s.threads|
    && forall u :: 0 <= u < |s.threads| && u != t ==> Hand(s'.threads[u]) == Hand(s.threads[u])
  }

  lemma OthersInHand<H>(s: State<H>, s': State<H>, t: nat, k: int)
    requires OtherHands(s, s', t) && InHand(s, k) && (k == Hand(s.threads[t]) ==> Hand(s'.threads[t]) == k)
    ensures InHand(s', k)
  {
  }

  lemma SameHands<H>(s: State<H>, s': State<H>, t: nat)
    requires Tickets(s) && OtherHands(s, s', t) && Hand(s'.threads[t]) == Hand(s.threads[t])
    requires |s'.dequeued| == |s.dequeued| && s'.resumed == s.resumed
    ensures Tickets(s')
  {
  }

  lemma PopTickets<H>(s: State<H>, s': State<H>, t: nat)
    requires Tickets(s) && OtherHands(s, s', t)
    requires Hand(s.threads[t]) == -1 && Hand(s'.threads[t]) == |s.dequeued|
    requires |s'.dequeued| == |s.dequeued| + 1 && s'.resumed == s.resumed
    ensures Tickets(s')
  {
  }

  lemma ResumeTickets<H>(s: State<H>, s': State<H>, t: nat)
    requires Tickets(s) && OtherHands(s, s', t)
    requires Hand(s.threads[t]) >= 0 && Hand(s'.threads[t]) == -1
    requires |s'.dequeued| == |s.dequeued| && s'.resumed == s.resumed + [Hand(s.threads[t])]
    ensures Tickets(s')
  {
    hide Hand, InHand;
    assert s'.resumed[|s.resumed|] == Hand(s.threads[t]);
    forall k | 0 <= k < |s.dequeued| && k !in s'.resumed ensures InHand(s', k) {
      assert k !in s.resumed;
      OthersInHand(s, s', t, k);
    }
  }

  lemma StepTickets<H>(s: State<H>, t: nat, a: Action<H>)
    requires Tickets(s) && t < |s.threads| && Can(s, t, a)
    ensures Tickets(After(s, t, a))
  {
    HandsAfter(s, t, a);
    hide Tickets, OtherHands, Hand;
    if a.Pop? {
      PopTickets(s, After(s, t, a), t);
    } else if a.Resume? {
      ResumeTickets(s, After(s, t, a), t);
    } else {
      SameHands(s, After(s, t, a), t);
    }
  }

  lemma HandsAfter<H>(s: State<H>, t: nat, a: Action<H>)
    requires t < |s.threads| && Can(s, t, a)
    ensures var s', h := After(s, t, a), Hand(s.threads[t]);
      && OtherHands(s, s', t)
      && (if a.Pop? then h == -1 && Hand(s'.threads[t]) == |s.dequeued|
        else if a.Resume? then h == s.threads[t].loop.ticket && Hand(s'.threads[t]) == -1
        else Hand(s'.threads[t]) == h)
  {
  }

  lemma StepLate<H>(s: State<H>, t: nat, a: Action<H>)
    requires Mutex(s) && Shape(s) && Late(s) && t < |s.threads| && Can(s, t, a)
    ensures Late(After(s, t, a))
  {
  }

  lemma StepCovered<H>(s: State<H>, t: nat, a: Action<H>)
    requires Shape(s) && Late(s) && Covered(s) && t < |s.threads| && Can(s, t, a)
    ensures Covered(After(s, t, a))
  {
    var s' := After(s, t, a);
    if a.Sleep? {
      SumNonNegative(s'.threads, Covers);
    } else if !NoneAsleep(s') {
      StillAsleep(s, t, a);
      StillWakes(s, t, a);
      KeepsCount(s, t, a);
    }
  }

  lemma StillAsleep<H>(s: State<H>, t: nat, a: Action<H>)
    requires t < |s.threads| && Can(s, t, a) && !a.Sleep?
    ensures NoneAsleep(s) ==> NoneAsleep(After(s, t, a))
  {
  }

  lemma StillWakes<H>(s: State<H>, t: nat, a: Action<H>)
    requires Shape(s) && Late(s) && t < |s.threads| && Can(s, t, a) && !NoneAsleep(After(s, t, a))
    requires s.stopped ==> SomeoneWakes(s)
    ensures After(s, t, a).stopped ==> SomeoneWakes(After(s, t, a))
  {
    var s' := After(s, t, a);
    if s'.stopped {
      if a.Mark? {
        assert Wakes(s'.threads[t]);
      } else {
        var i :| 0 <= i < |s.threads| && Wakes(s.threads[i]);
        assert Wakes(s'.threads[i]);
      }
    }
  }

  // What one step does to its own thread's cover and to the queue.
  lemma OneCover<H>(s: State<H>, t: nat, a: Action<H>)
    requires t < |s.threads| && Can(s, t, a) && !a.Sleep? && !a.NotifyAll? && !a.NotifyOne? && !a.NotifyNobody?
    requires Shaped(s.threads[t])
    ensures var s' := After(s, t, a);
      && s'.threads == s.threads[t := s'.threads[t]]
      && (a.Quit? ==> s'.queue == [])
      && (!a.Quit? ==> |s'.queue| - Covers(s'.threads[t]) <= |s.queue| - Covers(s.threads[t]))
  {
  }

  // A notification that wakes a worker passes its cover on.
  lemma OneWoken<H>(s: State<H>, t: nat, w: nat)
    requires t < |s.threads| && Can(s, t, NotifyOne(w)) && Shaped(s.threads[t])
    ensures var s' := After(s, t, NotifyOne(w));
      && w != t && s'.queue == s.queue
      && s'.threads == s.threads[t := s'.threads[t]][w := s'.threads[w]]
      && Covers(s'.threads[t]) == Covers(s.threads[t]) - 1 && Covers(s'.threads[w]) == Covers(s.threads[w]) + 1
  {
  }

  lemma KeepsCount<H>(s: State<H>, t: nat, a: Action<H>)
    requires Shape(s) && t < |s.threads| && Can(s, t, a) && !a.Sleep? && !NoneAsleep(After(s, t, a))
    requires |s.queue| <= Sum(s.threads, Covers)
    ensures |After(s, t, a).queue| <= Sum(After(s, t, a).threads, Covers)
  {
    var s' := After(s, t, a);
    StillSomeoneAsleep(s, t, a);
    if a.NotifyOne? {
      OneWoken(s, t, a.woken);
      hide Can, After, Covers;
      SumUpdate(s.threads, Covers, t, s'.threads[t]);
      SumUpdate(s.threads[t := s'.threads[t]], Covers, a.woken, s'.threads[a.woken]);
    } else {
      OneCover(s, t, a);
      hide Can, After, Covers;
      CoversNonNegative(s'.threads);
      SumUpdate(s.threads, Covers, t, s'.threads[t]);
    }
  }

  lemma CoversNonNegative<H>(ths: seq<Thread<H>>)
    ensures Sum(ths, Covers) >= 0
  {
  }

  // Notifying all, or nobody, leaves nobody asleep.
  lemma StillSomeoneAsleep<H>(s: State<H>, t: nat, a: Action<H>)
    requires t < |s.threads| && Can(s, t, a) && Shaped(s.threads[t]) && !NoneAsleep(After(s, t, a))
    ensures !a.NotifyAll? && !a.NotifyNobody?
  {
  }

  // ----- every run -----

  lemma {:induction false} RunInv<H(!new)>(run: seq<State<H>>, i: nat)
    requires Run(run) && i < |run|
    ensures Inv(run[i])
  {
    hide Inv, Init;
    if i == 0 {
      InitInv(run[0]);
    } else {
      RunInv(run, i - 1);
      assert Next(run[i - 1], run[i]);
      var t: nat, a :| t < |run[i - 1].threads| && Can(run[i - 1], t, a) && run[i] == After(run[i - 1], t, a);
      StepInv(run[i - 1], t, a);
    }
  }

  lemma StepInv<H>(s: State<H>, t: nat, a: Action<H>)
    requires Inv(s) && t < |s.threads| && Can(s, t, a)
    ensures Inv(After(s, t, a))
  {
    StepMutex(s, t, a);
    StepShape(s, t, a);
    StepFifo(s, t, a);
    StepTickets(s, t, a);
    StepLate(s, t, a);
    StepCovered(s, t, a);
  }

  ghost predicate SomeoneNotifies<H>(s: State<H>) {
    exists i :: 0 <= i < |s.threads| && (Wakes(s.threads[i]) || s.threads[i].call.Pushed? || s.threads[i].call.OwesOne?)
  }

  ghost predicate SomeoneAwake<H>(s: State<H>) {
    exists i :: 0 <= i < |s.threads| && Worker(s.threads[i]) && !s.threads[i].loop.Asleep? && !s.threads[i].loop.Exited?
  }

  // Handles leave the queue in the order they were accepted, none twice, none invented.
  lemma FirstInFirstOut<H(!new)>(run: seq<State<H>>, i: nat)
    requires Run(run) && i < |run|
    ensures run[i].accepted == run[i].dequeued + run[i].queue
    ensures forall j, k :: 0 <= j < k < |run[i].resumed| ==> run[i].resumed[j] != run[i].resumed[k]
    ensures forall k :: k in run[i].resumed ==> 0 <= k < |run[i].dequeued|
  {
    RunInv(run, i);
  }

  // No wakeup is lost: with work or a stop pending, not everyone sleeps unnotified.
  lemma NoLostWakeup<H(!new)>(run: seq<State<H>>, i: nat)
    requires Run(run) && i < |run| && (run[i].queue != [] || run[i].stopped) && !AllExited(run[i])
    ensures SomeoneAwake(run[i]) || SomeoneNotifies(run[i])
  {
    RunInv(run, i);
    var s := run[i];
    if !NoneAsleep(s) && !s.stopped {
      var t := SomePositive(s.threads, Covers);
    }
  }

  // The stronger form: while a worker sleeps, no queued handle waits for a busy worker.
  lemma SleepersMissNothing<H(!new)>(run: seq<State<H>>, i: nat)
    requires Run(run) && i < |run| && !NoneAsleep(run[i])
    ensures |run[i].queue| <= Sum(run[i].threads, Covers)
  {
    RunInv(run, i);
  }

  ghost predicate AllResumed<H>(s: State<H>) {
    s.queue == [] && forall k :: 0 <= k < |s.accepted| ==> k in s.resumed
  }

  // Once every worker has returned, every accepted handle has been resumed.
  lemma Drained<H(!new)>(run: seq<State<H>>, i: nat)
    requires Run(run) && i < |run| && AllExited(run[i])
    ensures run[i].stopped && AllResumed(run[i])
  {
    RunInv(run, i);
    NothingInHand(run[i]);
  }

  lemma NothingInHand<H>(s: State<H>)
    requires Inv(s) && forall i :: 0 <= i < |s.threads| ==> Hand(s.threads[i]) == -1
    ensures forall k :: 0 <= k < |s.dequeued| ==> k in s.resumed
  {
  }

  // ----- no deadlock -----

  // Neither a new call from outside nor a spurious wakeup.
  predicate Internal<H>(a: Action<H>) {
    !a.CallSchedule? && !a.CallShutdown? && !a.WakeSpuriously?
  }

  ghost predicate Stuck<H(!new)>(s: State<H>) {
    forall t: nat, a :: t < |s.threads| && Internal(a) ==> !Can(s, t, a)
  }

  // Nothing more to do: everything accepted was resumed, no call is under way, and the
  // workers are all asleep, or all gone after a shutdown.
  ghost predicate Settled<H>(s: State<H>) {
    && AllResumed(s)
    && forall i :: 0 <= i < |s.threads| ==>
      && s.threads[i].call.Idle?
      && (s.threads[i].loop.Client? || if s.stopped then s.threads[i].loop.Exited? else s.threads[i].loop.Asleep?)
  }

  // The holder of the lock can move.
  lemma HolderMoves<H>(s: State<H>, t: nat) returns (a: Action<H>)
    requires t < |s.threads| && Holds(s.threads[t])
    requires s.threads[t].loop.Taking? ==> s.stopped || s.queue != []
    ensures Internal(a) && Can(s, t, a)
  {
    var th := s.threads[t];
    a :=
      if th.loop.Testing? then (if s.stopped || s.queue != [] then Proceed else Sleep)
      else if th.loop.Taking? then (if s.queue != [] then Pop else Quit)
      else if th.call.Deciding? then (if s.stopped then Reject else Push)
      else if th.call.Marking? then Mark
      else Unlock;
  }

  // A thread that waits neither for the lock nor for others is done or asleep.
  predicate Resting<H>(th: Thread<H>) {
    (th.loop.Client? || th.loop.Asleep? || th.loop.Exited?) && (th.call.Idle? || th.call.Joining?)
  }

  lemma OthersMove<H>(s: State<H>, t: nat) returns (a: Action<H>)
    requires t < |s.threads| && s.owner == None && !Holds(s.threads[t]) && Shaped(s.threads[t])
    requires !Resting(s.threads[t]) || (s.threads[t].call.Joining? && AllExited(s))
    ensures Internal(a) && Can(s, t, a)
  {
    var th := s.threads[t];
    if th.call.OwesOne? {
      if NoneAsleep(s) {
        a := NotifyNobody;
      } else {
        var w :| 0 <= w < |s.threads| && s.threads[w].loop.Asleep?;
        a := NotifyOne(w);
      }
    } else {
      a :=
        if th.call.OwesAll? then NotifyAll
        else if th.call.Joining? then Join
        else if th.loop.Running? && th.call.Idle? then Resume
        else Lock;
    }
  }

  lemma StuckThread<H(!new)>(s: State<H>, t: nat)
    requires t < |s.threads| && Mutex(s) && Shaped(s.threads[t]) && Late(s) && Stuck(s)
    ensures s.owner != Some(t)
    ensures s.owner == None ==> Resting(s.threads[t]) && (s.threads[t].call.Joining? ==> !AllExited(s))
  {
    hide Can, Internal, Shaped;
    if Holds(s.threads[t]) {
      var a := HolderMoves(s, t);
    } else if s.owner == None && (!Resting(s.threads[t]) || (s.threads[t].call.Joining? && AllExited(s))) {
      var a := OthersMove(s, t);
    }
  }

  // A reachable state in which no thread can move is one in which nothing is left to do.
  lemma NoDeadlock<H(!new)>(run: seq<State<H>>, i: nat)
    requires Run(run) && i < |run| && Stuck(run[i])
    ensures Settled(run[i])
  {
    hide Stuck, Mutex, Tickets, Shaped, Hand;
    var s := run[i];
    RunInv(run, i);
    NobodyHolds(s);
    forall t: nat | t < |s.threads|
      ensures Resting(s.threads[t]) && (s.threads[t].call.Joining? ==> !AllExited(s))
    {
      StuckThread(s, t);
    }
    SumZero(s.threads, Covers);
    AllHandsEmpty(s);
    NothingInHand(s);
  }

  lemma AllHandsEmpty<H>(s: State<H>)
    requires forall i :: 0 <= i < |s.threads| ==> s.threads[i].loop.Client? || s.threads[i].loop.Asleep? || s.threads[i].loop.Exited?
    ensures forall i :: 0 <= i < |s.threads| ==> Hand(s.threads[i]) == -1
  {
  }

  lemma NobodyHolds<H(!new)>(s: State<H>)
    requires Inv(s) && Stuck(s)
    ensures s.owner == None
  {
    hide Stuck;
    if s.owner.Some? {
      StuckThread(s, s.owner.value);
    }
  }

  // ----- progress -----

  // How many internal steps a thread can still take, up to the handles it still has to
  // take from the queue.
  function Weight<H>(n: nat): Thread<H> -> int {
    (th: Thread<H>) => LoopWeight(th.loop) + CallWeight(th.call, n)
  }

  function LoopWeight<H>(l: Loop<H>): nat {
    match l
    case Client => 0
    case Exited => 0
    case Asleep => 0
    case Quitting => 1
    case Taking => 2
    case Testing => 3
    case Locking => 4
    case Running(_, _) => 5
    case Leaving(_, _) => 6
  }

  function CallWeight<H>(c: Call<H>, n: nat): nat {
    match c
    case Idle => 0
    case Rejected => 1
    case OwesOne => 5
    case Pushed => 6
    case Deciding(_) => 17
    case Scheduling(_) => 18
    case Joining => 1
    case OwesAll => 4 * n + 2
    case Marked => 4 * n + 3
    case Marking => 4 * n + 4
    case Stopping => 4 * n + 5
  }

  ghost function Work<H>(s: State<H>): int {
    10 * |s.queue| + Sum(s.threads, Weight(|s.threads|))
  }

  // The work a step takes off its own thread and the queue.
  lemma OwnWork<H>(s: State<H>, t: nat, a: Action<H>)
    requires t < |s.threads| && Shaped(s.threads[t]) && Can(s, t, a) && Internal(a)
    ensures var w: Thread<H> -> int, s' := Weight(|s.threads|), After(s, t, a);
      w(s'.threads[t]) + 10 * |s'.queue| < w(s.threads[t]) + 10 * |s.queue|
        - (if a.NotifyOne? then 4 else if a.NotifyAll? then 4 * |s.threads| else 0)
  {
  }

  // Every internal step uses up some of the remaining work, so without new calls and
  // spurious wakeups every schedule of the threads comes to rest.
  lemma Progress<H>(s: State<H>, t: nat, a: Action<H>)
    requires Inv(s) && t < |s.threads| && Can(s, t, a) && Internal(a)
    ensures 0 <= Work(After(s, t, a)) < Work(s)
  {
    var s', n := After(s, t, a), |s.threads|;
    var w: Thread<H> -> int := Weight(n);
    ShapedThread(s, t);
    OwnWork(s, t, a);
    hide Inv;
    SumNonNegative(s'.threads, w);
    if a.NotifyAll? {
      WokenWork(s, t);
    } else {
      hide Weight;
      SumUpdate(s.threads, w, t, s'.threads[t]);
      if a.NotifyOne? {
        SumUpdate(s.threads[t := s'.threads[t]], w, a.woken, s'.threads[a.woken]);
        LockingWork(s.threads[a.woken], n);
      }
    }
  }

  ghost predicate InternalNext<H(!new)>(s: State<H>, s': State<H>) {
    exists t: nat, a :: t < |s.threads| && Can(s, t, a) && Internal(a) && s' == After(s, t, a)
  }

  // So once nothing comes from outside any more, a run goes on for no more steps than there
  // was work left.
  lemma RunsEnd<H(!new)>(run: seq<State<H>>, k: nat)
    requires Run(run) && k < |run| && forall i :: k < i < |run| ==> InternalNext(run[i - 1], run[i])
    ensures |run| - k <= Work(run[k]) + 1
  {
    hide Inv, Init, Next, Work, Can;
    var work := seq(|run| - k, i requires 0 <= i < |run| - k => Work(run[k + i]));
    forall i | 0 < i < |work| ensures 0 <= work[i] < work[i - 1] {
      RunInv(run, k + i - 1);
      assert InternalNext(run[k + i - 1], run[k + i]);
      var t: nat, a :| t < |run[k + i - 1].threads| && Can(run[k + i - 1], t, a) && Internal(a) && run[k + i] == After(run[k + i - 1], t, a);
      Progress(run[k + i - 1], t, a);
    }
    RunInv(run, k);
    WorkNonNegative(run[k]);
    Descends(work);
  }

  lemma WorkNonNegative<H>(s: State<H>)
    ensures Work(s) >= 0
  {
    SumNonNegative(s.threads, Weight(|s.threads|));
  }

  lemma ShapedThread<H>(s: State<H>, t: nat)
    requires Inv(s) && t < |s.threads|
    ensures Shaped(s.threads[t])
  {
  }

  lemma LockingWork<H>(th: Thread<H>, n: nat)
    requires th.loop.Asleep?
    ensures Weight<H>(n)(th.(loop := Locking)) == Weight<H>(n)(th) + 4
  {
  }

  lemma WokenWork<H>(s: State<H>, t: nat)
    requires t < |s.threads| && Can(s, t, NotifyAll) && Shaped(s.threads[t])
    ensures var w: Thread<H> -> int, s' := Weight(|s.threads|), After(s, t, NotifyAll);
      Sum(s'.threads, w) <= Sum(s.threads, w) - w(s.threads[t]) + w(s'.threads[t]) + 4 * |s.threads|
  {
    var woken, s' := WakeAll(s.threads), After(s, t, NotifyAll);
    var w: Thread<H> -> int := Weight(|s.threads|);
    assert s'.threads == woken[t := s'.threads[t]] && woken[t] == s.threads[t];
    WakingWork(s.threads, |s.threads|);
    SumUpdate(woken, w, t, s'.threads[t]);
  }

  lemma WakingWork<H>(ths: seq<Thread<H>>, n: nat)
    ensures Sum(WakeAll(ths), Weight(n)) <= Sum(ths, Weight(n)) + 4 * |ths|
  {
    var w: Thread<H> -> int := Weight(n);
    forall i | 0 <= i < |ths| ensures w(WakeAll(ths)[i]) <= w(ths[i]) + 4 {
      if ths[i].loop.Asleep? {
        LockingWork(ths[i], n);
      }
    }
    SumMonotone(ths, WakeAll(ths), w, 4);
  }
}
