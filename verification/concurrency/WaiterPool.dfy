// Calls of when_all on an executor with a fixed number of workers. A waiter hops onto a
// worker first and then blocks it until its call is done; tasks may need workers too.
module WaiterPool {
  import opened Options
  import opened Tally
  import opened WhenAll
  import opened WhenAllHistory

  // How many more times a task needs a worker, and whether it occupies one now.
  datatype Seat = Seat(hops: nat, pooled: bool)

  datatype Call<T, E> = Call(seated: bool, core: State<T, E>, seats: seq<Seat>)

  datatype Pool<T, E> = Pool(workers: nat, calls: seq<Call<T, E>>)

  datatype Move =
    | Enter                     // the waiter gets a worker
    | Wait(action: Action)
    | Leave                     // and gives it back
    | Post(index: nat, action: Action)
    | Hop(index: nat)           // a suspended task gets a worker
    | Yield(index: nat)         // and suspends again

  function PooledBit(seat: Seat): int {
    if seat.pooled then 1 else 0
  }

  // The workers that a call holds.
  function Held<T, E>(k: Call<T, E>): int {
    (if k.seated then 1 else 0) + Sum(k.seats, PooledBit)
  }

  ghost predicate FreeWorker<T, E>(p: Pool<T, E>) {
    Sum(p.calls, Held) < p.workers
  }

  predicate Queued<T, E>(k: Call<T, E>) {
    !k.seated && k.core.wait == Launching(0)
  }

  ghost predicate SizedCall<T, E>(k: Call<T, E>) {
    Sized(k.core) && |k.seats| == |k.core.posts|
  }

  // ----- steps -----

  // What a step needs from the call itself; `Enter` and `Hop` need a free worker as well.
  ghost predicate CanCall<T, E>(k: Call<T, E>, m: Move)
    requires SizedCall(k)
  {
    match m
    case Enter => Queued(k)
    case Wait(a) => k.seated && CanWait(k.core, a)
    case Leave => k.seated && k.core.wait.Finished?
    case Post(i, a) => i < |k.core.posts| && CanPost(k.core, i, a) && (a.Complete? ==> k.seats[i].hops == 0)
    case Hop(i) => i < |k.core.posts| && k.core.posts[i].Running? && k.seats[i].hops > 0 && !k.seats[i].pooled
    case Yield(i) => i < |k.core.posts| && k.core.posts[i].Running? && k.seats[i].hops > 0 && k.seats[i].pooled
  }

  ghost function AfterCall<T, E>(k: Call<T, E>, m: Move): Call<T, E>
    requires SizedCall(k) && CanCall(k, m)
  {
    match m
    case Enter => k.(seated := true)
    case Wait(a) => k.(core := AfterWait(k.core, a))
    case Leave => k.(seated := false)
    case Post(i, a) =>
      var j := k.(core := AfterPost(k.core, i, a));
      if a.NotifyAll? then j.(seats := k.seats[i := k.seats[i].(pooled := false)]) else j
    case Hop(i) => k.(seats := k.seats[i := Seat(k.seats[i].hops - 1, true)])
    case Yield(i) => k.(seats := k.seats[i := k.seats[i].(pooled := false)])
  }

  ghost predicate Can<T, E>(p: Pool<T, E>, c: nat, m: Move) {
    && c < |p.calls| && SizedCall(p.calls[c]) && CanCall(p.calls[c], m)
    && (m.Enter? || m.Hop? ==> FreeWorker(p))
  }

  ghost function After<T, E>(p: Pool<T, E>, c: nat, m: Move): Pool<T, E>
    requires Can(p, c, m)
  {
    p.(calls := p.calls[c := AfterCall(p.calls[c], m)])
  }

  // Nobody has begun; a call's tasks may need workers any number of times.
  ghost predicate Init<T, E>(p: Pool<T, E>) {
    && p.workers > 0
    && forall c :: 0 <= c < |p.calls| ==> Fresh(p.calls[c])
  }

  ghost predicate Fresh<T, E>(k: Call<T, E>) {
    && !k.seated && WhenAll.Init(k.core) && |k.seats| == |k.core.posts|
    && forall i :: 0 <= i < |k.seats| ==> !k.seats[i].pooled
  }

  ghost predicate Next<T, E>(p: Pool<T, E>, p': Pool<T, E>) {
    exists c: nat, m :: Can(p, c, m) && p' == After(p, c, m)
  }

  ghost predicate Run<T(!new), E(!new)>(run: seq<Pool<T, E>>) {
    |run| > 0 && Init(run[0]) && forall i :: 0 < i < |run| ==> Next(run[i - 1], run[i])
  }

  // ----- the invariant -----

  // A task occupies a worker only while it runs, and needs none once it has its outcome.
  ghost predicate SeatFits(post: Post, seat: Seat) {
    && (seat.pooled ==> !post.NotStarted? && !post.Done?)
    && (seat.hops > 0 ==> post.NotStarted? || post.Running?)
  }

  ghost predicate CallInv<T, E>(k: Call<T, E>) {
    && WhenAll.Inv(k.core) && SizedCall(k)
    && (!k.seated ==> k.core.wait == Launching(0) || k.core.wait.Finished?)
    && forall i :: 0 <= i < |k.seats| ==> SeatFits(k.core.posts[i], k.seats[i])
  }

  ghost predicate Inv<T, E>(p: Pool<T, E>) {
    && p.workers > 0 && (forall c :: 0 <= c < |p.calls| ==> CallInv(p.calls[c]))
    && Sum(p.calls, Held) <= p.workers
  }

  lemma InitInv<T, E>(p: Pool<T, E>)
    requires Init(p)
    ensures Inv(p) && Sum(p.calls, Held) == 0
  {
    forall c | 0 <= c < |p.calls| ensures CallInv(p.calls[c]) && Held(p.calls[c]) == 0 {
      WhenAll.InitInv(p.calls[c].core);
      SumZero(p.calls[c].seats, PooledBit);
    }
    SumZero(p.calls, Held);
  }

  lemma StepCall<T, E>(k: Call<T, E>, m: Move)
    requires CallInv(k) && CanCall(k, m)
    ensures CallInv(AfterCall(k, m))
  {
    match m
    case Wait(a) => StepWait(k, a);
    case Post(i, a) => StepPost(k, i, a);
    case _ => hide WhenAll.Inv;
  }

  lemma StepWait<T, E>(k: Call<T, E>, a: Action)
    requires CallInv(k) && CanCall(k, Wait(a))
    ensures CallInv(AfterCall(k, Wait(a)))
  {
    WaitInv(k.core, a);
    WaitShape(k.core, a);
    hide WhenAll.Inv, AfterWait, CanWait;
  }

  lemma StepPost<T, E>(k: Call<T, E>, i: nat, a: Action)
    requires CallInv(k) && CanCall(k, Post(i, a))
    ensures CallInv(AfterCall(k, Post(i, a)))
  {
    PostInv(k.core, i, a);
    hide WhenAll.Inv;
  }

  // A waiter that has begun does not go back, and tasks only start.
  lemma WaitShape<T, E>(s: State<T, E>, a: Action)
    requires WhenAll.Inv(s) && CanWait(s, a)
    ensures |AfterWait(s, a).posts| == |s.posts|
    ensures forall i :: 0 <= i < |s.posts| ==>
      AfterWait(s, a).posts[i] == s.posts[i] || (s.posts[i].NotStarted? && AfterWait(s, a).posts[i].Running?)
  {
    hide Mutex, Posted, Awaited;
  }

  lemma StepHeld<T, E>(k: Call<T, E>, m: Move)
    requires CallInv(k) && CanCall(k, m)
    ensures Held(AfterCall(k, m)) <= Held(k) + if m.Enter? || m.Hop? then 1 else 0
  {
    hide WhenAll.Inv;
    match m
    case Post(i, a) => SumUpdate(k.seats, PooledBit, i, k.seats[i].(pooled := false));
    case Hop(i) => SumUpdate(k.seats, PooledBit, i, Seat(k.seats[i].hops - 1, true));
    case Yield(i) => SumUpdate(k.seats, PooledBit, i, k.seats[i].(pooled := false));
    case _ =>
  }

  lemma StepInv<T, E>(p: Pool<T, E>, c: nat, m: Move)
    requires Inv(p) && Can(p, c, m)
    ensures Inv(After(p, c, m))
  {
    var k := p.calls[c];
    StepCall(k, m);
    StepHeld(k, m);
    hide CallInv, CanCall, AfterCall;
    SumUpdate(p.calls, Held, c, AfterCall(k, m));
  }

  lemma {:induction false} RunInv<T(!new), E(!new)>(run: seq<Pool<T, E>>, i: nat)
    requires Run(run) && i < |run|
    ensures Inv(run[i])
  {
    hide Inv, Init;
    if i == 0 {
      InitInv(run[0]);
    } else {
      RunInv(run, i - 1);
      assert Next(run[i - 1], run[i]);
      var c: nat, m :| Can(run[i - 1], c, m) && run[i] == After(run[i - 1], c, m);
      StepInv(run[i - 1], c, m);
    }
  }

  // ----- each call by itself -----

  lemma {:induction false} SameCalls<T(!new), E(!new)>(run: seq<Pool<T, E>>, i: nat)
    requires Run(run) && i < |run|
    ensures |run[i].calls| == |run[0].calls|
  {
    if i > 0 {
      SameCalls(run, i - 1);
      assert Next(run[i - 1], run[i]);
    }
  }

  // The states that a call goes through.
  ghost function CallTrace<T(!new), E(!new)>(run: seq<Pool<T, E>>, c: nat): (tr: seq<State<T, E>>)
    requires Run(run) && c < |run[0].calls|
    ensures |tr| == |run|
  {
    seq(|run|, i requires 0 <= i < |run| => SameCalls(run, i); run[i].calls[c].core)
  }

  lemma CallIsTrace<T(!new), E(!new)>(run: seq<Pool<T, E>>, c: nat)
    requires Run(run) && c < |run[0].calls|
    ensures Trace(CallTrace(run, c))
  {
    hide WhenAll.Init, WhenAll.Next;
    var tr := CallTrace(run, c);
    assert Fresh(run[0].calls[c]);
    forall i | 0 < i < |tr| ensures tr[i] == tr[i - 1] || WhenAll.Next(tr[i - 1], tr[i]) {
      SameCalls(run, i - 1);
      SameCalls(run, i);
      CallStep(run, i, c);
    }
  }

  lemma CallStep<T(!new), E(!new)>(run: seq<Pool<T, E>>, i: nat, c: nat)
    requires Run(run) && 0 < i < |run| && c < |run[i - 1].calls| == |run[i].calls|
    ensures var s, s' := run[i - 1].calls[c].core, run[i].calls[c].core; s' == s || WhenAll.Next(s, s')
  {
    hide Init;
    assert Next(run[i - 1], run[i]);
    var d: nat, m :| Can(run[i - 1], d, m) && run[i] == After(run[i - 1], d, m);
    if c == d {
      CoreStep(run[i - 1].calls[c], m);
    }
  }

  lemma CoreStep<T, E>(k: Call<T, E>, m: Move)
    requires SizedCall(k) && CanCall(k, m)
    ensures var s, s' := k.core, AfterCall(k, m).core; s' == s || WhenAll.Next(s, s')
  {
    hide CanWait, AfterWait, CanPost, AfterPost;
    match m
    case Wait(a) => assert CanWait(k.core, a);
    case Post(i, a) => assert CanPost(k.core, i, a);
    case _ =>
  }

  // A call that is done on the pool has had each task seen to store once, and reports the
  // error of the first one seen to fail, or else all values.
  lemma EachCallCorrect<T(!new), E(!new)>(run: seq<Pool<T, E>>, i: nat, c: nat)
    requires Run(run) && i < |run| && c < |run[0].calls| && CallTrace(run, c)[i].wait.Finished?
    ensures var tr := CallTrace(run, c);
      EachOnce(Stored(tr, i), |tr[0].outcomes|) && Deserved(tr, i, tr[i].wait.result)
  {
    CallIsTrace(run, c);
    hide Run, Trace, Stored, Deserved;
    WhenAllHistory.Finishes(CallTrace(run, c), i);
  }

  // ----- when nothing moves -----

  // No step but a spurious wakeup.
  ghost predicate Stuck<T, E>(p: Pool<T, E>) {
    forall c: nat, m :: m != Wait(WakeSpuriously) ==> !Can(p, c, m)
  }

  ghost predicate Over<T, E>(k: Call<T, E>) {
    !k.seated && k.core.wait.Finished? && forall i :: 0 <= i < |k.core.posts| ==> k.core.posts[i].Done?
  }

  ghost predicate AllOver<T, E>(p: Pool<T, E>) {
    forall c :: 0 <= c < |p.calls| ==> Over(p.calls[c])
  }

  ghost predicate TaskQueued<T, E>(k: Call<T, E>, i: nat) {
    i < |k.core.posts| && i < |k.seats| && k.core.posts[i].Running? && k.seats[i].hops > 0 && !k.seats[i].pooled
  }

  // The waiter, or one of the tasks, cannot go on without a worker.
  ghost predicate NeedsWorker<T, E>(k: Call<T, E>) {
    Queued(k) || exists i :: TaskQueued(k, i)
  }

  // The waiter sleeps, and blocks a worker.
  predicate Sleeps<T, E>(k: Call<T, E>) {
    k.seated && k.core.wait.Asleep?
  }

  function SleepBit<T, E>(k: Call<T, E>): int {
    if Sleeps(k) then 1 else 0
  }

  // Every worker is blocked by a sleeping waiter, and something still needs one.
  ghost predicate Starved<T, E>(p: Pool<T, E>) {
    Sum(p.calls, SleepBit) == p.workers && exists c :: 0 <= c < |p.calls| && NeedsWorker(p.calls[c])
  }

  // No step of the call, but those that wait for a worker.
  ghost predicate StuckCall<T, E>(k: Call<T, E>)
    requires SizedCall(k)
  {
    forall m :: m != Wait(WakeSpuriously) && !m.Enter? && !m.Hop? ==> !CanCall(k, m)
  }

  lemma StuckPosts<T, E>(k: Call<T, E>, i: nat)
    requires CallInv(k) && StuckCall(k) && i < |k.core.posts|
    ensures k.core.posts[i].NotStarted? || k.core.posts[i].Done? || TaskQueued(k, i) || (k.core.posts[i].Locking? && k.core.owner != None)
  {
    hide WhenAll.Inv;
    assert !CanCall(k, Post(i, Complete)) && !CanCall(k, Post(i, Lock)) && !CanCall(k, Post(i, Store)) && !CanCall(k, Post(i, Count))
      && !CanCall(k, Post(i, Unlock)) && !CanCall(k, Post(i, NotifyAll)) && !CanCall(k, Yield(i));
  }

  lemma StuckWaiter<T, E>(k: Call<T, E>)
    requires CallInv(k) && StuckCall(k)
    ensures if k.seated then k.core.wait.Asleep? || ((k.core.wait.Acquiring? || k.core.wait.Waking?) && k.core.owner != None)
      else Queued(k) || k.core.wait.Finished?
  {
    hide WhenAll.Inv;
    assert !CanCall(k, Wait(Launch)) && !CanCall(k, Wait(Check)) && !CanCall(k, Wait(Lock)) && !CanCall(k, Wait(Recheck))
      && !CanCall(k, Wait(Sleep)) && !CanCall(k, Wait(Unlock)) && !CanCall(k, Leave);
  }

  // A call that cannot move holds a worker only for a sleeping waiter, and is over unless
  // it needs a worker.
  lemma StuckCallIs<T, E>(k: Call<T, E>)
    requires CallInv(k) && StuckCall(k)
    ensures Held(k) == SleepBit(k) && (Over(k) <==> !NeedsWorker(k))
  {
    StuckWaiter(k);
    forall i: nat | i < |k.core.posts|
      ensures k.core.posts[i].NotStarted? || k.core.posts[i].Done? || TaskQueued(k, i) || (k.core.posts[i].Locking? && k.core.owner != None)
    {
      StuckPosts(k, i);
    }
    hide Posted, StuckCall;
    FreeMutex(k.core);
    SumZero(k.seats, PooledBit);
    if !NeedsWorker(k) {
      NothingQueued(k);
    }
  }

  lemma NothingQueued<T, E>(k: Call<T, E>)
    requires WhenAll.Inv(k.core) && !NeedsWorker(k) && k.core.owner == None
    requires if k.seated then k.core.wait.Asleep? else k.core.wait.Finished?
    requires forall i :: 0 <= i < |k.core.posts| ==> k.core.posts[i].NotStarted? || k.core.posts[i].Done? || TaskQueued(k, i)
    ensures Over(k)
  {
    hide Posted, Mutex;
    forall i | 0 <= i < |k.core.posts| ensures k.core.posts[i].Done? {
      assert !TaskQueued(k, i);
    }
    AllDone(k.core.posts);
  }

  // A run that is stuck has unfinished calls exactly if every worker is blocked by a
  // sleeping waiter while something still needs one.
  lemma StuckOutcome<T(!new), E(!new)>(run: seq<Pool<T, E>>, i: nat)
    requires Run(run) && i < |run| && Stuck(run[i])
    ensures !AllOver(run[i]) <==> Starved(run[i])
  {
    RunInv(run, i);
    StuckIs(run[i]);
  }

  lemma StuckIs<T, E>(p: Pool<T, E>)
    requires Inv(p) && Stuck(p)
    ensures !AllOver(p) <==> Starved(p)
    ensures Sum(p.calls, SleepBit) == Sum(p.calls, Held)
  {
    hide CallInv, StuckCall, Held, SleepBit, Over, NeedsWorker;
    forall c: nat | c < |p.calls|
      ensures Held(p.calls[c]) == SleepBit(p.calls[c]) && (Over(p.calls[c]) <==> !NeedsWorker(p.calls[c]))
      ensures NeedsWorker(p.calls[c]) ==> !FreeWorker(p)
    {
      CallStuck(p, c);
      StuckCallIs(p.calls[c]);
    }
    SumCompare(p.calls, SleepBit, Held);
    SumCompare(p.calls, Held, SleepBit);
  }

  lemma CallStuck<T, E>(p: Pool<T, E>, c: nat)
    requires Inv(p) && Stuck(p) && c < |p.calls|
    ensures StuckCall(p.calls[c]) && (NeedsWorker(p.calls[c]) ==> !FreeWorker(p))
  {
    hide WhenAll.Inv;
    var k := p.calls[c];
    forall m | m != Wait(WakeSpuriously) && !m.Enter? && !m.Hop? ensures !CanCall(k, m) {
      assert !Can(p, c, m);
    }
    if Queued(k) {
      assert !Can(p, c, Enter);
    }
    if i :| TaskQueued(k, i) {
      assert !Can(p, c, Hop(i));
    }
  }

  // ----- how many workers are enough -----

  predicate Demanding<T, E>(k: Call<T, E>) {
    exists i :: 0 <= i < |k.seats| && k.seats[i].hops > 0
  }

  function DemandBit<T, E>(k: Call<T, E>): int {
    if Demanding(k) then 1 else 0
  }

  // The number of calls with a task that needs a worker.
  function Demand<T, E>(p: Pool<T, E>): int {
    Sum(p.calls, DemandBit)
  }

  lemma StepDemand<T, E>(k: Call<T, E>, m: Move)
    requires SizedCall(k) && CanCall(k, m)
    ensures DemandBit(AfterCall(k, m)) <= DemandBit(k)
  {
    var j := AfterCall(k, m);
    assert |j.seats| == |k.seats| && forall i :: 0 <= i < |j.seats| ==> j.seats[i].hops <= k.seats[i].hops;
  }

  lemma {:induction false} RunDemand<T(!new), E(!new)>(run: seq<Pool<T, E>>, i: nat)
    requires Run(run) && i < |run|
    ensures Demand(run[i]) <= Demand(run[0]) && run[i].workers == run[0].workers
  {
    hide SizedCall, CanCall, AfterCall, DemandBit;
    if i > 0 {
      RunDemand(run, i - 1);
      assert Next(run[i - 1], run[i]);
      var c: nat, m :| Can(run[i - 1], c, m) && run[i] == After(run[i - 1], c, m);
      StepDemand(run[i - 1].calls[c], m);
      SumUpdate(run[i - 1].calls, DemandBit, c, AfterCall(run[i - 1].calls[c], m));
    }
  }

  // With more workers than such calls, a run that is stuck is over.
  lemma EnoughWorkers<T(!new), E(!new)>(run: seq<Pool<T, E>>, i: nat)
    requires Run(run) && i < |run| && Stuck(run[i]) && Demand(run[0]) < run[0].workers
    ensures AllOver(run[i])
  {
    RunInv(run, i);
    RunDemand(run, i);
    StuckIs(run[i]);
    forall c | 0 <= c < |run[i].calls| ensures SleepBit(run[i].calls[c]) <= DemandBit(run[i].calls[c]) {
      SleeperDemands(run[i], c);
    }
    SumCompare(run[i].calls, SleepBit, DemandBit);
  }

  lemma SleeperDemands<T, E>(p: Pool<T, E>, c: nat)
    requires Inv(p) && Stuck(p) && c < |p.calls|
    ensures SleepBit(p.calls[c]) <= DemandBit(p.calls[c])
  {
    CallStuck(p, c);
    StuckCallIs(p.calls[c]);
    hide CallInv, StuckCall;
    if Sleeps(p.calls[c]) {
      var i :| TaskQueued(p.calls[c], i);
      assert Demanding(p.calls[c]);
    }
  }

  // The waiter blocks a worker, and one of its tasks still needs one.
  function JamBit<T, E>(k: Call<T, E>): int {
    if k.seated && !k.core.wait.Finished? && Demanding(k) then 1 else 0
  }

  ghost predicate Jammed<T, E>(p: Pool<T, E>) {
    Sum(p.calls, JamBit) >= p.workers
  }

  lemma JamHolds<T, E>(k: Call<T, E>)
    ensures 0 <= JamBit(k) <= Held(k)
  {
    SumNonNegative(k.seats, PooledBit);
  }

  lemma JamBlocks<T, E>(p: Pool<T, E>)
    requires Inv(p) && Jammed(p)
    ensures !FreeWorker(p) && forall c :: 0 <= c < |p.calls| ==> Held(p.calls[c]) == JamBit(p.calls[c])
  {
    hide CallInv, Held, JamBit;
    forall c | 0 <= c < |p.calls| ensures JamBit(p.calls[c]) <= Held(p.calls[c]) {
      JamHolds(p.calls[c]);
    }
    SumTight(p.calls, JamBit, Held);
    SumCompare(p.calls, JamBit, Held);
  }

  // A call with a task that has no outcome yet does not finish.
  lemma NotDone<T, E>(k: Call<T, E>)
    requires CallInv(k) && Demanding(k)
    ensures !IsDone(k.core)
  {
    var i :| 0 <= i < |k.seats| && k.seats[i].hops > 0;
    hide Posted, Mutex, Awaited;
    assert SeatFits(k.core.posts[i], k.seats[i]) && HasCounted(k.core.posts[i]) == 0;
    if IsDone(k.core) {
      AllCounted(k.core);
    }
  }

  lemma NobodyPooled<T, E>(k: Call<T, E>)
    requires Held(k) == JamBit(k)
    ensures forall i :: 0 <= i < |k.seats| ==> !k.seats[i].pooled
    ensures k.seated ==> JamBit(k) == 1
  {
    SumNonNegative(k.seats, PooledBit);
    forall i | 0 <= i < |k.seats| ensures !k.seats[i].pooled {
      SumAtLeast(k.seats, PooledBit, i);
    }
  }

  // No step of a jammed pool gets a waiter off its worker.
  lemma StepJam<T, E>(k: Call<T, E>, m: Move)
    requires CallInv(k) && CanCall(k, m) && Held(k) == JamBit(k) && !m.Enter? && !m.Hop?
    ensures JamBit(AfterCall(k, m)) >= JamBit(k)
  {
    NobodyPooled(k);
    if JamBit(k) == 1 {
      NotDone(k);
      hide WhenAll.Inv;
      var i :| 0 <= i < |k.seats| && k.seats[i].hops > 0;
      assert SeatFits(k.core.posts[i], k.seats[i]) && AfterCall(k, m).seats[i].hops > 0;
    }
  }

  lemma JamStays<T, E>(p: Pool<T, E>, c: nat, m: Move)
    requires Inv(p) && Jammed(p) && Can(p, c, m)
    ensures Jammed(After(p, c, m))
  {
    JamBlocks(p);
    StepJam(p.calls[c], m);
    hide CallInv, CanCall, AfterCall, JamBit;
    SumUpdate(p.calls, JamBit, c, AfterCall(p.calls[c], m));
  }

  lemma JamIsNotOver<T, E>(p: Pool<T, E>)
    requires Inv(p) && Jammed(p)
    ensures !AllOver(p)
  {
    var c := SomePositive(p.calls, JamBit);
    assert !Over(p.calls[c]);
  }

  // ----- runs into a jam -----

  ghost predicate Path<T(!new), E(!new)>(path: seq<Pool<T, E>>) {
    path != [] && forall i :: 0 < i < |path| ==> Next(path[i - 1], path[i])
  }

  lemma Before<T(!new), E(!new)>(p: Pool<T, E>, c: nat, m: Move, path: seq<Pool<T, E>>)
    requires Path(path) && Can(p, c, m) && path[0] == After(p, c, m)
    ensures Path([p] + path)
  {
    hide Next;
    assert Next(p, path[0]) by {
      NextBy(p, c, m);
    }
    forall i | 0 < i < |[p] + path| ensures Next(([p] + path)[i - 1], ([p] + path)[i]) {
      if i > 1 {
        assert Next(path[i - 2], path[i - 1]);
      }
    }
  }

  lemma NextBy<T, E>(p: Pool<T, E>, c: nat, m: Move)
    requires Can(p, c, m)
    ensures Next(p, After(p, c, m))
  {
  }

  lemma Joined<T(!new), E(!new)>(a: seq<Pool<T, E>>, b: seq<Pool<T, E>>)
    requires Path(a) && Path(b) && a[|a| - 1] == b[0]
    ensures Path(a + b[1..]) && (a + b[1..])[|a| + |b| - 2] == b[|b| - 1]
  {
    hide Next;
    var path := a + b[1..];
    forall i | 0 < i < |path| ensures Next(path[i - 1], path[i]) {
      if i >= |a| {
        assert path[i] == b[i - |a| + 1] && path[i - 1] == b[i - |a|];
      }
    }
  }

  // Some demanding waiters have got their workers, nothing else has happened.
  ghost predicate Filling<T, E>(p: Pool<T, E>) {
    && p.workers > 0
    && forall c :: 0 <= c < |p.calls| ==>
      Fresh(p.calls[c].(seated := false)) && (p.calls[c].seated ==> Demanding(p.calls[c]))
  }

  lemma FillingHolds<T, E>(p: Pool<T, E>)
    requires Filling(p)
    ensures Sum(p.calls, Held) == Sum(p.calls, JamBit)
  {
    forall c | 0 <= c < |p.calls| ensures Held(p.calls[c]) == JamBit(p.calls[c]) {
      SumZero(p.calls[c].seats, PooledBit);
    }
    SumCompare(p.calls, Held, JamBit);
    SumCompare(p.calls, JamBit, Held);
  }

  // One more demanding waiter gets a worker.
  lemma FillOne<T, E>(p: Pool<T, E>) returns (c: nat)
    requires Filling(p) && Demand(p) >= p.workers && !Jammed(p)
    ensures Can(p, c, Enter) && Filling(After(p, c, Enter)) && Demand(After(p, c, Enter)) == Demand(p)
    ensures Sum(After(p, c, Enter).calls, JamBit) == Sum(p.calls, JamBit) + 1
  {
    FillingHolds(p);
    if forall d :: 0 <= d < |p.calls| ==> DemandBit(p.calls[d]) <= JamBit(p.calls[d]) {
      SumCompare(p.calls, DemandBit, JamBit);
    }
    c :| 0 <= c < |p.calls| && DemandBit(p.calls[c]) > JamBit(p.calls[c]);
    var k := p.calls[c];
    assert Fresh(k.(seated := false)) && !k.seated;
    var j := k.(seated := true);
    assert j.(seated := false) == k && Demanding(j);
    SumUpdate(p.calls, JamBit, c, j);
    SumUpdate(p.calls, DemandBit, c, j);
  }

  lemma {:induction false} Fill<T(!new), E(!new)>(p: Pool<T, E>) returns (path: seq<Pool<T, E>>)
    requires Filling(p) && Demand(p) >= p.workers
    ensures Path(path) && path[0] == p && Jammed(path[|path| - 1])
    decreases p.workers - Sum(p.calls, JamBit)
  {
    path := [p];
    if !Jammed(p) {
      hide Filling, Can, CanCall, AfterCall;
      var c := FillOne(p);
      path := Fill(After(p, c, Enter));
      Before(p, c, Enter, path);
      path := [p] + path;
    }
  }

  // ----- progress -----

  function SeatWork(seat: Seat): int {
    2 * seat.hops + PooledBit(seat)
  }

  function WaiterWork<T, E>(k: Call<T, E>): int {
    if k.seated then 1 else if k.core.wait.Finished? then 0 else 2
  }

  ghost function CallWork<T, E>(k: Call<T, E>): int {
    Work(k.core) + Sum(k.seats, SeatWork) + WaiterWork(k)
  }

  ghost function PoolWork<T, E>(p: Pool<T, E>): int {
    Sum(p.calls, CallWork)
  }

  lemma CallWorkNonNegative<T, E>(k: Call<T, E>)
    ensures CallWork(k) >= 0
  {
    WorkNonNegative(k.core);
    SumNonNegative(k.seats, SeatWork);
  }

  lemma CallProgress<T, E>(k: Call<T, E>, m: Move)
    requires CallInv(k) && CanCall(k, m) && m != Wait(WakeSpuriously)
    ensures CallWork(AfterCall(k, m)) < CallWork(k)
  {
    hide Work, Mutex, Posted, Awaited;
    match m
    case Wait(a) => WaitProgress(k.core, a);
    case Post(i, a) =>
      PostProgress(k.core, i, a);
      SumUpdate(k.seats, SeatWork, i, k.seats[i].(pooled := false));
    case Hop(i) => SumUpdate(k.seats, SeatWork, i, Seat(k.seats[i].hops - 1, true));
    case Yield(i) => SumUpdate(k.seats, SeatWork, i, k.seats[i].(pooled := false));
    case _ =>
  }

  // Every step other than a spurious wakeup uses up some of the remaining work.
  lemma Progress<T, E>(p: Pool<T, E>, c: nat, m: Move)
    requires Inv(p) && Can(p, c, m) && m != Wait(WakeSpuriously)
    ensures 0 <= PoolWork(After(p, c, m)) < PoolWork(p)
  {
    var q := After(p, c, m);
    CallProgress(p.calls[c], m);
    hide CallInv, CanCall, AfterCall, CallWork;
    SumUpdate(p.calls, CallWork, c, q.calls[c]);
    forall d | 0 <= d < |q.calls| ensures CallWork(q.calls[d]) >= 0 {
      CallWorkNonNegative(q.calls[d]);
    }
    SumNonNegative(q.calls, CallWork);
  }

  // Every state can be run on until nothing moves; a jam stays one.
  lemma {:induction false} Exhaust<T(!new), E(!new)>(p: Pool<T, E>) returns (path: seq<Pool<T, E>>)
    requires Inv(p) && Jammed(p)
    ensures Path(path) && path[0] == p
    ensures var q := path[|path| - 1]; Inv(q) && Jammed(q) && Stuck(q)
    decreases PoolWork(p)
  {
    hide Inv, Jammed, Can;
    path := [p];
    if !Stuck(p) {
      var c: nat, m :| m != Wait(WakeSpuriously) && Can(p, c, m);
      StepInv(p, c, m);
      JamStays(p, c, m);
      Progress(p, c, m);
      path := Exhaust(After(p, c, m));
      Before(p, c, m, path);
      path := [p] + path;
    }
  }

  lemma {:induction false} PathInv<T(!new), E(!new)>(path: seq<Pool<T, E>>, i: nat)
    requires Path(path) && Inv(path[0]) && i < |path|
    ensures Inv(path[i])
  {
    hide Inv;
    if i > 0 {
      PathInv(path, i - 1);
      assert Next(path[i - 1], path[i]);
      var c: nat, m :| Can(path[i - 1], c, m) && path[i] == After(path[i - 1], c, m);
      StepInv(path[i - 1], c, m);
    }
  }

  // With too few workers, some run gets stuck with waiters asleep for good.
  lemma TooFewWorkers<T(!new), E(!new)>(p: Pool<T, E>) returns (run: seq<Pool<T, E>>)
    requires Init(p) && Demand(p) >= p.workers
    ensures Run(run) && run[0] == p && Stuck(run[|run| - 1]) && !AllOver(run[|run| - 1])
  {
    InitInv(p);
    var a := Fill(p);
    PathInv(a, |a| - 1);
    var b := Exhaust(a[|a| - 1]);
    JamIsNotOver(b[|b| - 1]);
    hide Init, Inv, Stuck, AllOver;
    Joined(a, b);
    run := a + b[1..];
  }

  ghost predicate AlwaysOver<T(!new), E(!new)>(run: seq<Pool<T, E>>) {
    forall i :: 0 <= i < |run| && Stuck(run[i]) ==> AllOver(run[i])
  }

  // No run gets stuck before every call is over if and only if there are more workers than
  // calls with a task that needs one.
  lemma SafeExactly<T(!new), E(!new)>(p: Pool<T, E>)
    requires Init(p)
    ensures (forall run :: Run(run) && run[0] == p ==> AlwaysOver(run)) <==> Demand(p) < p.workers
  {
    hide Init, Stuck, AllOver;
    if Demand(p) < p.workers {
      forall run | Run(run) && run[0] == p ensures AlwaysOver(run) {
        forall i | 0 <= i < |run| && Stuck(run[i]) ensures AllOver(run[i]) {
          EnoughWorkers(run, i);
        }
      }
    } else {
      var run := TooFewWorkers(p);
      assert !AlwaysOver(run);
    }
  }

  ghost predicate QuietNext<T, E>(p: Pool<T, E>, p': Pool<T, E>) {
    exists c: nat, m :: m != Wait(WakeSpuriously) && Can(p, c, m) && p' == After(p, c, m)
  }

  // Without spurious wakeups no run is longer than the work at its start allows.
  lemma RunsEnd<T(!new), E(!new)>(run: seq<Pool<T, E>>)
    requires Run(run) && forall i :: 0 < i < |run| ==> QuietNext(run[i - 1], run[i])
    ensures |run| <= PoolWork(run[0]) + 1
  {
    hide Inv, Init, Can, CallWork;
    var work := seq(|run|, i requires 0 <= i < |run| => PoolWork(run[i]));
    forall i | 0 <= i < |run| ensures work[i] >= 0 {
      forall c | 0 <= c < |run[i].calls| ensures CallWork(run[i].calls[c]) >= 0 {
        CallWorkNonNegative(run[i].calls[c]);
      }
      SumNonNegative(run[i].calls, CallWork);
    }
    forall i | 0 < i < |run| ensures work[i] < work[i - 1] {
      RunInv(run, i - 1);
      assert QuietNext(run[i - 1], run[i]);
      var c: nat, m :| m != Wait(WakeSpuriously) && Can(run[i - 1], c, m) && run[i] == After(run[i - 1], c, m);
      Progress(run[i - 1], c, m);
    }
    Descends(work);
  }
}
