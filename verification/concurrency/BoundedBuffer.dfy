// The bounded buffer: producers and consumers share a circular array guarded by one mutex
// and two semaphores. Every lock, unlock, wait and post is one step of one thread.
module BoundedBuffer {
  import opened Options
  import opened Tally

  datatype Kind = Producer | Consumer

  datatype Stage =
    | Idle     // at the head of the loop
    | Waiting  // on its semaphore
    | Locking  // past the semaphore, about to lock the buffer
    | Holding  // holds the buffer, has not touched it
    | Moved    // holds the buffer, the item is in (or out)
    | Counting // holds both mutexes
    | Counted  // holds both mutexes, the statistics are updated
    | Leaving  // holds the buffer
    | Posting  // unlocked, about to post the other semaphore
    | Ended

  // `left` counts the iterations not yet completed.
  datatype Thread = Thread(kind: Kind, stage: Stage, left: nat, item: int)

  // `inserted` and `removed` record the items in the order they passed through the buffer.
  datatype State = State(
    threads: seq<Thread>, buffer: seq<int>, size: nat, inPos: nat, outPos: nat, count: int,
    mutex: Option<nat>, stats: Option<nat>, empty: int, full: int, produced: int, consumed: int,
    inserted: seq<int>, removed: seq<int>)

  datatype Action = Start(item: int) | Wait | Lock | Move | LockStats | Tally | UnlockStats | Unlock | Post

  predicate HoldsBuffer(th: Thread) {
    th.stage.Holding? || th.stage.Moved? || th.stage.Counting? || th.stage.Counted? || th.stage.Leaving?
  }

  predicate HoldsStats(th: Thread) {
    th.stage.Counting? || th.stage.Counted?
  }

  // The item has been moved, the semaphore not yet posted.
  predicate HasMoved(th: Thread) {
    th.stage.Moved? || th.stage.Counting? || th.stage.Counted? || th.stage.Leaving? || th.stage.Posting?
  }

  // ----- steps -----

  predicate Can(s: State, t: nat, a: Action)
    requires t < |s.threads|
  {
    var th := s.threads[t];
    match a
    case Start(_) => th.stage.Idle?
    case Wait => th.stage.Waiting? && (if th.kind.Producer? then s.empty > 0 else s.full > 0)
    case Lock => th.stage.Locking? && s.mutex == None
    case Move => th.stage.Holding?
    case LockStats => th.stage.Moved? && s.stats == None
    case Tally => th.stage.Counting?
    case UnlockStats => th.stage.Counted?
    case Unlock => th.stage.Leaving?
    case Post => th.stage.Posting?
  }

  function Put(s: State, t: nat, th: Thread): State
    requires t < |s.threads|
  {
    s.(threads := s.threads[t := th])
  }

  function At(s: State, t: nat, stage: Stage): State
    requires t < |s.threads|
  {
    Put(s, t, s.threads[t].(stage := stage))
  }

  // The position `k` places after `from`, wrapping around.
  function Slot(from: nat, k: nat, m: nat): (r: nat)
    requires m > 0
    ensures r < m
  {
    (from + k) % m
  }

  // The positions stay inside the array.
  predicate Positions(s: State) {
    |s.buffer| == s.size > 0 && s.inPos < s.size && s.outPos < s.size
  }

  function After(s: State, t: nat, a: Action): State
    requires t < |s.threads| && Can(s, t, a) && Positions(s)
  {
    var th := s.threads[t];
    match a
    case Start(x) =>
      if th.left == 0 then At(s, t, Ended)
      else Put(s, t, th.(stage := Waiting, item := if th.kind.Producer? then x else th.item))
    case Wait =>
      if th.kind.Producer? then At(s, t, Locking).(empty := s.empty - 1) else At(s, t, Locking).(full := s.full - 1)
    case Lock => At(s, t, Holding).(mutex := Some(t))
    case Move =>
      if th.kind.Producer? then
        At(s, t, Moved).(
          buffer := s.buffer[s.inPos := th.item], inPos := Slot(s.inPos, 1, s.size), count := s.count + 1,
          inserted := s.inserted + [th.item])
      else
        Put(s, t, th.(stage := Moved, item := s.buffer[s.outPos])).(
          outPos := Slot(s.outPos, 1, s.size), count := s.count - 1, removed := s.removed + [s.buffer[s.outPos]])
    case LockStats => At(s, t, Counting).(stats := Some(t))
    case Tally =>
      if th.kind.Producer? then At(s, t, Counted).(produced := s.produced + 1)
      else At(s, t, Counted).(consumed := s.consumed + 1)
    case UnlockStats => At(s, t, Leaving).(stats := None)
    case Unlock => At(s, t, Posting).(mutex := None)
    case Post =>
      var s' := Put(s, t, th.(stage := Idle, left := if th.left > 0 then th.left - 1 else 0));
      if th.kind.Producer? then s'.(full := s.full + 1) else s'.(empty := s.empty + 1)
  }

  ghost predicate Init(s: State) {
    && Positions(s) && s.inPos == s.outPos == 0 && s.count == 0 && s.mutex == s.stats == None
    && s.empty == s.size && s.full == 0 && s.produced == s.consumed == 0 && s.inserted == s.removed == []
    && forall i :: 0 <= i < |s.threads| ==> s.threads[i].stage.Idle?
  }

  ghost predicate Next(s: State, s': State) {
    Positions(s) && exists t: nat, a :: t < |s.threads| && Can(s, t, a) && s' == After(s, t, a)
  }

  // Every run: any number of threads, any quotas, any capacity, any interleaving.
  ghost predicate Run(run: seq<State>) {
    |run| > 0 && Init(run[0]) && forall i :: 0 < i < |run| ==> Next(run[i - 1], run[i])
  }

  // ----- the invariant -----

  // `owner` is the one thread for which `holds` is true.
  ghost predicate Owns(threads: seq<Thread>, holds: Thread -> bool, owner: Option<nat>) {
    && (forall t: nat :: t < |threads| ==> (holds(threads[t]) <==> owner == Some(t)))
    && (owner.Some? ==> owner.value < |threads| && holds(threads[owner.value]))
  }

  ghost predicate Mutexes(s: State) {
    Owns(s.threads, HoldsBuffer, s.mutex) && Owns(s.threads, HoldsStats, s.stats)
  }

  // A thread that takes, releases or keeps a mutex.
  lemma OwnsUpdate(threads: seq<Thread>, holds: Thread -> bool, owner: Option<nat>, t: nat, th: Thread, owner': Option<nat>)
    requires t < |threads| && Owns(threads, holds, owner)
    requires if holds(threads[t]) then owner' == (if holds(th) then owner else None)
      else if holds(th) then owner == None && owner' == Some(t) else owner' == owner
    ensures Owns(threads[t := th], holds, owner')
  {
  }

  // Producers with a slot not yet filled and consumers that owe a post to `empty`.
  function TakesEmpty(th: Thread): int {
    if th.kind.Producer? then (if th.stage.Locking? || th.stage.Holding? then 1 else 0)
    else (if HasMoved(th) then 1 else 0)
  }

  // Consumers with an item not yet taken and producers that owe a post to `full`.
  function TakesFull(th: Thread): int {
    if th.kind.Consumer? then (if th.stage.Locking? || th.stage.Holding? then 1 else 0)
    else (if HasMoved(th) then 1 else 0)
  }

  ghost predicate Semaphores(s: State) {
    && s.empty >= 0 && s.full >= 0
    && s.size - s.count == s.empty + Sum(s.threads, TakesEmpty)
    && s.count == s.full + Sum(s.threads, TakesFull)
  }

  // The `n` items from position `from` on, wrapping around.
  ghost function Window(buffer: seq<int>, from: nat, n: nat): (w: seq<int>)
    requires |buffer| > 0
    ensures |w| == n
  {
    seq(n, k requires 0 <= k < n => buffer[Slot(from, k, |buffer|)])
  }

  ghost predicate Circular(s: State) {
    && Positions(s) && 0 <= s.count <= s.size && s.inPos == Slot(s.outPos, s.count, s.size)
    && s.inserted == s.removed + Window(s.buffer, s.outPos, s.count)
  }

  // The items a thread still has to move.
  function Todo(kind: Kind): Thread -> int {
    (th: Thread) => if th.kind == kind then (if HasMoved(th) then th.left - 1 else th.left) else 0
  }

  function Untallied(kind: Kind): Thread -> int {
    (th: Thread) => if th.kind == kind && (th.stage.Moved? || th.stage.Counting?) then 1 else 0
  }

  predicate Counts(th: Thread) {
    if th.stage.Idle? then true else if th.stage.Ended? then th.left == 0 else th.left > 0
  }

  // `p` items are to be produced in all and `c` consumed.
  ghost predicate Totals(s: State, p: int, c: int) {
    && (forall t :: 0 <= t < |s.threads| ==> Counts(s.threads[t]))
    && |s.inserted| + Sum(s.threads, Todo(Producer)) == p
    && |s.removed| + Sum(s.threads, Todo(Consumer)) == c
    && s.produced + Sum(s.threads, Untallied(Producer)) == |s.inserted|
    && s.consumed + Sum(s.threads, Untallied(Consumer)) == |s.removed|
  }

  ghost predicate Inv(s: State, p: int, c: int) {
    Mutexes(s) && Semaphores(s) && Circular(s) && Totals(s, p, c)
  }

  lemma InitInv(s: State)
    requires Init(s)
    ensures Inv(s, Sum(s.threads, Todo(Producer)), Sum(s.threads, Todo(Consumer)))
  {
    SumZero(s.threads, TakesEmpty);
    SumZero(s.threads, TakesFull);
    SumZero(s.threads, Untallied(Producer));
    SumZero(s.threads, Untallied(Consumer));
  }

  lemma StepMutexes(s: State, t: nat, a: Action)
    requires Positions(s) && Mutexes(s) && t < |s.threads| && Can(s, t, a)
    ensures Mutexes(After(s, t, a))
  {
    var s' := After(s, t, a);
    StatsInside(s, t);
    OneMutex(s, t, a);
    hide Owns, Can, After;
    OwnsUpdate(s.threads, HoldsBuffer, s.mutex, t, s'.threads[t], s'.mutex);
    OwnsUpdate(s.threads, HoldsStats, s.stats, t, s'.threads[t], s'.stats);
  }

  lemma StatsInside(s: State, t: nat)
    requires Mutexes(s) && t < |s.threads|
    ensures HoldsStats(s.threads[t]) ==> s.stats == Some(t)
    ensures HoldsBuffer(s.threads[t]) ==> s.mutex == Some(t)
  {
  }

  lemma OneMutex(s: State, t: nat, a: Action)
    requires Positions(s) && t < |s.threads| && Can(s, t, a)
    ensures var s', th := After(s, t, a), s.threads[t];
      && s'.threads == s.threads[t := s'.threads[t]]
      && (if HoldsBuffer(th) then s'.mutex == (if HoldsBuffer(s'.threads[t]) then s.mutex else None)
        else if HoldsBuffer(s'.threads[t]) then s.mutex == None && s'.mutex == Some(t) else s'.mutex == s.mutex)
      && (if HoldsStats(th) then s'.stats == (if HoldsStats(s'.threads[t]) then s.stats else None)
        else if HoldsStats(s'.threads[t]) then s.stats == None && s'.stats == Some(t) else s'.stats == s.stats)
  {
  }

  lemma StepSemaphores(s: State, t: nat, a: Action)
    requires Positions(s) && Semaphores(s) && t < |s.threads| && Can(s, t, a)
    ensures Semaphores(After(s, t, a))
  {
    var s' := After(s, t, a);
    OneSemaphore(s, t, a);
    hide TakesEmpty, TakesFull, Can, After;
    SumUpdate(s.threads, TakesEmpty, t, s'.threads[t]);
    SumUpdate(s.threads, TakesFull, t, s'.threads[t]);
  }

  // What one step moves between the semaphores and its own thread's share.
  lemma OneSemaphore(s: State, t: nat, a: Action)
    requires Positions(s) && t < |s.threads| && Can(s, t, a) && s.empty >= 0 && s.full >= 0
    ensures var s', th := After(s, t, a), s.threads[t]; var th' := s'.threads[t];
      && s'.threads == s.threads[t := th'] && s'.size == s.size && s'.empty >= 0 && s'.full >= 0
      && s'.empty + TakesEmpty(th') + s'.count == s.empty + TakesEmpty(th) + s.count
      && s'.full + TakesFull(th') - s'.count == s.full + TakesFull(th) - s.count
  {
  }

  // A producer about to fill finds a free slot, a consumer about to take finds an item.
  lemma RoomToMove(s: State, t: nat)
    requires Semaphores(s) && t < |s.threads| && Can(s, t, Move)
    ensures 0 <= s.count <= s.size
    ensures if s.threads[t].kind.Producer? then s.count < s.size else s.count > 0
  {
    SumAtLeast(s.threads, TakesEmpty, t);
    SumAtLeast(s.threads, TakesFull, t);
  }

  lemma SlotIs(from: nat, k: nat, m: nat)
    requires from < m && k <= m
    ensures Slot(from, k, m) == if from + k < m then from + k else from + k - m
  {
    Modulo(from + k, m);
  }

  lemma Modulo(x: nat, m: nat)
    requires m > 0 && x < 2 * m
    ensures x % m == if x < m then x else x - m
  {
  }

  lemma Fill(buffer: seq<int>, from: nat, n: nat, x: int)
    requires 0 <= from < |buffer| && n < |buffer|
    ensures var b := buffer[Slot(from, n, |buffer|) := x];
      Window(b, from, n + 1) == Window(buffer, from, n) + [x]
    ensures Slot(Slot(from, n, |buffer|), 1, |buffer|) == Slot(from, n + 1, |buffer|)
  {
    hide Slot;
    var m := |buffer|;
    SlotIs(from, n, m);
    SlotIs(from, n + 1, m);
    SlotIs(Slot(from, n, m), 1, m);
    forall k: nat | k < n ensures Slot(from, k, m) != Slot(from, n, m) {
      SlotIs(from, k, m);
    }
  }

  lemma Take(buffer: seq<int>, from: nat, n: nat)
    requires 0 <= from < |buffer| && 0 < n <= |buffer|
    ensures Window(buffer, from, n) == [buffer[from]] + Window(buffer, Slot(from, 1, |buffer|), n - 1)
    ensures Slot(Slot(from, 1, |buffer|), n - 1, |buffer|) == Slot(from, n, |buffer|)
  {
    hide Slot;
    var m := |buffer|;
    SlotIs(from, 0, m);
    TakeSlot(from, n - 1, m);
    forall k: nat | k < n - 1 ensures Slot(Slot(from, 1, m), k, m) == Slot(from, k + 1, m) {
      TakeSlot(from, k, m);
    }
  }

  lemma TakeSlot(from: nat, k: nat, m: nat)
    requires from < m && k < m
    ensures Slot(Slot(from, 1, m), k, m) == Slot(from, k + 1, m)
  {
    hide Slot;
    SlotIs(from, 1, m);
    SlotIs(Slot(from, 1, m), k, m);
    SlotIs(from, k + 1, m);
  }

  lemma StepCircular(s: State, t: nat, a: Action)
    requires Semaphores(s) && Circular(s) && t < |s.threads| && Can(s, t, a)
    ensures Circular(After(s, t, a))
  {
    if a.Move? {
      hide Window, Semaphores, Slot;
      RoomToMove(s, t);
      if s.threads[t].kind.Producer? {
        Fill(s.buffer, s.outPos, s.count, s.threads[t].item);
      } else {
        Take(s.buffer, s.outPos, s.count);
      }
    }
  }

  // What one step changes in its own thread's share of the totals.
  lemma StepShares(s: State, t: nat, a: Action)
    requires Positions(s) && t < |s.threads| && Can(s, t, a) && Counts(s.threads[t])
    ensures var s', th := After(s, t, a), s.threads[t]; var th' := s'.threads[t];
      && s'.threads == s.threads[t := th'] && Counts(th')
      && |s'.inserted| + Todo(Producer)(th') == |s.inserted| + Todo(Producer)(th)
      && |s'.removed| + Todo(Consumer)(th') == |s.removed| + Todo(Consumer)(th)
      && s'.produced + Untallied(Producer)(th') - |s'.inserted| == s.produced + Untallied(Producer)(th) - |s.inserted|
      && s'.consumed + Untallied(Consumer)(th') - |s'.removed| == s.consumed + Untallied(Consumer)(th) - |s.removed|
  {
  }

  lemma StepTotals(s: State, t: nat, a: Action, p: int, c: int)
    requires Positions(s) && Totals(s, p, c) && t < |s.threads| && Can(s, t, a)
    ensures Totals(After(s, t, a), p, c)
  {
    var th := After(s, t, a).threads[t];
    StepShares(s, t, a);
    hide Todo, Untallied, Can, After, Counts;
    SumUpdate(s.threads, Todo(Producer), t, th);
    SumUpdate(s.threads, Todo(Consumer), t, th);
    SumUpdate(s.threads, Untallied(Producer), t, th);
    SumUpdate(s.threads, Untallied(Consumer), t, th);
  }

  lemma {:induction false} RunInv(run: seq<State>, i: nat)
    requires Run(run) && i < |run|
    ensures Inv(run[i], Sum(run[0].threads, Todo(Producer)), Sum(run[0].threads, Todo(Consumer)))
  {
    hide Inv, Init;
    if i == 0 {
      InitInv(run[0]);
    } else {
      RunInv(run, i - 1);
      assert Next(run[i - 1], run[i]);
      var t: nat, a :| t < |run[i - 1].threads| && Can(run[i - 1], t, a) && run[i] == After(run[i - 1], t, a);
      StepInv(run[i - 1], t, a, Sum(run[0].threads, Todo(Producer)), Sum(run[0].threads, Todo(Consumer)));
    }
  }

  lemma StepInv(s: State, t: nat, a: Action, p: int, c: int)
    requires Inv(s, p, c) && t < |s.threads| && Positions(s) && Can(s, t, a)
    ensures Inv(After(s, t, a), p, c)
  {
    hide Mutexes, Semaphores, Circular, Totals, Can, After;
    StepMutexes(s, t, a);
    StepSemaphores(s, t, a);
    StepCircular(s, t, a);
    StepTotals(s, t, a, p, c);
  }

  // ----- every run -----

  // What the threads of a kind still have to move.
  ghost function Remaining(s: State, kind: Kind): int {
    Sum(s.threads, Todo(kind))
  }

  // The semaphores account for every slot and every item, nothing overflows or underflows,
  // and items leave in the order they came.
  lemma Safety(run: seq<State>, i: nat)
    requires Run(run) && i < |run|
    ensures var s := run[i];
      && s.size - s.count == s.empty + Sum(s.threads, TakesEmpty) && s.empty >= 0
      && s.count == s.full + Sum(s.threads, TakesFull) && s.full >= 0
      && |s.buffer| == s.size > 0 && 0 <= s.count <= s.size
      && s.inserted == s.removed + Window(s.buffer, s.outPos, s.count)
  {
    RunInv(run, i);
  }

  lemma MutualExclusion(run: seq<State>, i: nat, t: nat, u: nat)
    requires Run(run) && i < |run| && t < |run[i].threads| && u < |run[i].threads|
    requires HoldsBuffer(run[i].threads[t]) && HoldsBuffer(run[i].threads[u])
    ensures t == u
  {
    RunInv(run, i);
  }

  // ----- no deadlock -----

  ghost predicate Stuck(s: State) {
    forall t: nat, a :: t < |s.threads| ==> !Can(s, t, a)
  }

  ghost predicate Finished(s: State) {
    forall t :: 0 <= t < |s.threads| ==> s.threads[t].stage.Ended?
  }

  // Only threads waiting for a semaphore at zero, and ended threads, cannot move.
  predicate Blocked(s: State, th: Thread) {
    || th.stage.Ended?
    || (th.stage.Waiting? && if th.kind.Producer? then s.empty == 0 else s.full == 0)
  }

  lemma SomeoneMoves(s: State, t: nat) returns (a: Action)
    requires t < |s.threads| && Mutexes(s) && Semaphores(s) && !Blocked(s, s.threads[t])
    requires s.mutex == None || s.mutex == Some(t)
    ensures Can(s, t, a)
  {
    var th := s.threads[t];
    a := match th.stage
      case Idle => Start(0)
      case Waiting => Wait
      case Locking => Lock
      case Holding => Move
      case Moved => LockStats
      case Counting => Tally
      case Counted => UnlockStats
      case Leaving => Unlock
      case Posting => Post;
    assert s.stats.Some? ==> HoldsBuffer(s.threads[s.stats.value]);
  }

  lemma StuckBlocked(s: State)
    requires Mutexes(s) && Semaphores(s) && Stuck(s)
    ensures forall t :: 0 <= t < |s.threads| ==> Blocked(s, s.threads[t])
  {
    hide Can, Blocked, Semaphores;
    if s.mutex.Some? {
      HolderNotBlocked(s, s.threads[s.mutex.value]);
      var a := SomeoneMoves(s, s.mutex.value);
      assert false;
    } else {
      forall t: nat | t < |s.threads| ensures Blocked(s, s.threads[t]) {
        if !Blocked(s, s.threads[t]) {
          var a := SomeoneMoves(s, t);
        }
      }
    }
  }

  lemma HolderNotBlocked(s: State, th: Thread)
    requires HoldsBuffer(th)
    ensures !Blocked(s, th)
  {
  }

  // With every thread blocked, the semaphores alone account for the buffer.
  lemma BlockedAccounts(s: State, p: int, c: int)
    requires Inv(s, p, c) && forall t :: 0 <= t < |s.threads| ==> Blocked(s, s.threads[t])
    ensures s.empty == s.size - s.count && s.full == s.count
    ensures s.produced == |s.inserted| && s.consumed == |s.removed| && |s.inserted| == |s.removed| + s.count
  {
    SumZero(s.threads, TakesEmpty);
    SumZero(s.threads, TakesFull);
    SumZero(s.threads, Untallied(Producer));
    SumZero(s.threads, Untallied(Consumer));
  }

  lemma TodoNonNegative(s: State, kind: Kind)
    requires forall t :: 0 <= t < |s.threads| ==> Counts(s.threads[t])
    ensures forall t :: 0 <= t < |s.threads| ==> Todo(kind)(s.threads[t]) >= 0
    ensures Remaining(s, kind) >= 0
  {
    SumNonNegative(s.threads, Todo(kind));
  }

  // A blocked thread has something to do exactly if it waits.
  lemma SomeoneWaits(s: State, kind: Kind) returns (t: nat)
    requires forall t :: 0 <= t < |s.threads| ==> Blocked(s, s.threads[t]) && Counts(s.threads[t])
    requires Remaining(s, kind) > 0
    ensures t < |s.threads| && s.threads[t].kind == kind && s.threads[t].stage.Waiting?
  {
    t := SomePositive(s.threads, Todo(kind));
  }

  lemma NothingRemains(s: State, kind: Kind)
    requires forall t :: 0 <= t < |s.threads| ==> s.threads[t].stage.Ended? && Counts(s.threads[t])
    ensures Remaining(s, kind) == 0
  {
    SumZero(s.threads, Todo(kind));
  }

  lemma WaiterRemains(s: State, t: nat)
    requires forall t :: 0 <= t < |s.threads| ==> Counts(s.threads[t])
    requires t < |s.threads| && s.threads[t].stage.Waiting?
    ensures Remaining(s, s.threads[t].kind) > 0
  {
    TodoNonNegative(s, s.threads[t].kind);
    SumAtLeast(s.threads, Todo(s.threads[t].kind), t);
  }

  // A state in which no thread can move is a finished one exactly if the consumers' quotas
  // are covered and what is left over fits into the buffer: always, when the totals agree.
  lemma NoDeadlock(run: seq<State>, i: nat)
    requires Run(run) && i < |run| && Stuck(run[i])
    ensures var p, c := Remaining(run[0], Producer), Remaining(run[0], Consumer);
      Finished(run[i]) <==> c <= p <= c + run[i].size
  {
    RunInv(run, i);
    StuckOutcome(run[i], Remaining(run[0], Producer), Remaining(run[0], Consumer));
  }

  lemma StuckOutcome(s: State, p: int, c: int)
    requires Inv(s, p, c) && Stuck(s)
    ensures Finished(s) <==> c <= p <= c + s.size
  {
    StuckBlocked(s);
    BlockedAccounts(s, p, c);
    TodoNonNegative(s, Producer);
    TodoNonNegative(s, Consumer);
    hide Todo, Mutexes, Semaphores, Stuck;
    if Finished(s) {
      NothingRemains(s, Producer);
      NothingRemains(s, Consumer);
    } else {
      var t :| 0 <= t < |s.threads| && !s.threads[t].stage.Ended?;
      WaiterRemains(s, t);
      var other := if s.threads[t].kind.Producer? then Consumer else Producer;
      if Remaining(s, other) > 0 {
        var u := SomeoneWaits(s, other);
      }
    }
  }

  lemma Finishes(run: seq<State>, i: nat)
    requires Run(run) && i < |run| && Finished(run[i])
    ensures var s, p, c := run[i], Remaining(run[0], Producer), Remaining(run[0], Consumer);
      && s.produced == |s.inserted| == p && s.consumed == |s.removed| == c && s.count == p - c
      && s.empty == s.size - s.count && s.full == s.count
  {
    RunInv(run, i);
    var s := run[i];
    assert forall t :: 0 <= t < |s.threads| ==> Blocked(s, s.threads[t]);
    BlockedAccounts(s, Remaining(run[0], Producer), Remaining(run[0], Consumer));
    NothingRemains(s, Producer);
    NothingRemains(s, Consumer);
  }

  // ----- progress -----

  function Rank(st: Stage): int {
    match st
    case Idle => 9
    case Waiting => 8
    case Locking => 7
    case Holding => 6
    case Moved => 5
    case Counting => 4
    case Counted => 3
    case Leaving => 2
    case Posting => 1
    case Ended => 0
  }

  function ThreadWork(th: Thread): int {
    10 * th.left + Rank(th.stage)
  }

  // Every step uses up some of the remaining work, so every schedule ends.
  lemma Progress(s: State, t: nat, a: Action)
    requires Positions(s) && t < |s.threads| && Can(s, t, a) && Counts(s.threads[t])
    ensures 0 <= Sum(After(s, t, a).threads, ThreadWork) < Sum(s.threads, ThreadWork)
  {
    var th := After(s, t, a).threads[t];
    assert ThreadWork(th) < ThreadWork(s.threads[t]);
    SumUpdate(s.threads, ThreadWork, t, th);
    SumNonNegative(After(s, t, a).threads, ThreadWork);
  }

  lemma RunCounts(run: seq<State>, i: nat)
    requires Run(run) && i < |run|
    ensures Positions(run[i]) && forall t :: 0 <= t < |run[i].threads| ==> Counts(run[i].threads[t])
  {
    RunInv(run, i);
  }

  // No run is longer than the work at its start allows.
  lemma RunsEnd(run: seq<State>)
    requires Run(run)
    ensures |run| <= Sum(run[0].threads, ThreadWork) + 1
  {
    var work := seq(|run|, i requires 0 <= i < |run| => Sum(run[i].threads, ThreadWork));
    forall i | 0 <= i < |run| ensures work[i] >= 0 {
      RunCounts(run, i);
      SumNonNegative(run[i].threads, ThreadWork);
    }
    forall i | 0 < i < |run| ensures work[i] < work[i - 1] {
      RunCounts(run, i - 1);
      assert Next(run[i - 1], run[i]);
      var t: nat, a :| t < |run[i - 1].threads| && Can(run[i - 1], t, a) && run[i] == After(run[i - 1], t, a);
      Progress(run[i - 1], t, a);
    }
    Descends(work);
  }

  // A run that cannot be extended.
  ghost predicate Maximal(run: seq<State>) {
    Run(run) && forall s :: !Run(run + [s])
  }

  // Such a run is finished exactly under the quota condition.
  lemma MaximalRuns(run: seq<State>)
    requires Maximal(run)
    ensures var p, c := Remaining(run[0], Producer), Remaining(run[0], Consumer); var s := run[|run| - 1];
      Finished(s) <==> c <= p <= c + s.size
  {
    var n := |run| - 1;
    RunCounts(run, n);
    forall t: nat, a | t < |run[n].threads| ensures !Can(run[n], t, a) {
      if Can(run[n], t, a) {
        Extends(run, t, a);
      }
    }
    NoDeadlock(run, n);
  }

  lemma Extends(run: seq<State>, t: nat, a: Action)
    requires Run(run) && Positions(run[|run| - 1]) && t < |run[|run| - 1].threads| && Can(run[|run| - 1], t, a)
    ensures Run(run + [After(run[|run| - 1], t, a)])
  {
    var n := |run|;
    var longer := run + [After(run[n - 1], t, a)];
    forall i | 0 < i < |longer| ensures Next(longer[i - 1], longer[i]) {
      if i < n {
        assert Next(run[i - 1], run[i]);
      }
    }
  }

  // A consumer with nothing to come waits for ever.
  lemma LonelyConsumer() returns (run: seq<State>)
    ensures Run(run) && Stuck(run[|run| - 1]) && !Finished(run[|run| - 1])
    ensures Remaining(run[0], Producer) == 0 && Remaining(run[0], Consumer) == 1
  {
    var s := State([Thread(Consumer, Idle, 1, 0)], [0], 1, 0, 0, 0, None, None, 1, 0, 0, 0, [], []);
    var s' := After(s, 0, Start(0));
    run := [s, s'];
    assert Next(s, s') by {
      assert Can(s, 0, Start(0));
    }
    assert s.threads[..0] == [];
    assert Remaining(s, Producer) == Sum(s.threads[..0], Todo(Producer)) + 0;
    assert Remaining(s, Consumer) == Sum(s.threads[..0], Todo(Consumer)) + 1;
    assert s'.threads[0].stage.Waiting? && s'.full == 0;
  }

  // ----- the main program -----

  // The i-th of n threads gets an equal share, the first ones one item more.
  function Share(total: nat, n: nat, i: nat): nat
    requires n > 0
  {
    total / n + if i < total % n then 1 else 0
  }

  function Workers(kind: Kind, total: nat, n: nat): (ths: seq<Thread>)
    requires n > 0
    ensures |ths| == n
  {
    seq(n, i requires 0 <= i < n => Thread(kind, Idle, Share(total, n, i), 0))
  }

  lemma {:induction false} PartialShares(kind: Kind, total: nat, n: nat, k: nat)
    requires n > 0 && k <= n
    ensures Sum(Workers(kind, total, n)[..k], Todo(kind)) == k * (total / n) + if k < total % n then k else total % n
  {
    if k > 0 {
      PartialShares(kind, total, n, k - 1);
      OneShare(kind, total, n, k, total / n, total % n);
    }
  }

  lemma OneShare(kind: Kind, total: nat, n: nat, k: nat, q: nat, r: nat)
    requires 0 < k <= n && q == total / n && r == total % n
    ensures Sum(Workers(kind, total, n)[..k], Todo(kind)) ==
      Sum(Workers(kind, total, n)[..k - 1], Todo(kind)) + q + if k - 1 < r then 1 else 0
    ensures k * q == (k - 1) * q + q
  {
    var ths := Workers(kind, total, n);
    assert ths[..k][..k - 1] == ths[..k - 1];
    assert Todo(kind)(ths[k - 1]) == q + if k - 1 < r then 1 else 0;
  }

  // The quotas add up to the total.
  lemma SharesAddUp(kind: Kind, total: nat, n: nat)
    requires n > 0
    ensures Sum(Workers(kind, total, n), Todo(kind)) == total
  {
    PartialShares(kind, total, n, n);
    assert Workers(kind, total, n)[..n] == Workers(kind, total, n);
    assert total == n * (total / n) + total % n;
  }

  // The program never deadlocks, and once its threads are joined everything produced has
  // been consumed, in order, and the buffer is empty.
  lemma MainProgram(run: seq<State>, i: nat, total: nat, producers: nat, consumers: nat)
    requires Run(run) && i < |run| && producers > 0 && consumers > 0
    requires run[0].threads == Workers(Producer, total, producers) + Workers(Consumer, total, consumers)
    ensures Stuck(run[i]) ==> Finished(run[i])
    ensures Finished(run[i]) ==> var s := run[i];
      s.produced == s.consumed == |s.inserted| == total && s.removed == s.inserted && s.count == 0
  {
    forall kind: Kind ensures Remaining(run[0], kind) == total {
      SumAppend(Workers(Producer, total, producers), Workers(Consumer, total, consumers), Todo(kind));
      SharesAddUp(Producer, total, producers);
      SharesAddUp(Consumer, total, consumers);
      SumZero(if kind.Producer? then Workers(Consumer, total, consumers) else Workers(Producer, total, producers), Todo(kind));
    }
    if Stuck(run[i]) {
      RunInv(run, i);
      NoDeadlock(run, i);
    }
    if Finished(run[i]) {
      Finishes(run, i);
      Safety(run, i);
    }
  }
}
