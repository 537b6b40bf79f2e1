// What the threads of the executor are seen to do in a run, told from their stages alone:
// who queued which handle, who took it, and who resumed it.
module ExecutorHistory {
  import opened Tally
  import opened Executor

  // Thread t leaves the critical section of schedule with its handle queued.
  ghost predicate Queues<H>(s: State<H>, s': State<H>, t: nat, h: H) {
    t < |s.threads| && t < |s'.threads| && s.threads[t].call == Deciding(h) && s'.threads[t].call.Pushed?
  }

  // Worker t takes a handle.
  ghost predicate Takes<H>(s: State<H>, s': State<H>, t: nat, h: H) {
    && t < |s.threads| && t < |s'.threads| && s.threads[t].loop.Taking?
    && s'.threads[t].loop.Leaving? && s'.threads[t].loop.handle == h
  }

  // Worker t comes back from resuming the handle with this ticket.
  ghost predicate Resumes<H>(s: State<H>, s': State<H>, t: nat, ticket: nat, h: H) {
    t < |s.threads| && t < |s'.threads| && s.threads[t].loop == Running(ticket, h) && !s'.threads[t].loop.Running?
  }

  ghost predicate SomeoneQueues<H(!new)>(s: State<H>, s': State<H>) {
    exists t: nat, h :: Queues(s, s', t, h)
  }

  ghost predicate SomeoneTakes<H(!new)>(s: State<H>, s': State<H>) {
    exists t: nat, h :: Takes(s, s', t, h)
  }

  ghost predicate SomeoneResumes<H(!new)>(s: State<H>, s': State<H>) {
    exists t: nat, k: nat, h :: Resumes(s, s', t, k, h)
  }

  // ----- one step -----

  // A call keeps the handle it was made with until it is queued, or turned away.
  ghost predicate KeepsHandle<H>(before: Call<H>, after: Call<H>, stopped: bool) {
    && (before.Scheduling? ==> after == before || after == Deciding(before.handle))
    && (before.Deciding? ==> after == before || after.Pushed? || (after.Rejected? && stopped))
  }

  // And so does a worker from taking a handle until it has resumed it.
  ghost predicate KeepsTaken<H>(before: Loop<H>, after: Loop<H>) {
    && (before.Leaving? ==> after == before || after == Running(before.ticket, before.handle))
    && (before.Running? ==> after == before || after.Locking?)
    && (after.Leaving? ==> after == before || before.Taking?)
    && (after.Running? ==> after == before || before.Leaving?)
  }

  lemma StepKeeps<H>(s: State<H>, t: nat, a: Action<H>, u: nat)
    requires t < |s.threads| && u < |s.threads| && Can(s, t, a)
    ensures |After(s, t, a).threads| == |s.threads|
    ensures KeepsHandle(s.threads[u].call, After(s, t, a).threads[u].call, s.stopped)
    ensures Shaped(s.threads[t]) ==> KeepsTaken(s.threads[u].loop, After(s, t, a).threads[u].loop)
  {
  }

  // Only a thread that queues its handle changes the end of the queue.
  lemma StepQueues<H(!new)>(s: State<H>, t: nat, a: Action<H>)
    requires t < |s.threads| && Can(s, t, a)
    ensures var s' := After(s, t, a);
      forall u: nat, h :: Queues(s, s', u, h) ==>
        s'.queue == s.queue + [h] && s'.accepted == s.accepted + [h] && !SomeoneTakes(s, s')
    ensures var s' := After(s, t, a);
      !SomeoneQueues(s, s') ==> s'.accepted == s.accepted && (!SomeoneTakes(s, s') ==> s'.queue == s.queue)
  {
    var s' := After(s, t, a);
    if a.Push? {
      assert Queues(s, s', t, s.threads[t].call.handle);
    }
    if a.Pop? {
      assert Takes(s, s', t, s.queue[0]);
    }
  }

  // Only a worker that takes a handle changes the front of the queue, and it takes the front.
  lemma StepTakes<H(!new)>(s: State<H>, t: nat, a: Action<H>)
    requires t < |s.threads| && Can(s, t, a)
    ensures var s' := After(s, t, a);
      forall u: nat, h :: Takes(s, s', u, h) ==>
        && s.queue == [h] + s'.queue && s'.dequeued == s.dequeued + [h] && !SomeoneQueues(s, s')
        && s'.threads[u].loop.ticket == |s.dequeued|
    ensures var s' := After(s, t, a); !SomeoneTakes(s, s') ==> s'.dequeued == s.dequeued
  {
    var s' := After(s, t, a);
    if a.Pop? {
      assert Takes(s, s', t, s.queue[0]);
    }
  }

  lemma StepResumes<H(!new)>(s: State<H>, t: nat, a: Action<H>)
    requires t < |s.threads| && Can(s, t, a)
    ensures var s' := After(s, t, a);
      forall u: nat, k: nat, h :: Resumes(s, s', u, k, h) ==> s'.resumed == s.resumed + [k]
    ensures var s' := After(s, t, a); !SomeoneResumes(s, s') ==> s'.resumed == s.resumed
  {
    var s' := After(s, t, a);
    if a.Resume? {
      assert Resumes(s, s', t, s.threads[t].loop.ticket, s.threads[t].loop.handle);
    }
  }

  // ----- whole runs -----

  ghost predicate IsQueued<H>(s: State<H>, s': State<H>, h: H) {
    exists t: nat :: Queues(s, s', t, h)
  }

  ghost predicate IsTaken<H>(s: State<H>, s': State<H>, h: H) {
    exists t: nat :: Takes(s, s', t, h)
  }

  ghost predicate IsResumed<H(!new)>(s: State<H>, s': State<H>, k: nat) {
    exists t: nat, h :: Resumes(s, s', t, k, h)
  }

  ghost function QueuedIn<H(!new)>(s: State<H>, s': State<H>): seq<H> {
    if exists h :: IsQueued(s, s', h) then var h :| IsQueued(s, s', h); [h] else []
  }

  ghost function TakenIn<H(!new)>(s: State<H>, s': State<H>): seq<H> {
    if exists h :: IsTaken(s, s', h) then var h :| IsTaken(s, s', h); [h] else []
  }

  ghost function ResumedIn<H(!new)>(s: State<H>, s': State<H>): seq<nat> {
    if exists k: nat :: IsResumed(s, s', k) then var k: nat :| IsResumed(s, s', k); [k] else []
  }

  // The handles that callers have left schedule with, in the order they left.
  ghost function Queued<H(!new)>(run: seq<State<H>>, i: nat): seq<H>
    requires i < |run|
  {
    if i == 0 then [] else Queued(run, i - 1) + QueuedIn(run[i - 1], run[i])
  }

  // The handles that workers have taken, in the order they took them.
  ghost function Taken<H(!new)>(run: seq<State<H>>, i: nat): seq<H>
    requires i < |run|
  {
    if i == 0 then [] else Taken(run, i - 1) + TakenIn(run[i - 1], run[i])
  }

  // The tickets of the handles that have been resumed.
  ghost function Resumed<H(!new)>(run: seq<State<H>>, i: nat): seq<nat>
    requires i < |run|
  {
    if i == 0 then [] else Resumed(run, i - 1) + ResumedIn(run[i - 1], run[i])
  }

  lemma StepRecords<H(!new)>(s: State<H>, s': State<H>)
    requires Next(s, s')
    ensures s'.accepted == s.accepted + QueuedIn(s, s') && s'.dequeued == s.dequeued + TakenIn(s, s')
    ensures s.queue + QueuedIn(s, s') == TakenIn(s, s') + s'.queue
    ensures s'.resumed == s.resumed + ResumedIn(s, s')
  {
    hide Can, After, Queues, Takes, Resumes;
    var t: nat, a :| t < |s.threads| && Can(s, t, a) && s' == After(s, t, a);
    StepQueues(s, t, a);
    StepTakes(s, t, a);
    StepResumes(s, t, a);
    forall u: nat, h | Queues(s, s', u, h) ensures IsQueued(s, s', h) {
    }
    forall u: nat, h | Takes(s, s', u, h) ensures IsTaken(s, s', h) {
    }
    forall u: nat, k: nat, h | Resumes(s, s', u, k, h) ensures IsResumed(s, s', k) {
    }
  }

  lemma {:induction false} Recorded<H(!new)>(run: seq<State<H>>, i: nat)
    requires Run(run) && i < |run|
    ensures run[i].accepted == Queued(run, i) && run[i].dequeued == Taken(run, i) && run[i].resumed == Resumed(run, i)
    ensures Queued(run, i) == Taken(run, i) + run[i].queue
  {
    hide Next, QueuedIn, TakenIn, ResumedIn;
    if i > 0 {
      Recorded(run, i - 1);
      assert Next(run[i - 1], run[i]);
      StepRecords(run[i - 1], run[i]);
      Passed(Taken(run, i - 1), run[i - 1].queue, QueuedIn(run[i - 1], run[i]), TakenIn(run[i - 1], run[i]), run[i].queue);
    }
  }

  lemma Passed<X>(taken: seq<X>, queue: seq<X>, q: seq<X>, t: seq<X>, queue': seq<X>)
    requires queue + q == t + queue'
    ensures (taken + queue) + q == (taken + t) + queue'
  {
    assert (taken + queue) + q == taken + (queue + q);
  }

  // Handles are taken in the order in which their callers left schedule, and the others
  // wait in the queue in that order.
  lemma TakenInOrder<H(!new)>(run: seq<State<H>>, i: nat)
    requires Run(run) && i < |run|
    ensures Queued(run, i) == Taken(run, i) + run[i].queue
  {
    Recorded(run, i);
  }

  // What has been queued, or taken, stays so, in its place.
  lemma {:induction false} HistoryGrows<H(!new)>(run: seq<State<H>>, i: nat, j: nat)
    requires i <= j < |run|
    ensures Queued(run, i) <= Queued(run, j) && Taken(run, i) <= Taken(run, j) && Resumed(run, i) <= Resumed(run, j)
  {
    hide QueuedIn, TakenIn, ResumedIn;
    if i < j {
      HistoryGrows(run, i, j - 1);
      Longer(Queued(run, i), Queued(run, j - 1), QueuedIn(run[j - 1], run[j]));
      Longer(Taken(run, i), Taken(run, j - 1), TakenIn(run[j - 1], run[j]));
      Longer(Resumed(run, i), Resumed(run, j - 1), ResumedIn(run[j - 1], run[j]));
    }
  }

  lemma Longer<X>(a: seq<X>, b: seq<X>, c: seq<X>)
    requires a <= b
    ensures a <= b + c
  {
  }

  // A caller is turned away only when the executor is stopped.
  lemma TurnedAway<H(!new)>(run: seq<State<H>>, i: nat, u: nat)
    requires Run(run) && 0 < i < |run| && u < |run[i - 1].threads| == |run[i].threads|
    requires run[i - 1].threads[u].call.Deciding? && !run[i].threads[u].call.Deciding? && !run[i].threads[u].call.Pushed?
    ensures run[i].threads[u].call.Rejected? && run[i - 1].stopped
  {
    hide Can, After;
    assert Next(run[i - 1], run[i]);
    var t: nat, a :| t < |run[i - 1].threads| && Can(run[i - 1], t, a) && run[i] == After(run[i - 1], t, a);
    StepKeeps(run[i - 1], t, a, u);
  }

  // A worker's ticket is the place of its handle among those taken.
  ghost predicate TicketsFit<H>(s: State<H>) {
    forall u :: 0 <= u < |s.threads| && (s.threads[u].loop.Leaving? || s.threads[u].loop.Running?) ==>
      s.threads[u].loop.ticket < |s.dequeued| && s.threads[u].loop.handle == s.dequeued[s.threads[u].loop.ticket]
  }

  lemma StepTicketsFit<H(!new)>(s: State<H>, t: nat, a: Action<H>)
    requires Shape(s) && TicketsFit(s) && t < |s.threads| && Can(s, t, a)
    ensures TicketsFit(After(s, t, a))
  {
    var s' := After(s, t, a);
    StepTakes(s, t, a);
    forall u: nat | u < |s.threads| ensures KeepsTaken(s.threads[u].loop, s'.threads[u].loop) && |s'.threads| == |s.threads| {
      StepKeeps(s, t, a, u);
    }
    hide Can, After, Shape;
    forall u: nat | u < |s'.threads| && (s'.threads[u].loop.Leaving? || s'.threads[u].loop.Running?)
      ensures s'.threads[u].loop.ticket < |s'.dequeued| && s'.threads[u].loop.handle == s'.dequeued[s'.threads[u].loop.ticket]
    {
      if s'.threads[u].loop.Leaving? && s.threads[u].loop.Taking? {
        assert Takes(s, s', u, s'.threads[u].loop.handle);
      }
    }
  }

  lemma {:induction false} RunTicketsFit<H(!new)>(run: seq<State<H>>, i: nat)
    requires Run(run) && i < |run|
    ensures TicketsFit(run[i])
  {
    hide Can, After;
    if i > 0 {
      RunTicketsFit(run, i - 1);
      RunInv(run, i - 1);
      assert Next(run[i - 1], run[i]);
      var t: nat, a :| t < |run[i - 1].threads| && Can(run[i - 1], t, a) && run[i] == After(run[i - 1], t, a);
      StepTicketsFit(run[i - 1], t, a);
    }
  }

  // The handle with ticket k, and no other, is the k-th one that a caller left schedule
  // with; it has not been resumed before.
  lemma ResumedIsQueued<H(!new)>(run: seq<State<H>>, i: nat, t: nat, k: nat, h: H)
    requires Run(run) && 0 < i < |run| && Resumes(run[i - 1], run[i], t, k, h)
    ensures k < |Queued(run, i - 1)| && h == Queued(run, i - 1)[k] && k !in Resumed(run, i - 1)
    ensures Resumed(run, i) == Resumed(run, i - 1) + [k]
  {
    hide Init, Next, Resumes, Tickets, TicketsFit, Queued, Taken, Resumed;
    RunTicketsFit(run, i - 1);
    Recorded(run, i - 1);
    Recorded(run, i);
    RunTickets(run, i - 1);
    assert Next(run[i - 1], run[i]);
    StepResumed(run[i - 1], run[i], t, k, h);
    assert run[i - 1].dequeued <= Queued(run, i - 1);
  }

  lemma RunTickets<H(!new)>(run: seq<State<H>>, i: nat)
    requires Run(run) && i < |run|
    ensures Tickets(run[i])
  {
    RunInv(run, i);
  }

  lemma StepResumed<H(!new)>(s: State<H>, s': State<H>, t: nat, k: nat, h: H)
    requires Tickets(s) && TicketsFit(s) && Next(s, s') && Resumes(s, s', t, k, h)
    ensures k < |s.dequeued| && h == s.dequeued[k] && k !in s.resumed && s'.resumed == s.resumed + [k]
  {
    assert Hand(s.threads[t]) == k;
    hide Can, After;
    var u: nat, a :| u < |s.threads| && Can(s, u, a) && s' == After(s, u, a);
    StepResumes(s, u, a);
  }

  // When all workers have returned, each queued handle has been resumed once.
  lemma AllHandled<H(!new)>(run: seq<State<H>>, i: nat)
    requires Run(run) && i < |run| && AllExited(run[i])
    ensures forall k: nat :: k in Resumed(run, i) <==> k < |Queued(run, i)|
    ensures forall j, k :: 0 <= j < k < |Resumed(run, i)| ==> Resumed(run, i)[j] != Resumed(run, i)[k]
  {
    Recorded(run, i);
    Drained(run, i);
    FirstInFirstOut(run, i);
  }
}
