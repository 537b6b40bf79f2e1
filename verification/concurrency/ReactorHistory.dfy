// What a run of the reactor is seen to do, told from the stages of its event loop: which
// events it comes to, whom they wake, and what it hands to the executor.
module ReactorHistory {
  import opened Reactor
  import opened ReactorRuns

  predicate Readable(ev: bv32) {
    ev & EPOLLIN != 0 || ev & EPOLLRDHUP != 0 || ev & EPOLLHUP != 0 || ev & EPOLLERR != 0
  }

  predicate Writable(ev: bv32) {
    ev & EPOLLOUT != 0 || ev & EPOLLHUP != 0 || ev & EPOLLERR != 0
  }

  // The loop takes out the waiters of the event it is at.
  predicate Dispatches(s: State, s': State) {
    s.loop.Looking? && s'.loop.Took?
  }

  // A handle that waits there is taken out in this step, because of the event.
  predicate Woken(s: State, s': State, w: Where) {
    match w
    case Reading(fd) => Dispatches(s, s') && s.loop.event.fd == fd && Readable(s.loop.event.bits)
    case Writing(fd) => Dispatches(s, s') && s.loop.event.fd == fd && Writable(s.loop.event.bits)
    case Sleeping(fd) => s.loop.Dispatching? && s'.loop.TookTimer? && s'.loop.fd == fd
    case _ => false
  }

  // Another handle is registered where this one waits.
  predicate Replaced(s: State, s': State, w: Where) {
    (w.Reading? || w.Writing?) && |s'.places| == |s.places| + 1 && s'.places[|s.places|] == w
  }

  // A waiting handle moves exactly when the event of its direction is dispatched, or another
  // handle takes its place; one in flight can only be scheduled.
  ghost predicate MovesAsSeen(s: State, s': State, k: nat)
    requires k < |s.places|
  {
    && |s.places| <= |s'.places|
    && (Woken(s, s', s.places[k]) ==> s'.places[k] == InFlight)
    && (Replaced(s, s', s.places[k]) ==> s'.places[k] == Overwritten)
    && (!Woken(s, s', s.places[k]) && !Replaced(s, s', s.places[k]) ==>
      s'.places[k] == s.places[k] || (s.places[k] == InFlight && s'.places[k] == Scheduled))
  }

  // What the loop hands to the executor in this step: a timer's handle, a reader, a writer.
  function HandedOver(s: State, s': State): seq<int> {
    if s.loop.Closed? && s'.loop.Dispatching? then [s.loop.timer]
    else if s.loop.Took? && s'.loop.TookWriter? && s.loop.rd.Some? then [s.loop.rd.value]
    else if s.loop.TookWriter? && s'.loop.Dispatching? && s.loop.wr.Some? then [s.loop.wr.value]
    else []
  }

  // The event the loop comes to in this step.
  function Reaches(s: State, s': State): seq<Event> {
    if !s.loop.Dispatching? || s.loop.events == [] then []
    else if s'.loop.Looking? then [s'.loop.event]
    else if s'.loop.TookTimer? then [Event(s'.loop.fd, s.loop.events[0].bits)]
    else []
  }

  // ----- one step -----

  lemma StepMoves(s: State, a: Action, k: nat)
    requires Kernel(s) && Placed(s) && Can(s, a) && k < |s.places|
    ensures MovesAsSeen(s, After(s, a), k)
  {
    hide Kernel, Sound, Armed, Dispatched, WakesReader, WakesWriter;
    forall w ensures Found(s, k, w) <==> s.places[k] == w {
    }
    match a
    case WaitRead(fd) => assert Found(s, k, Reading(fd)) <==> s.places[k] == Reading(fd);
    case WaitWrite(fd) => assert Found(s, k, Writing(fd)) <==> s.places[k] == Writing(fd);
    case TakeTimer =>
      assert Found(s, k, Sleeping(s.loop.events[0].fd)) <==> s.places[k] == Sleeping(s.loop.events[0].fd);
    case TakeWaiters =>
      WakesInBits(s.loop.event.bits);
      assert Found(s, k, Reading(s.loop.event.fd)) <==> s.places[k] == Reading(s.loop.event.fd);
      assert Found(s, k, Writing(s.loop.event.fd)) <==> s.places[k] == Writing(s.loop.event.fd);
    case ScheduleTimer => assert Found(s, k, InFlight) <==> s.places[k] == InFlight;
    case ScheduleReader => assert Found(s, k, InFlight) <==> s.places[k] == InFlight;
    case ScheduleWriter => assert Found(s, k, InFlight) <==> s.places[k] == InFlight;
    case _ =>
  }

  // The reader taken out is handed over first and then the writer; without a timer
  // descriptor the new handle goes to the executor at once.
  lemma StepSchedules(s: State, a: Action)
    requires Can(s, a)
    ensures var s' := After(s, a);
      s'.scheduled == s.scheduled + HandedOver(s, s') + if a.NoTimer? then [|s.places|] else []
  {
  }

  lemma StepTakes(s: State, s': State, a: Action)
    requires Kernel(s) && Placed(s) && Can(s, a) && s' == After(s, a) && Dispatches(s, s')
    ensures s'.loop.rd.Some? ==> 0 <= s'.loop.rd.value < |s.places| && s.places[s'.loop.rd.value] == Reading(s.loop.event.fd)
    ensures s'.loop.wr.Some? ==> 0 <= s'.loop.wr.value < |s.places| && s.places[s'.loop.wr.value] == Writing(s.loop.event.fd)
  {
    hide Kernel, Sound, Armed, Dispatched, WakesReader, WakesWriter;
    if s'.loop.rd.Some? { assert Found(s, s'.loop.rd.value, Reading(s.loop.event.fd)); }
    if s'.loop.wr.Some? { assert Found(s, s'.loop.wr.value, Writing(s.loop.event.fd)); }
  }

  // A registration adds one handle, which waits for what it was registered for.
  lemma StepRegisters(s: State, a: Action)
    requires Can(s, a)
    ensures var s', n := After(s, a), |s.places|;
      match a
      case WaitRead(fd) => |s'.places| == n + 1 && s'.places[n] == Reading(fd)
      case WaitWrite(fd) => |s'.places| == n + 1 && s'.places[n] == Writing(fd)
      case WaitTimer(fd) => |s'.places| == n + 1 && s'.places[n] == Sleeping(fd)
      case NoTimer => |s'.places| == n + 1 && s'.places[n] == Scheduled
      case _ => |s'.places| == n
  {
    hide Armed, Dispatched, WakesReader, WakesWriter;
  }

  // The loop goes through a batch event by event, takes the timer of each that is a timer's,
  // and looks up the waiters of every other.
  lemma StepReaches(s: State, a: Action)
    requires Can(s, a)
    ensures var s' := After(s, a);
      && (Rest(s.loop) == Reaches(s, s') + Rest(s'.loop) || (s.loop.Polling? && s'.loop.Dispatching?))
      && (Reaches(s, s') != [] ==> (s'.loop.TookTimer? <==> Reaches(s, s')[0].fd in s.tables.timers))
      && (s.loop.Looking? ==> s'.loop == s.loop || Dispatches(s, s'))
  {
  }

  // The kernel reports an armed timer, or the one that ends the loop, once it can be read.
  ghost predicate TimersReadable(s: State) {
    forall fd :: fd in s.timerFds - s.unarmed ==> fd in s.tables.interest && s.tables.interest[fd] == EPOLLIN
  }

  lemma StepTimers(s: State, a: Action)
    requires Kernel(s) && Can(s, a) && TimersReadable(s)
    ensures TimersReadable(After(s, a))
  {
    hide Sound, Masked, Fired, WithReader, WithWriter, WakesReader, WakesWriter;
  }

  // ----- whole runs -----

  lemma {:induction false} TimersWatched(run: seq<State>, i: nat)
    requires Run(run) && i < |run|
    ensures TimersReadable(run[i])
  {
    hide Kernel, Placed, After, Can;
    if i > 0 {
      hide TimersReadable;
      TimersWatched(run, i - 1);
      RunInv(run, i - 1);
      assert Next(run[i - 1], run[i]);
      var a :| Can(run[i - 1], a) && run[i] == After(run[i - 1], a);
      StepTimers(run[i - 1], a);
    }
  }

  lemma WakesExactly(run: seq<State>, i: nat, k: nat)
    requires Run(run) && 0 < i < |run| && k < |run[i - 1].places|
    ensures MovesAsSeen(run[i - 1], run[i], k)
  {
    hide Kernel, Placed, After, Can, MovesAsSeen;
    RunInv(run, i - 1);
    assert Next(run[i - 1], run[i]);
    var a :| Can(run[i - 1], a) && run[i] == After(run[i - 1], a);
    StepMoves(run[i - 1], a, k);
  }

  lemma {:induction false} FlightEnds(run: seq<State>, i: nat, j: nat, k: nat)
    requires Run(run) && i <= j < |run| && k < |run[i].places|
    requires run[i].places[k] == InFlight || run[i].places[k] == Scheduled
    ensures k < |run[j].places| && (run[j].places[k] == InFlight || run[j].places[k] == Scheduled)
  {
    if i < j {
      FlightEnds(run, i, j - 1, k);
      WakesExactly(run, j, k);
    }
  }

  // A handle that an event wakes has been given to the executor, once, by the time the loop
  // is about to take up the next event or to poll again.
  lemma WokenIsScheduled(run: seq<State>, i: nat, j: nat, k: nat)
    requires Run(run) && 0 < i <= j < |run| && k < |run[i - 1].places|
    requires Woken(run[i - 1], run[i], run[i - 1].places[k])
    requires run[j].loop.Dispatching? || run[j].loop.Polling? || run[j].loop.Stopped?
    ensures k in run[j].scheduled
  {
    hide Kernel, After, Can, Woken;
    WakesExactly(run, i, k);
    FlightEnds(run, i, j, k);
    RunInv(run, j);
    assert !Found(run[j], k, InFlight);
    assert Found(run[j], k, Scheduled);
  }

  // The events the kernel has reported, and those the loop has come to.
  ghost function Reported(run: seq<State>, i: nat): seq<Event>
    requires i < |run|
  {
    if i == 0 then []
    else if run[i - 1].loop.Polling? && run[i].loop.Dispatching? then Reported(run, i - 1) + run[i].loop.events
    else Reported(run, i - 1)
  }

  ghost function Reached(run: seq<State>, i: nat): seq<Event>
    requires i < |run|
  {
    if i == 0 then [] else Reached(run, i - 1) + Reaches(run[i - 1], run[i])
  }

  // The loop comes to every event reported, once each and in order.
  lemma {:induction false} EventsInOrder(run: seq<State>, i: nat)
    requires Run(run) && i < |run|
    ensures Reported(run, i) == Reached(run, i) + Rest(run[i].loop)
  {
    hide After, Can, Rest, Reaches;
    if i == 0 {
      StartsEmpty(run[0]);
    } else {
      EventsInOrder(run, i - 1);
      assert Next(run[i - 1], run[i]);
      StepInOrder(run[i - 1], run[i], Reached(run, i - 1));
    }
  }

  lemma StartsEmpty(s: State)
    requires Init(s)
    ensures Rest(s.loop) == []
  {
  }

  lemma StepInOrder(s: State, s': State, reached: seq<Event>)
    requires Next(s, s')
    ensures reached + Reaches(s, s') + Rest(s'.loop) ==
      reached + Rest(s.loop) + if s.loop.Polling? && s'.loop.Dispatching? then s'.loop.events else []
  {
    hide After, Can;
    var a :| Can(s, a) && s' == After(s, a);
    StepReaches(s, a);
    if !(s.loop.Polling? && s'.loop.Dispatching?) {
      assert reached + Reaches(s, s') + Rest(s'.loop) == reached + (Reaches(s, s') + Rest(s'.loop));
    }
  }
}
