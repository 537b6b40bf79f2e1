// Runs of the reactor: registrations from any thread interleaved with the event loop, one
// critical section or kernel call a step. The n-th handle registered has the ticket n.
module ReactorRuns {
  import opened Options
  import opened Reactor

  datatype Event = Event(fd: int, bits: bv32)

  datatype Loop =
    | Polling
    | Dispatching(events: seq<Event>)                        // about to look the first one up among the timers
    | TookTimer(fd: int, timer: int, rest: seq<Event>)       // about to close the timer's descriptor
    | Closed(timer: int, rest: seq<Event>)                   // about to schedule its handle
    | Looking(event: Event, rest: seq<Event>)                // about to look it up among the waiters
    | Took(rd: Option<int>, wr: Option<int>, rest: seq<Event>) // about to schedule the reader, if any
    | TookWriter(wr: Option<int>, rest: seq<Event>)          // about to schedule the writer, if any
    | Stopped

  // What has become of a handle.
  datatype Where = Reading(fd: int) | Writing(fd: int) | Sleeping(fd: int) | InFlight | Scheduled | Overwritten

  // `timerFds` are the timers' open descriptors, `unarmed` those the kernel does not watch yet.
  datatype State = State(
    tables: Tables<int>, loop: Loop, stop: bool, timerFds: set<int>, unarmed: set<int>,
    scheduled: seq<int>, places: seq<Where>)

  datatype Action =
    | WaitRead(fd: int) | WaitWrite(fd: int) | WaitTimer(fd: int) | ArmTimer(fd: int) | NoTimer | Shutdown(fd: int)
    | Poll(events: seq<Event>) | PollFails | Exit | EndBatch | TakeTimer | CloseTimer | ScheduleTimer
    | TakeWaiters | ScheduleReader | ScheduleWriter

  // A descriptor the kernel may hand out.
  predicate Unused(s: State, fd: int) {
    fd !in s.tables.waiters && fd !in s.tables.interest && fd !in s.timerFds
  }

  // A batch reports watched descriptors, each once.
  ghost predicate Watched(s: State, events: seq<Event>) {
    && (forall i :: 0 <= i < |events| ==> events[i].fd in s.tables.interest)
    && (forall i, j :: 0 <= i < j < |events| ==> events[i].fd != events[j].fd)
  }

  ghost predicate Can(s: State, a: Action) {
    match a
    case WaitRead(fd) => fd !in s.timerFds
    case WaitWrite(fd) => fd !in s.timerFds
    case WaitTimer(fd) => Unused(s, fd)
    case ArmTimer(fd) => fd in s.unarmed
    case NoTimer => true
    case Shutdown(fd) => !s.stop && Unused(s, fd)
    case Poll(events) => s.loop.Polling? && !s.stop && Watched(s, events)
    case PollFails => s.loop.Polling? && !s.stop
    case Exit => s.loop.Polling? && s.stop
    case EndBatch => s.loop.Dispatching? && s.loop.events == []
    case TakeTimer => s.loop.Dispatching? && s.loop.events != []
    case CloseTimer => s.loop.TookTimer?
    case ScheduleTimer => s.loop.Closed?
    case TakeWaiters => s.loop.Looking?
    case ScheduleReader => s.loop.Took?
    case ScheduleWriter => s.loop.TookWriter?
  }

  // The places after the holder of `h`, if any, went to `w`.
  function Moved(places: seq<Where>, h: Option<int>, w: Where): seq<Where> {
    if h.Some? && 0 <= h.value < |places| then places[h.value := w] else places
  }

  function Scheduling(s: State, h: Option<int>, loop: Loop): State {
    if h.Some? then
      s.(loop := loop, scheduled := s.scheduled + [h.value], places := Moved(s.places, h, Scheduled))
    else
      s.(loop := loop)
  }

  ghost function After(s: State, a: Action): State
    requires Can(s, a)
  {
    var tb, ticket := s.tables, |s.places|;
    match a
    case WaitRead(fd) =>
      var w := EntryOf(tb, fd);
      s.(tables := Armed(tb, fd, WithReader(w, ticket)), places := Moved(s.places, w.rd, Overwritten) + [Reading(fd)])
    case WaitWrite(fd) =>
      var w := EntryOf(tb, fd);
      s.(tables := Armed(tb, fd, WithWriter(w, ticket)), places := Moved(s.places, w.wr, Overwritten) + [Writing(fd)])
    case WaitTimer(fd) =>
      s.(tables := tb.(timers := tb.timers[fd := ticket]), timerFds := s.timerFds + {fd}, unarmed := s.unarmed + {fd},
        places := s.places + [Sleeping(fd)])
    case ArmTimer(fd) => s.(tables := tb.(interest := tb.interest[fd := EPOLLIN]), unarmed := s.unarmed - {fd})
    case NoTimer => s.(scheduled := s.scheduled + [ticket], places := s.places + [Scheduled])
    case Shutdown(fd) =>
      s.(stop := true, timerFds := s.timerFds + {fd}, tables := tb.(interest := tb.interest[fd := EPOLLIN]))
    case Poll(events) => s.(loop := Dispatching(events))
    case PollFails => s.(loop := Stopped)
    case Exit => s.(loop := Stopped)
    case EndBatch => s.(loop := Polling)
    case TakeTimer =>
      var e, rest := s.loop.events[0], s.loop.events[1..];
      if e.fd in tb.timers then
        s.(tables := tb.(timers := tb.timers - {e.fd}), loop := TookTimer(e.fd, tb.timers[e.fd], rest),
          places := Moved(s.places, Some(tb.timers[e.fd]), InFlight))
      else
        s.(loop := Looking(e, rest))
    case CloseTimer =>
      s.(tables := tb.(interest := tb.interest - {s.loop.fd}), timerFds := s.timerFds - {s.loop.fd},
        loop := Closed(s.loop.timer, s.loop.rest))
    case ScheduleTimer => Scheduling(s, Some(s.loop.timer), Dispatching(s.loop.rest))
    case TakeWaiters =>
      var e := s.loop.event;
      if e.fd in tb.waiters then
        var rd := if WakesReader(e.bits) then tb.waiters[e.fd].rd else None;
        var wr := if WakesWriter(e.bits) then tb.waiters[e.fd].wr else None;
        s.(tables := Dispatched(tb, e.fd, e.bits), loop := Took(rd, wr, s.loop.rest),
          places := Moved(Moved(s.places, rd, InFlight), wr, InFlight))
      else
        s.(loop := Took(None, None, s.loop.rest))
    case ScheduleReader => Scheduling(s, s.loop.rd, TookWriter(s.loop.wr, s.loop.rest))
    case ScheduleWriter => Scheduling(s, s.loop.wr, Dispatching(s.loop.rest))
  }

  ghost predicate Init(s: State) {
    s == State(Tables(map[], map[], map[]), Polling, false, {}, {}, [], [])
  }

  ghost predicate Next(s: State, s': State) {
    exists a :: Can(s, a) && s' == After(s, a)
  }

  ghost predicate Run(run: seq<State>) {
    |run| > 0 && Init(run[0]) && forall i :: 0 < i < |run| ==> Next(run[i - 1], run[i])
  }

  // ----- the invariant -----

  predicate Carries(loop: Loop, k: int) {
    match loop
    case TookTimer(_, h, _) => k == h
    case Closed(h, _) => k == h
    case Took(rd, wr, _) => rd == Some(k) || wr == Some(k)
    case TookWriter(wr, _) => wr == Some(k)
    case _ => false
  }

  // Whether the data structures really have the handle where `w` says.
  ghost predicate Found(s: State, k: int, w: Where) {
    match w
    case Reading(fd) => fd in s.tables.waiters && s.tables.waiters[fd].rd == Some(k)
    case Writing(fd) => fd in s.tables.waiters && s.tables.waiters[fd].wr == Some(k)
    case Sleeping(fd) => fd in s.tables.timers && s.tables.timers[fd] == k
    case InFlight => Carries(s.loop, k)
    case Scheduled => k in s.scheduled
    case Overwritten => 0 <= k < |s.places| && s.places[k] == Overwritten
  }

  // Every registered handle is found in one place and in no other.
  ghost predicate Placed(s: State) {
    && (forall k: int, w :: Found(s, k, w) <==> 0 <= k < |s.places| && s.places[k] == w)
    && (forall i, j :: 0 <= i < j < |s.scheduled| ==> s.scheduled[i] != s.scheduled[j])
    && (s.loop.Took? && s.loop.rd.Some? ==> s.loop.rd != s.loop.wr)
  }

  function Rest(loop: Loop): seq<Event> {
    match loop
    case Dispatching(events) => events
    case TookTimer(_, _, rest) => rest
    case Closed(_, rest) => rest
    case Looking(_, rest) => rest
    case Took(_, _, rest) => rest
    case TookWriter(_, rest) => rest
    case _ => []
  }

  // The kernel watches the descriptors with waiters and the armed timers, nothing else.
  ghost predicate Kernel(s: State) {
    && Sound(s.tables)
    && s.tables.timers.Keys <= s.timerFds && s.unarmed <= s.tables.timers.Keys && s.tables.waiters.Keys !! s.timerFds
    && s.tables.interest.Keys == s.tables.waiters.Keys + (s.timerFds - s.unarmed)
    && Watched(s, Rest(s.loop))
    && (s.loop.TookTimer? ==> s.loop.fd in s.timerFds - s.tables.timers.Keys && forall i :: 0 <= i < |s.loop.rest| ==> s.loop.rest[i].fd != s.loop.fd)
    && (s.loop.Looking? ==> forall i :: 0 <= i < |s.loop.rest| ==> s.loop.rest[i].fd != s.loop.event.fd)
  }

  // A handle not scheduled yet is scheduled once when it is.
  lemma AppendScheduled(s: State, h: int)
    requires Placed(s) && (0 <= h < |s.places| ==> s.places[h] != Scheduled)
    ensures var t := s.scheduled + [h];
      && (forall i, j :: 0 <= i < j < |t| ==> t[i] != t[j])
      && (forall k :: k in t <==> k in s.scheduled || k == h)
  {
    assert !Found(s, h, Scheduled);
  }

  lemma DispatchedKeys(tb: Tables<int>, fd: int, ev: bv32)
    requires Sound(tb) && fd in tb.waiters
    ensures var tb' := Dispatched(tb, fd, ev);
      && tb'.timers == tb.timers
      && ((tb'.waiters.Keys == tb.waiters.Keys && tb'.interest.Keys == tb.interest.Keys)
        || (tb'.waiters.Keys == tb.waiters.Keys - {fd} && tb'.interest.Keys == tb.interest.Keys - {fd}))
  {
  }

  // After the dispatch the woken handles of `fd` are gone from the table and nothing else is.
  lemma DispatchedFinds(tb: Tables<int>, fd: int, ev: bv32)
    requires Sound(tb) && fd in tb.waiters
    ensures var tb' := Dispatched(tb, fd, ev);
      && tb'.timers == tb.timers
      && (forall f, k :: f in tb'.waiters && tb'.waiters[f].rd == Some(k) <==>
        f in tb.waiters && tb.waiters[f].rd == Some(k) && !(f == fd && WakesReader(ev)))
      && (forall f, k :: f in tb'.waiters && tb'.waiters[f].wr == Some(k) <==>
        f in tb.waiters && tb.waiters[f].wr == Some(k) && !(f == fd && WakesWriter(ev)))
  {
    hide Masked, WakesReader, WakesWriter, WithoutReads, WithoutWrites;
    FiredMasked(tb.waiters[fd], ev);
    IdleMask(Fired(tb.waiters[fd], ev));
  }

  lemma KernelSound(s: State)
    requires Kernel(s)
    ensures Sound(s.tables)
  {
  }

  lemma WaitReadKernel(s: State, a: Action)
    requires Kernel(s) && Can(s, a) && a.WaitRead?
    ensures Kernel(After(s, a))
  {
    hide Masked, Fired, WithReader, WithWriter, WakesReader, WakesWriter;
    var w := EntryOf(s.tables, a.fd);
    NoWaitersMasked<int>();
    ReaderMasked(w, |s.places|);
    AddedNonzero(w, |s.places|);
    ArmedSound(s.tables, a.fd, WithReader(w, |s.places|));
  }

  lemma WaitWriteKernel(s: State, a: Action)
    requires Kernel(s) && Can(s, a) && a.WaitWrite?
    ensures Kernel(After(s, a))
  {
    hide Masked, Fired, WithReader, WithWriter, WakesReader, WakesWriter;
    var w := EntryOf(s.tables, a.fd);
    NoWaitersMasked<int>();
    WriterMasked(w, |s.places|);
    AddedNonzero(w, |s.places|);
    ArmedSound(s.tables, a.fd, WithWriter(w, |s.places|));
  }

  lemma WaitTimerKernel(s: State, a: Action)
    requires Kernel(s) && Can(s, a) && a.WaitTimer?
    ensures Kernel(After(s, a))
  {
  }

  lemma TakeTimerKernel(s: State, a: Action)
    requires Kernel(s) && Can(s, a) && a.TakeTimer?
    ensures Kernel(After(s, a))
  {
    hide Masked, Fired, WithReader, WithWriter, WakesReader, WakesWriter;
  }

  lemma CloseTimerKernel(s: State, a: Action)
    requires Kernel(s) && Can(s, a) && a.CloseTimer?
    ensures Kernel(After(s, a))
  {
    hide Masked, Fired, WithReader, WithWriter, WakesReader, WakesWriter;
  }

  lemma TakeWaitersKernel(s: State, a: Action)
    requires Kernel(s) && Can(s, a) && a.TakeWaiters?
    ensures Kernel(After(s, a))
  {
    hide Dispatched, Sound, WakesReader, WakesWriter;
    var tb, fd := s.tables, s.loop.event.fd;
    if fd in tb.waiters {
      DispatchedSound(tb, fd, s.loop.event.bits);
      DispatchedKeys(tb, fd, s.loop.event.bits);
    }
  }

  // The kernel watches one more of the reactor's own timers.
  lemma WatchKernel(s: State, a: Action)
    requires Kernel(s) && Can(s, a) && (a.ArmTimer? || a.Shutdown?)
    ensures Kernel(After(s, a))
  {
  }

  // Steps that touch neither table.
  lemma QuietKernel(s: State, a: Action)
    requires Kernel(s) && Can(s, a)
    requires a.NoTimer? || a.Poll? || a.PollFails? || a.Exit? || a.EndBatch? || a.ScheduleTimer? || a.ScheduleReader? || a.ScheduleWriter?
    ensures Kernel(After(s, a))
  {
    hide Sound;
  }

  lemma WaitReadPlaced(s: State, a: Action)
    requires Kernel(s) && Placed(s) && Can(s, a) && a.WaitRead?
    ensures Placed(After(s, a))
  {
    hide Masked, WakesReader, WakesWriter;
    var s' := After(s, a);
    var was := EntryOf(s.tables, a.fd).rd;
    assert was.Some? ==> Found(s, was.value, Reading(a.fd));
    forall k: int, w ensures Found(s', k, w) <==> 0 <= k < |s'.places| && s'.places[k] == w {
      assert Found(s, k, w) <==> 0 <= k < |s.places| && s.places[k] == w;
    }
  }

  lemma WaitWritePlaced(s: State, a: Action)
    requires Kernel(s) && Placed(s) && Can(s, a) && a.WaitWrite?
    ensures Placed(After(s, a))
  {
    hide Masked, WakesReader, WakesWriter;
    var s' := After(s, a);
    var was := EntryOf(s.tables, a.fd).wr;
    assert was.Some? ==> Found(s, was.value, Writing(a.fd));
    forall k: int, w ensures Found(s', k, w) <==> 0 <= k < |s'.places| && s'.places[k] == w {
      assert Found(s, k, w) <==> 0 <= k < |s.places| && s.places[k] == w;
    }
  }

  lemma WaitTimerPlaced(s: State, a: Action)
    requires Kernel(s) && Placed(s) && Can(s, a) && a.WaitTimer?
    ensures Placed(After(s, a))
  {
    hide Masked, WakesReader, WakesWriter;
    var s' := After(s, a);
    forall k: int, w ensures Found(s', k, w) <==> 0 <= k < |s'.places| && s'.places[k] == w {
      assert Found(s, k, w) <==> 0 <= k < |s.places| && s.places[k] == w;
    }
  }

  lemma NoTimerPlaced(s: State, a: Action)
    requires Kernel(s) && Placed(s) && Can(s, a) && a.NoTimer?
    ensures Placed(After(s, a))
  {
    AppendScheduled(s, |s.places|);
    var s' := After(s, a);
    forall k: int, w ensures Found(s', k, w) <==> 0 <= k < |s'.places| && s'.places[k] == w {
      assert Found(s, k, w) <==> 0 <= k < |s.places| && s.places[k] == w;
    }
  }

  lemma TakeTimerPlaced(s: State, a: Action)
    requires Kernel(s) && Placed(s) && Can(s, a) && a.TakeTimer?
    ensures Placed(After(s, a))
  {
    hide Masked, WakesReader, WakesWriter;
    var s' := After(s, a);
    var e := s.loop.events[0];
    if e.fd in s.tables.timers { assert Found(s, s.tables.timers[e.fd], Sleeping(e.fd)); }
    forall k: int, w ensures Found(s', k, w) <==> 0 <= k < |s'.places| && s'.places[k] == w {
      assert Found(s, k, w) <==> 0 <= k < |s.places| && s.places[k] == w;
    }
  }

  lemma ScheduleTimerPlaced(s: State, a: Action)
    requires Kernel(s) && Placed(s) && Can(s, a) && a.ScheduleTimer?
    ensures Placed(After(s, a))
  {
    var s', h := After(s, a), Some(s.loop.timer);
    if h.Some? {
      assert Found(s, h.value, InFlight);
      AppendScheduled(s, h.value);
    }
    forall k: int, w ensures Found(s', k, w) <==> 0 <= k < |s'.places| && s'.places[k] == w {
      assert Found(s, k, w) <==> 0 <= k < |s.places| && s.places[k] == w;
    }
  }

  lemma TakeWaitersPlaced(s: State, a: Action)
    requires Kernel(s) && Placed(s) && Can(s, a) && a.TakeWaiters?
    ensures Placed(After(s, a))
  {
    hide Kernel, Sound, Placed, After, Found;
    if s.loop.event.fd in s.tables.waiters {
      TakeSomePlaced(s, a);
    } else {
      TakeNonePlaced(s, a);
    }
  }

  lemma TakeSomePlaced(s: State, a: Action)
    requires Kernel(s) && Placed(s) && Can(s, a) && a.TakeWaiters? && s.loop.event.fd in s.tables.waiters
    ensures Placed(After(s, a))
  {
    hide Dispatched, Sound, Masked, WakesReader, WakesWriter, Kernel;
    KernelSound(s);
    var s', tb, e := After(s, a), s.tables, s.loop.event;
    DispatchedFinds(tb, e.fd, e.bits);
    var w := tb.waiters[e.fd];
    assert w.rd.Some? ==> Found(s, w.rd.value, Reading(e.fd));
    assert w.wr.Some? ==> Found(s, w.wr.value, Writing(e.fd));
    forall k: int, w ensures Found(s', k, w) <==> 0 <= k < |s'.places| && s'.places[k] == w {
      assert Found(s, k, w) <==> 0 <= k < |s.places| && s.places[k] == w;
    }
  }

  lemma TakeNonePlaced(s: State, a: Action)
    requires Placed(s) && Can(s, a) && a.TakeWaiters? && s.loop.event.fd !in s.tables.waiters
    ensures Placed(After(s, a))
  {
    var s' := After(s, a);
    forall k: int, w ensures Found(s', k, w) <==> 0 <= k < |s'.places| && s'.places[k] == w {
      assert Found(s, k, w) <==> 0 <= k < |s.places| && s.places[k] == w;
    }
  }

  lemma ScheduleReaderPlaced(s: State, a: Action)
    requires Kernel(s) && Placed(s) && Can(s, a) && a.ScheduleReader?
    ensures Placed(After(s, a))
  {
    var s', h := After(s, a), s.loop.rd;
    if h.Some? {
      assert Found(s, h.value, InFlight);
      AppendScheduled(s, h.value);
    }
    forall k: int, w ensures Found(s', k, w) <==> 0 <= k < |s'.places| && s'.places[k] == w {
      assert Found(s, k, w) <==> 0 <= k < |s.places| && s.places[k] == w;
    }
  }

  lemma ScheduleWriterPlaced(s: State, a: Action)
    requires Kernel(s) && Placed(s) && Can(s, a) && a.ScheduleWriter?
    ensures Placed(After(s, a))
  {
    var s', h := After(s, a), s.loop.wr;
    if h.Some? {
      assert Found(s, h.value, InFlight);
      AppendScheduled(s, h.value);
    }
    forall k: int, w ensures Found(s', k, w) <==> 0 <= k < |s'.places| && s'.places[k] == w {
      assert Found(s, k, w) <==> 0 <= k < |s.places| && s.places[k] == w;
    }
  }

  // Steps that move no handle.
  lemma QuietPlaced(s: State, a: Action)
    requires Kernel(s) && Placed(s) && Can(s, a)
    requires a.ArmTimer? || a.Shutdown? || a.Poll? || a.PollFails? || a.Exit? || a.EndBatch? || a.CloseTimer?
    ensures Placed(After(s, a))
  {
    hide Sound;
    var s' := After(s, a);
    forall k: int, w ensures Found(s', k, w) <==> 0 <= k < |s'.places| && s'.places[k] == w {
      assert Found(s, k, w) <==> 0 <= k < |s.places| && s.places[k] == w;
    }
  }

  lemma StepInv(s: State, a: Action)
    requires Kernel(s) && Placed(s) && Can(s, a)
    ensures Kernel(After(s, a)) && Placed(After(s, a))
  {
    hide Kernel, Placed, After, Can;
    match a
    case WaitRead(_) =>
      WaitReadKernel(s, a);
      WaitReadPlaced(s, a);
    case WaitWrite(_) =>
      WaitWriteKernel(s, a);
      WaitWritePlaced(s, a);
    case WaitTimer(_) =>
      WaitTimerKernel(s, a);
      WaitTimerPlaced(s, a);
    case ArmTimer(_) =>
      WatchKernel(s, a);
      QuietPlaced(s, a);
    case NoTimer =>
      QuietKernel(s, a);
      NoTimerPlaced(s, a);
    case Shutdown(_) =>
      WatchKernel(s, a);
      QuietPlaced(s, a);
    case Poll(_) =>
      QuietKernel(s, a);
      QuietPlaced(s, a);
    case PollFails =>
      QuietKernel(s, a);
      QuietPlaced(s, a);
    case Exit =>
      QuietKernel(s, a);
      QuietPlaced(s, a);
    case EndBatch =>
      QuietKernel(s, a);
      QuietPlaced(s, a);
    case TakeTimer =>
      TakeTimerKernel(s, a);
      TakeTimerPlaced(s, a);
    case CloseTimer =>
      CloseTimerKernel(s, a);
      QuietPlaced(s, a);
    case ScheduleTimer =>
      QuietKernel(s, a);
      ScheduleTimerPlaced(s, a);
    case TakeWaiters =>
      TakeWaitersKernel(s, a);
      TakeWaitersPlaced(s, a);
    case ScheduleReader =>
      QuietKernel(s, a);
      ScheduleReaderPlaced(s, a);
    case ScheduleWriter =>
      QuietKernel(s, a);
      ScheduleWriterPlaced(s, a);
  }

  lemma {:induction false} RunInv(run: seq<State>, i: nat)
    requires Run(run) && i < |run|
    ensures Kernel(run[i]) && Placed(run[i])
  {
    hide Kernel, Placed, After, Can;
    if i == 0 {
      InitInv(run[0]);
    } else {
      RunInv(run, i - 1);
      assert Next(run[i - 1], run[i]);
      var a :| Can(run[i - 1], a) && run[i] == After(run[i - 1], a);
      StepInv(run[i - 1], a);
    }
  }

  lemma InitInv(s: State)
    requires Init(s)
    ensures Kernel(s) && Placed(s)
  {
  }

  // ----- every run -----

  // The mask of a descriptor names exactly its waiters, and the kernel watches for that mask.
  lemma MaskMeansWaiting(run: seq<State>, i: nat, fd: int)
    requires Run(run) && i < |run| && fd in run[i].tables.waiters
    ensures var w := run[i].tables.waiters[fd];
      && (w.mask & EPOLLIN != 0 <==> w.rd.Some?) && (w.mask & EPOLLRDHUP != 0 <==> w.rd.Some?)
      && (w.mask & EPOLLOUT != 0 <==> w.wr.Some?)
      && (w.rd.Some? || w.wr.Some?) && fd in run[i].tables.interest && run[i].tables.interest[fd] == w.mask
  {
    RunInv(run, i);
    IdleMask(run[i].tables.waiters[fd]);
  }

  // No descriptor without a waiter stays watched, apart from the reactor's own timers.
  lemma WatchesNothingElse(run: seq<State>, i: nat, fd: int)
    requires Run(run) && i < |run|
    ensures fd in run[i].tables.interest <==> fd in run[i].tables.waiters || fd in run[i].timerFds - run[i].unarmed
  {
    RunInv(run, i);
  }

  // Every handle registered so far is in one place: still waiting where it was registered,
  // in the event loop's hands, scheduled once, or replaced by a later registration.
  lemma EachHandleOnce(run: seq<State>, i: nat, k: int)
    requires Run(run) && i < |run| && 0 <= k < |run[i].places|
    ensures forall w :: Found(run[i], k, w) <==> w == run[i].places[k]
    ensures forall m, n :: 0 <= m < n < |run[i].scheduled| ==> run[i].scheduled[m] != run[i].scheduled[n]
  {
    RunInv(run, i);
  }

  // A registration for a direction that has a waiter already.
  predicate Doubles(s: State, a: Action) {
    || (a.WaitRead? && EntryOf(s.tables, a.fd).rd.Some?)
    || (a.WaitWrite? && EntryOf(s.tables, a.fd).wr.Some?)
  }

  ghost predicate Lost(s: State) {
    Overwritten in s.places
  }

  // A step loses a handle exactly when it is such a registration.
  lemma LosesExactly(s: State, a: Action)
    requires Kernel(s) && Placed(s) && Can(s, a) && !Lost(s)
    ensures Lost(After(s, a)) <==> Doubles(s, a)
  {
    var s' := After(s, a);
    hide Kernel, Sound, Armed, Dispatched;
    if a.WaitRead? && Doubles(s, a) {
      var h := EntryOf(s.tables, a.fd).rd.value;
      assert Found(s, h, Reading(a.fd));
      assert s'.places[h] == Overwritten;
    } else if a.WaitWrite? && Doubles(s, a) {
      var h := EntryOf(s.tables, a.fd).wr.value;
      assert Found(s, h, Writing(a.fd));
      assert s'.places[h] == Overwritten;
    }
  }

  // A step that is no such registration.
  ghost predicate SingleStep(s: State, s': State) {
    exists a :: Can(s, a) && s' == After(s, a) && !Doubles(s, a)
  }

  // With at most one waiter per direction no handle is ever lost: each one waits where it
  // was registered, is about to be scheduled, or was scheduled once.
  lemma {:induction false} NothingLost(run: seq<State>, i: nat)
    requires Run(run) && i < |run| && forall j :: 0 < j < |run| ==> SingleStep(run[j - 1], run[j])
    ensures !Lost(run[i])
  {
    hide Kernel, Placed, After, Can, Doubles;
    if i > 0 {
      NothingLost(run, i - 1);
      RunInv(run, i - 1);
      assert SingleStep(run[i - 1], run[i]);
      var a :| Can(run[i - 1], a) && run[i] == After(run[i - 1], a) && !Doubles(run[i - 1], a);
      LosesExactly(run[i - 1], a);
    }
  }

  // ----- whole runs that lose a handle -----

  // A step that is such a registration.
  ghost predicate DoubledStep(s: State, s': State) {
    exists a :: Can(s, a) && s' == After(s, a) && Doubles(s, a)
  }

  // A handle that is lost stays lost.
  lemma LostStays(s: State, a: Action)
    requires Kernel(s) && Placed(s) && Can(s, a) && Lost(s)
    ensures Lost(After(s, a))
  {
    hide Kernel, Sound, Armed, Dispatched;
    var k :| 0 <= k < |s.places| && s.places[k] == Overwritten;
    StaysOverwritten(s, a, k);
  }

  lemma StaysOverwritten(s: State, a: Action, k: nat)
    requires Placed(s) && Can(s, a) && k < |s.places| && s.places[k] == Overwritten
    ensures k < |After(s, a).places| && After(s, a).places[k] == Overwritten
  {
    hide Sound, Armed, Dispatched;
    assert Found(s, k, Overwritten);
    forall w | Found(s, k, w) ensures w == Overwritten {
    }
    match a
    case WaitRead(fd) => assert !Found(s, k, Reading(fd));
    case WaitWrite(fd) => assert !Found(s, k, Writing(fd));
    case TakeTimer => assert !Found(s, k, Sleeping(s.loop.events[0].fd));
    case TakeWaiters => assert !Found(s, k, Reading(s.loop.event.fd)) && !Found(s, k, Writing(s.loop.event.fd));
    case ScheduleTimer => assert !Found(s, k, InFlight);
    case ScheduleReader => assert !Found(s, k, InFlight);
    case ScheduleWriter => assert !Found(s, k, InFlight);
    case _ =>
  }

  // A run has lost a handle exactly if one of its steps was such a registration.
  lemma {:induction false} RunLosesExactly(run: seq<State>, i: nat)
    requires Run(run) && i < |run|
    ensures Lost(run[i]) <==> exists j :: 0 < j <= i && DoubledStep(run[j - 1], run[j])
  {
    hide Kernel, Placed, After, Can, Doubles;
    if i > 0 {
      RunLosesExactly(run, i - 1);
      RunInv(run, i - 1);
      assert Next(run[i - 1], run[i]);
      StepLosesExactly(run[i - 1], run[i]);
    }
  }

  lemma StepLosesExactly(s: State, s': State)
    requires Kernel(s) && Placed(s) && Next(s, s')
    ensures Lost(s') <==> Lost(s) || DoubledStep(s, s')
  {
    hide Kernel, Placed, After, Can, Doubles;
    forall a | Can(s, a) && s' == After(s, a) ensures Lost(s') <==> Lost(s) || Doubles(s, a) {
      if Lost(s) {
        LostStays(s, a);
      } else {
        LosesExactly(s, a);
      }
    }
  }

  // Two readers registered for one descriptor: the first handle is lost.
  lemma TwoReaders() returns (run: seq<State>)
    ensures Run(run) && |run| == 3 && Lost(run[2])
  {
    var s0 := State(Tables(map[], map[], map[]), Polling, false, {}, {}, [], []);
    var s1 := After(s0, WaitRead(5));
    var s2 := After(s1, WaitRead(5));
    run := [s0, s1, s2];
    assert Next(s0, s1) by {
      assert Can(s0, WaitRead(5));
    }
    assert Next(s1, s2) by {
      assert Can(s1, WaitRead(5));
    }
    assert s2.places[0] == Overwritten;
  }
}
