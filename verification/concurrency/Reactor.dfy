// The epoll reactor: a table of waiting coroutine handles per descriptor, an interest mask
// for each, and the kernel's copy of that mask.
module Reactor {
  import opened Options

  const EPOLLIN: bv32 := 0x001
  const EPOLLOUT: bv32 := 0x004
  const EPOLLERR: bv32 := 0x008
  const EPOLLHUP: bv32 := 0x010
  const EPOLLRDHUP: bv32 := 0x2000

  const READS: bv32 := EPOLLIN | EPOLLRDHUP | EPOLLHUP | EPOLLERR
  const WRITES: bv32 := EPOLLOUT | EPOLLHUP | EPOLLERR

  datatype Waiters<H> = Waiters(rd: Option<H>, wr: Option<H>, mask: bv32)

  function NoWaiters<H>(): Waiters<H> {
    Waiters(None, None, 0)
  }

  // The mask names exactly the directions that have a waiter.
  predicate Masked<H>(w: Waiters<H>) {
    && (w.mask & EPOLLIN != 0 <==> w.rd.Some?)
    && (w.mask & EPOLLRDHUP != 0 <==> w.rd.Some?)
    && (w.mask & EPOLLOUT != 0 <==> w.wr.Some?)
    && (w.mask & (EPOLLHUP | EPOLLERR) != 0 ==> w.rd.Some? || w.wr.Some?)
    && w.mask & !(READS | WRITES) == 0
  }

  function WithReader<H>(w: Waiters<H>, h: H): Waiters<H> {
    w.(rd := Some(h), mask := w.mask | READS)
  }

  function WithWriter<H>(w: Waiters<H>, h: H): Waiters<H> {
    w.(wr := Some(h), mask := w.mask | WRITES)
  }

  predicate WakesReader(ev: bv32) {
    ev & READS != 0
  }

  predicate WakesWriter(ev: bv32) {
    ev & WRITES != 0
  }

  function WithoutReads(mask: bv32): bv32 {
    mask & !READS
  }

  function WithoutWrites(mask: bv32): bv32 {
    mask & !WRITES
  }

  // Which bits of an event wake whom.
  lemma WakesInBits(ev: bv32)
    ensures WakesReader(ev) <==> ev & EPOLLIN != 0 || ev & EPOLLRDHUP != 0 || ev & EPOLLHUP != 0 || ev & EPOLLERR != 0
    ensures WakesWriter(ev) <==> ev & EPOLLOUT != 0 || ev & EPOLLHUP != 0 || ev & EPOLLERR != 0
  {
  }

  // What is left of an entry after the event `ev`.
  function Fired<H>(w: Waiters<H>, ev: bv32): Waiters<H> {
    var w1 := if WakesReader(ev) then w.(rd := None, mask := WithoutReads(w.mask)) else w;
    if WakesWriter(ev) then w1.(wr := None, mask := WithoutWrites(w1.mask)) else w1
  }

  lemma NoWaitersMasked<H>()
    ensures Masked(NoWaiters<H>())
  {
  }

  lemma ReaderMasked<H>(w: Waiters<H>, h: H)
    requires Masked(w)
    ensures Masked(WithReader(w, h))
  {
  }

  lemma WriterMasked<H>(w: Waiters<H>, h: H)
    requires Masked(w)
    ensures Masked(WithWriter(w, h))
  {
  }

  // Every event, even a stale one, keeps the mask in step with the waiters.
  lemma FiredMasked<H>(w: Waiters<H>, ev: bv32)
    requires Masked(w)
    ensures Masked(Fired(w, ev))
  {
  }

  lemma FiredWaiters<H>(w: Waiters<H>, ev: bv32)
    ensures Fired(w, ev).rd == if WakesReader(ev) then None else w.rd
    ensures Fired(w, ev).wr == if WakesWriter(ev) then None else w.wr
  {
  }

  // So the mask is empty exactly when nobody waits.
  lemma IdleMask<H>(w: Waiters<H>)
    requires Masked(w)
    ensures w.mask == 0 <==> w.rd == None && w.wr == None
  {
  }

  // ----- the tables -----

  // `timers` maps a timer's descriptor to its handle; `interest` is the kernel's side.
  datatype Tables<H> = Tables(waiters: map<int, Waiters<H>>, timers: map<int, H>, interest: map<int, bv32>)

  // Every entry has a waiter, its mask says which, and the kernel watches for exactly that.
  ghost predicate Sound<H>(tb: Tables<H>) {
    && (forall fd :: fd in tb.waiters ==>
        && Masked(tb.waiters[fd]) && tb.waiters[fd].mask != 0
        && fd in tb.interest && tb.interest[fd] == tb.waiters[fd].mask)
    && tb.waiters.Keys !! tb.timers.Keys
  }

  function EntryOf<H>(tb: Tables<H>, fd: int): Waiters<H> {
    if fd in tb.waiters then tb.waiters[fd] else NoWaiters()
  }

  // The table with a new entry for `fd`, the kernel told of it.
  function Armed<H>(tb: Tables<H>, fd: int, w: Waiters<H>): Tables<H> {
    tb.(waiters := tb.waiters[fd := w], interest := tb.interest[fd := w.mask])
  }

  function Disarmed<H>(tb: Tables<H>, fd: int): Tables<H> {
    tb.(waiters := tb.waiters - {fd}, interest := tb.interest - {fd})
  }

  // The table after the event `ev` on a descriptor somebody waits for.
  function Dispatched<H>(tb: Tables<H>, fd: int, ev: bv32): Tables<H>
    requires fd in tb.waiters
  {
    var w := Fired(tb.waiters[fd], ev);
    if w.mask != 0 then Armed(tb, fd, w) else Disarmed(tb, fd)
  }

  lemma ArmedSound<H>(tb: Tables<H>, fd: int, w: Waiters<H>)
    requires Sound(tb) && Masked(w) && w.mask != 0 && fd !in tb.timers
    ensures Sound(Armed(tb, fd, w))
  {
  }

  lemma DispatchedSound<H>(tb: Tables<H>, fd: int, ev: bv32)
    requires Sound(tb) && fd in tb.waiters
    ensures Sound(Dispatched(tb, fd, ev))
  {
  }

  // A descriptor has an entry exactly while somebody waits for it.
  lemma EntriesWait<H>(tb: Tables<H>, fd: int)
    requires Sound(tb)
    ensures fd in tb.waiters <==> EntryOf(tb, fd).rd.Some? || EntryOf(tb, fd).wr.Some?
  {
    if fd in tb.waiters {
      IdleMask(tb.waiters[fd]);
    }
  }

  // The bits of a mask that come with a reader, and with a writer.
  lemma ReadBits(mask: bv32)
    ensures mask | READS == mask | (EPOLLIN | EPOLLRDHUP | EPOLLHUP | EPOLLERR)
  {
  }

  lemma WriteBits(mask: bv32)
    ensures mask | WRITES == mask | (EPOLLOUT | EPOLLHUP | EPOLLERR)
  {
  }

  lemma AddedNonzero<H>(w: Waiters<H>, h: H)
    ensures WithReader(w, h).mask != 0 && WithWriter(w, h).mask != 0
  {
  }

  // The reactor's own fields. `interest` stands for the epoll set.
  class EpollReactor<H> {
    var waiters: map<int, Waiters<H>>
    var timers: map<int, H>
    var interest: map<int, bv32>

    constructor ()
      ensures Table() == Tables(map[], map[], map[]) && Valid()
    {
      waiters, timers, interest := map[], map[], map[];
    }

    ghost function Table(): Tables<H>
      reads this
    {
      Tables(waiters, timers, interest)
    }

    ghost predicate Valid()
      reads this
    {
      Sound(Table())
    }

    // Modifies the descriptor's entry in the epoll set, or adds one: the same map update.
    method ArmFd(fd: int, ev: bv32)
      modifies `interest
      ensures interest == old(interest)[fd := ev]
    {
      interest := interest[fd := ev];
    }

    method DisarmFdIfIdle(fd: int)
      modifies `interest, `waiters
      ensures fd in old(waiters) && old(waiters)[fd].rd == None && old(waiters)[fd].wr == None ==>
        Table() == Disarmed(old(Table()), fd)
      ensures fd !in old(waiters) || old(waiters)[fd].rd.Some? || old(waiters)[fd].wr.Some? ==>
        Table() == old(Table())
    {
      if fd !in waiters {
        return;
      }
      if waiters[fd].rd == None && waiters[fd].wr == None {
        interest := interest - {fd};
        waiters := waiters - {fd};
      }
    }

    method WaitRead(fd: int, h: H)
      requires Valid() && fd !in timers
      modifies this
      ensures Valid() && Table() == Armed(old(Table()), fd, WithReader(EntryOf(old(Table()), fd), h))
      ensures fd in waiters && waiters[fd].rd == Some(h) && waiters[fd].wr == EntryOf(old(Table()), fd).wr
      ensures waiters[fd].mask == EntryOf(old(Table()), fd).mask | (EPOLLIN | EPOLLRDHUP | EPOLLHUP | EPOLLERR)
      ensures fd in interest && interest[fd] == waiters[fd].mask
    {
      hide Masked;
      NoWaitersMasked<H>();
      ghost var w := EntryOf(Table(), fd);
      ReaderMasked(w, h);
      AddedNonzero(w, h);
      ReadBits(w.mask);
      ArmedSound(Table(), fd, WithReader(w, h));
      if fd !in waiters {
        waiters := waiters[fd := NoWaiters()];
      }
      waiters := waiters[fd := waiters[fd].(rd := Some(h), mask := waiters[fd].mask | READS)];
      ArmFd(fd, waiters[fd].mask);
      assert Table() == Armed(old(Table()), fd, WithReader(w, h));
    }

    method WaitWrite(fd: int, h: H)
      requires Valid() && fd !in timers
      modifies this
      ensures Valid() && Table() == Armed(old(Table()), fd, WithWriter(EntryOf(old(Table()), fd), h))
      ensures fd in waiters && waiters[fd].wr == Some(h) && waiters[fd].rd == EntryOf(old(Table()), fd).rd
      ensures waiters[fd].mask == EntryOf(old(Table()), fd).mask | (EPOLLOUT | EPOLLHUP | EPOLLERR)
      ensures fd in interest && interest[fd] == waiters[fd].mask
    {
      hide Masked;
      NoWaitersMasked<H>();
      ghost var w := EntryOf(Table(), fd);
      WriterMasked(w, h);
      AddedNonzero(w, h);
      WriteBits(w.mask);
      ArmedSound(Table(), fd, WithWriter(w, h));
      if fd !in waiters {
        waiters := waiters[fd := NoWaiters()];
      }
      waiters := waiters[fd := waiters[fd].(wr := Some(h), mask := waiters[fd].mask | WRITES)];
      ArmFd(fd, waiters[fd].mask);
      assert Table() == Armed(old(Table()), fd, WithWriter(w, h));
    }

    // The first critical section of the dispatch: is it a timer?
    method TakeTimer(fd: int) returns (h: Option<H>)
      requires Valid()
      modifies `timers
      ensures Valid() && timers == old(timers) - {fd}
      ensures h == if fd in old(timers) then Some(old(timers)[fd]) else None
    {
      h := None;
      if fd in timers {
        h := Some(timers[fd]);
        timers := timers - {fd};
      }
    }

    // The second one: the waiters of an ordinary descriptor. The call of DisarmFdIfIdle
    // always erases the entry.
    method TakeWaiters(fd: int, ev: bv32) returns (rd: Option<H>, wr: Option<H>)
      requires Valid()
      modifies this
      ensures Valid() && timers == old(timers)
      ensures Table() == if fd in old(waiters) then Dispatched(old(Table()), fd, ev) else old(Table())
      ensures rd ==
        if fd in old(waiters) && (ev & EPOLLIN != 0 || ev & EPOLLRDHUP != 0 || ev & EPOLLHUP != 0 || ev & EPOLLERR != 0)
        then old(waiters)[fd].rd else None
      ensures wr ==
        if fd in old(waiters) && (ev & EPOLLOUT != 0 || ev & EPOLLHUP != 0 || ev & EPOLLERR != 0)
        then old(waiters)[fd].wr else None
      ensures EntryOf(Table(), fd).rd == if rd.Some? then None else EntryOf(old(Table()), fd).rd
      ensures EntryOf(Table(), fd).wr == if wr.Some? then None else EntryOf(old(Table()), fd).wr
      ensures fd in waiters <==> EntryOf(Table(), fd).rd.Some? || EntryOf(Table(), fd).wr.Some?
      ensures forall f :: f != fd ==> EntryOf(Table(), f) == EntryOf(old(Table()), f)
    {
      hide Masked, Fired, READS, WRITES, WakesReader, WakesWriter;
      rd, wr := None, None;
      WakesInBits(ev);
      if fd in waiters {
        ghost var w := waiters[fd];
        DispatchedSound(Table(), fd, ev);
        FiredMasked(w, ev);
        IdleMask(Fired(w, ev));
        FiredWaiters(w, ev);
        var left;
        left, rd, wr := Fire(waiters[fd], ev);
        waiters := waiters[fd := left];
        if waiters[fd].mask != 0 {
          ArmFd(fd, waiters[fd].mask);
        } else {
          DisarmFdIfIdle(fd);
        }
        assert Table() == Dispatched(old(Table()), fd, ev);
      }
      EntriesWait(Table(), fd);
    }

    // Takes out the handles the event wakes and clears their bits of the mask.
    static method Fire(entry: Waiters<H>, ev: bv32) returns (w: Waiters<H>, rd: Option<H>, wr: Option<H>)
      ensures w == Fired(entry, ev)
      ensures rd == (if WakesReader(ev) then entry.rd else None)
      ensures wr == (if WakesWriter(ev) then entry.wr else None)
    {
      hide WakesReader, WakesWriter, WithoutReads, WithoutWrites;
      w, rd, wr := entry, None, None;
      if WakesReader(ev) {
        rd := w.rd;
        w := w.(rd := None, mask := WithoutReads(w.mask));
      }
      if WakesWriter(ev) {
        wr := w.wr;
        w := w.(wr := None, mask := WithoutWrites(w.mask));
      }
    }
  }
}
