/** src/kernel/fs/pipe.c: one reader and one writer over a shared queue. A system call runs
with interrupts off, so it is atomic from one blocking point to the next. */
module Pipe {
  import Fifo
  import Order

  /** A task with respect to its pipe call: not in it, blocked in it, or unblocked. */
  datatype Side = Away | Blocked | Ready

  /** The queue; how many bytes the reader still wants and which bytes the writer still has;
      and, over the whole run, the bytes asked for, delivered and offered. */
  datatype State = State(
    cap: nat, queue: seq<bv8>,
    reader: Side, want: nat, writer: Side, pending: seq<bv8>,
    asked: nat, got: seq<bv8>, offered: seq<bv8>)

  datatype Event = StartRead(size: nat) | ResumeRead | StartWrite(data: seq<bv8>) | ResumeWrite

  function Woken(x: Side): Side
  {
    if x == Away then Away else Ready
  }

  /** One round of the loop of pipe_read: take what there is, wake the writer, and block if
      that was not enough. */
  function ReadRound(s: State): State
  {
    var k := Order.Min(s.want, |s.queue|);
    s.(queue := s.queue[k..], got := s.got + s.queue[..k], want := s.want - k,
       writer := Woken(s.writer), reader := if s.want == k then Away else Blocked)
  }

  function Room(s: State): nat
  {
    if |s.queue| <= s.cap then s.cap - |s.queue| else 0
  }

  /** One round of the loop of pipe_write. */
  function WriteRound(s: State): State
  {
    var k := Order.Min(|s.pending|, Room(s));
    s.(queue := s.queue + s.pending[..k], pending := s.pending[k..],
       reader := Woken(s.reader), writer := if |s.pending| == k then Away else Blocked)
  }

  ghost predicate Enabled(s: State, e: Event)
  {
    match e
    case StartRead(_) => s.reader == Away
    case ResumeRead => s.reader == Ready
    case StartWrite(_) => s.writer == Away
    case ResumeWrite => s.writer == Ready
  }

  function Step(s: State, e: Event): State
  {
    match e
    case StartRead(size) => ReadRound(s.(want := size, asked := s.asked + size))
    case ResumeRead => ReadRound(s)
    case StartWrite(data) => WriteRound(s.(pending := data, offered := s.offered + data))
    case ResumeWrite => WriteRound(s)
  }

  function Init(cap: nat): State
  {
    State(cap, [], Away, 0, Away, [], 0, [], [])
  }

  // ---------- every interleaving ----------

  ghost predicate Inv(s: State)
  {
    && s.cap > 0 && |s.queue| <= s.cap
    && s.got + s.queue + s.pending == s.offered && |s.got| + s.want == s.asked
    && (s.reader == Away <==> s.want == 0) && (s.writer == Away <==> s.pending == [])
    && (s.reader == Blocked ==> s.queue == [])
    && (s.writer == Blocked ==> |s.queue| == s.cap)
  }

  lemma ReadKeeps(s: State)
    requires s.cap > 0 && |s.queue| <= s.cap
    requires s.got + s.queue + s.pending == s.offered && |s.got| + s.want == s.asked
    requires s.writer == Away <==> s.pending == []
    ensures Inv(ReadRound(s))
  {
    var k := Order.Min(s.want, |s.queue|);
    assert s.queue == s.queue[..k] + s.queue[k..];
  }

  lemma WriteKeeps(s: State)
    requires s.cap > 0 && |s.queue| <= s.cap
    requires s.got + s.queue + s.pending == s.offered && |s.got| + s.want == s.asked
    requires s.reader == Away <==> s.want == 0
    ensures Inv(WriteRound(s))
  {
    var k := Order.Min(|s.pending|, Room(s));
    assert s.pending == s.pending[..k] + s.pending[k..];
  }

  lemma StepKeeps(s: State, e: Event)
    requires Inv(s) && Enabled(s, e)
    ensures Inv(Step(s, e))
  {
    match e
    case StartRead(size) => ReadKeeps(s.(want := size, asked := s.asked + size));
    case ResumeRead => ReadKeeps(s);
    case StartWrite(data) =>
      assert s.got + s.queue + s.pending == s.got + s.queue;
      WriteKeeps(s.(pending := data, offered := s.offered + data));
    case ResumeWrite => WriteKeeps(s);
  }

  ghost predicate Run(states: seq<State>, events: seq<Event>, cap: nat)
  {
    && |states| == |events| + 1 && states[0] == Init(cap)
    && forall i | 0 <= i < |events| ::
         && Enabled(states[i], events[i])
         && states[i + 1] == Step(states[i], events[i])
  }

  lemma {:induction false} RunInv(states: seq<State>, events: seq<Event>, cap: nat, i: nat)
    requires cap > 0 && Run(states, events, cap) && i < |states|
    ensures Inv(states[i]) && states[i].cap == cap
    decreases i
  {
    if i == 0 {
    } else {
      RunInv(states, events, cap, i - 1);
      StepKeeps(states[i - 1], events[i - 1]);
    }
  }

  /** At every point of every interleaving: what was delivered is a prefix of what was
      offered, with the rest queued or still in the writer's hands; a call that has returned
      moved all its bytes; and the two sides are never blocked at the same time. */
  lemma Safety(states: seq<State>, events: seq<Event>, cap: nat, i: nat)
    requires cap > 0 && Run(states, events, cap) && i < |states|
    ensures var s := states[i];
      && s.got <= s.offered && s.offered[|s.got|..] == s.queue + s.pending && |s.queue| <= cap
      && (s.reader == Away <==> |s.got| == s.asked)
      && (s.writer == Away <==> |s.got| + |s.queue| == |s.offered|)
      && (s.reader == Blocked ==> s.queue == []) && (s.writer == Blocked ==> |s.queue| == cap)
      && !(s.reader == Blocked && s.writer == Blocked)
  {
    RunInv(states, events, cap, i);
    var s := states[i];
    assert s.offered == s.got + (s.queue + s.pending);
  }

  // ---------- the code ----------

  const NONE := -1
  datatype Stat = RUN | PRE | BLK

  /** pipe_t, and the two tasks that use it. */
  class Channel {
    const fifo: Fifo.Fifo
    const readerPid: int
    const writerPid: int
    var rdWaiter: int
    var wrWaiter: int
    var holder: int             // lock.holder
    var stat: map<int, Stat>    // table[pid]->stat of the two tasks
    var size: nat               // pipe_read's siz, while it is in the call
    var data: seq<bv8>          // the bytes at pipe_write's buf, while it is in the call
    ghost var asked: nat
    ghost var got: seq<bv8>
    ghost var offered: seq<bv8>

    ghost predicate Wired()
      reads this, fifo, fifo.buf
    {
      && fifo.Valid() && readerPid >= 0 && writerPid >= 0 && readerPid != writerPid
      && readerPid in stat && writerPid in stat
    }

    /** Between segments: nobody holds the lock, and each waiter field says who is in a call. */
    ghost predicate Valid()
      reads this, fifo, fifo.buf
    {
      && Wired() && holder == NONE
      && (rdWaiter == NONE || rdWaiter == readerPid) && (wrWaiter == NONE || wrWaiter == writerPid)
    }

    static ghost function SideOf(waiter: int, st: Stat): Side
    {
      if waiter == NONE then Away else if st == BLK then Blocked else Ready
    }

    ghost function Model(): State
      requires Wired()
      reads this, fifo, fifo.buf
    {
      State(fifo.siz, fifo.contents, SideOf(rdWaiter, stat[readerPid]), size,
            SideOf(wrWaiter, stat[writerPid]), data, asked, got, offered)
    }

    /** pipe_init */
    constructor (cap: nat, readerPid: int, writerPid: int)
      requires 0 < cap < Fifo.W && Fifo.W % cap == 0 && readerPid >= 0 && writerPid >= 0 && readerPid != writerPid
      ensures Valid() && Model() == Init(cap) && fresh(fifo) && fresh(fifo.buf)
    {
      fifo := new Fifo.Fifo(cap);
      this.readerPid, this.writerPid := readerPid, writerPid;
      rdWaiter, wrWaiter, holder := NONE, NONE, NONE;
      stat := map[readerPid := PRE, writerPid := PRE];
      size, data, asked, got, offered := 0, [], 0, [], [];
    }

    /** lock_acquire: never has to wait, because the lock is free at every switch. */
    method Acquire(pid: int)
      requires holder == NONE
      modifies this`holder
      ensures holder == pid
    {
      holder := pid;
    }

    /** lock_release, with its assertion. */
    method Release(pid: int)
      requires holder == pid
      modifies this`holder
      ensures holder == NONE
    {
      holder := NONE;
    }

    /** The loop body of pipe_read up to the next blocking point, and block_as up to the switch. */
    method ReadSegment()
      requires Wired() && holder == readerPid && rdWaiter == NONE && (wrWaiter == NONE || wrWaiter == writerPid)
      modifies this, fifo
      ensures Valid() && Model() == ReadRound(old(Model()))
    {
      var bytes := fifo.Read(size);
      size := size - |bytes|;
      got := got + bytes;
      assert bytes == old(fifo.contents)[..|bytes|] && fifo.contents == old(fifo.contents)[|bytes|..];
      if wrWaiter >= 0 {
        stat := stat[wrWaiter := PRE];
      }
      if size == 0 {
        Release(readerPid);
        return;
      }
      assert rdWaiter == NONE;
      rdWaiter := readerPid;
      Release(readerPid);
      stat := stat[readerPid := BLK];
    }

    /** pipe_read is called for n bytes. */
    method CallRead(n: nat)
      requires Valid() && Enabled(Model(), StartRead(n))
      modifies this, fifo
      ensures Valid() && Model() == Step(old(Model()), StartRead(n))
    {
      size, asked := n, asked + n;
      Acquire(readerPid);
      ReadSegment();
    }

    /** The reader runs again after task_block. */
    method WakeRead()
      requires Valid() && Enabled(Model(), ResumeRead)
      modifies this, fifo
      ensures Valid() && Model() == Step(old(Model()), ResumeRead)
    {
      Acquire(readerPid);
      rdWaiter := NONE;
      ReadSegment();
    }

    /** The loop body of pipe_write up to the next blocking point. */
    method WriteSegment()
      requires Wired() && holder == writerPid && wrWaiter == NONE && (rdWaiter == NONE || rdWaiter == readerPid)
      modifies this, fifo, fifo.buf
      ensures Valid() && Model() == WriteRound(old(Model()))
    {
      var n := fifo.Write(data);
      data := data[n..];
      if rdWaiter >= 0 {
        stat := stat[rdWaiter := PRE];
      }
      if data == [] {
        Release(writerPid);
        return;
      }
      assert wrWaiter == NONE;
      wrWaiter := writerPid;
      Release(writerPid);
      stat := stat[writerPid := BLK];
    }

    /** pipe_write is called with the bytes xs. */
    method CallWrite(xs: seq<bv8>)
      requires Valid() && Enabled(Model(), StartWrite(xs))
      modifies this, fifo, fifo.buf
      ensures Valid() && Model() == Step(old(Model()), StartWrite(xs))
    {
      data, offered := xs, offered + xs;
      Acquire(writerPid);
      WriteSegment();
    }

    /** The writer runs again after task_block. */
    method WakeWrite()
      requires Valid() && Enabled(Model(), ResumeWrite)
      modifies this, fifo, fifo.buf
      ensures Valid() && Model() == Step(old(Model()), ResumeWrite)
    {
      Acquire(writerPid);
      wrWaiter := NONE;
      WriteSegment();
    }
  }
}
