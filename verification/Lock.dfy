/** src/kernel/lock.c: the recursive lock on top of a binary semaphore, for any number of
tasks and every interleaving.

sema_up and each round of sema_down run with interrupts off, so they are single steps; a
task can be preempted between any two other statements. A task blocked in sema_down moves
again only when sema_up unblocks it.
*/
module Lock {
  /** Where a task is. */
  datatype Pc =
    | Outside      // in its own code
    | Testing      // lock_acquire: about to compare the holder
    | Down         // lock_acquire: about to enter sema_down
    | Waiting      // sema_down: queued and blocked
    | Woken        // sema_down: unblocked, about to test the value again
    | Took         // lock_acquire: about to set the holder
    | Entered      // lock_acquire: about to set the count to 1
    | Nesting      // lock_acquire: about to add 1 to the count
    | Releasing    // lock_release: about to check the holder and the count
    | Unnesting    // lock_release: about to subtract 1 from the count
    | Clearing     // lock_release: about to clear the holder
    | Resetting    // lock_release: about to set the count to 0
    | Up           // lock_release: about to enter sema_up

  const NOBODY := -1

  /** The lock, where each task is, and how many more times it has returned from
      lock_acquire than it has called lock_release. */
  datatype State = State(
    val: int, waiters: seq<int>, holder: int, hrepeat: int,
    pc: seq<Pc>, depth: seq<int>)

  datatype Call = Acquire | Release

  datatype Outcome = Running(state: State) | Panic

  ghost predicate IsTask(s: State, t: int)
  {
    |s.depth| == |s.pc| && 0 <= t < |s.pc|
  }

  /** lock_init, with n tasks that have not used the lock. */
  function Init(n: nat): State
  {
    State(1, [], NOBODY, 0, seq(n, i => Outside), seq(n, i => 0))
  }

  function Goto(s: State, t: int, pc: Pc): State
    requires 0 <= t < |s.pc|
  {
    s.(pc := s.pc[t := pc])
  }

  /** t leaves lock_acquire. */
  function Return(s: State, t: int): State
    requires IsTask(s, t)
  {
    Goto(s, t, Outside).(depth := s.depth[t := s.depth[t] + 1])
  }

  /** One round of sema_down. */
  function DownStep(s: State, t: int): Outcome
    requires IsTask(s, t)
  {
    if s.val == 0 then Running(Goto(s, t, Waiting).(waiters := [t] + s.waiters))
    else if s.val != 1 then Panic
    else Running(Goto(s, t, Took).(val := s.val - 1))
  }

  /** sema_up; task_unblock asserts that the task it wakes exists. */
  function UpStep(s: State, t: int): Outcome
    requires IsTask(s, t)
  {
    var r := Goto(s, t, Outside).(val := s.val + 1);
    if s.val != 0 || r.val != 1 then Panic
    else if s.waiters == [] then Running(r)
    else if s.waiters[0] < 0 || s.waiters[0] >= |s.pc| then Panic
    else Running(Goto(r, s.waiters[0], Woken).(waiters := s.waiters[1..]))
  }

  /** The next step of t; outside the lock it makes the given call. */
  function Step(s: State, t: int, call: Call): Outcome
    requires IsTask(s, t) && s.pc[t] != Waiting
  {
    match s.pc[t]
    case Outside =>
      if call == Acquire then Running(Goto(s, t, Testing))
      else Running(Goto(s, t, Releasing).(depth := s.depth[t := s.depth[t] - 1]))
    case Testing => Running(Goto(s, t, if s.holder != t then Down else Nesting))
    case Down => DownStep(s, t)
    case Woken => DownStep(s, t)
    case Took => Running(Goto(s, t, Entered).(holder := t))
    case Entered => Running(Return(s, t).(hrepeat := 1))
    case Nesting => Running(Return(s, t).(hrepeat := s.hrepeat + 1))
    case Releasing =>
      if s.holder != t then Panic
      else Running(Goto(s, t, if s.hrepeat > 1 then Unnesting else Clearing))
    case Unnesting => Running(Goto(s, t, Outside).(hrepeat := s.hrepeat - 1))
    case Clearing => Running(Goto(s, t, Resetting).(holder := NOBODY))
    case Resetting => Running(Goto(s, t, Up).(hrepeat := 0))
    case Up => UpStep(s, t)
  }

  // ---------- the invariant ----------

  /** t has taken the semaphore and not given it back. */
  ghost predicate Owns(s: State, t: int)
  {
    IsTask(s, t) &&
    match s.pc[t]
    case Outside => s.depth[t] > 0
    case Testing => s.depth[t] > 0
    case Down => false
    case Waiting => false
    case Woken => false
    case _ => true
  }

  /** What the fields say while t is at its place. */
  ghost predicate Fields(s: State, t: int)
    requires IsTask(s, t)
  {
    match s.pc[t]
    case Outside => s.depth[t] >= 0 && (s.depth[t] > 0 ==> s.holder == t && s.hrepeat == s.depth[t])
    case Testing => s.depth[t] >= 0 && (s.depth[t] > 0 ==> s.holder == t && s.hrepeat == s.depth[t])
    case Down => s.depth[t] == 0
    case Waiting => s.depth[t] == 0
    case Woken => s.depth[t] == 0
    case Took => s.depth[t] == 0 && s.holder == NOBODY && s.hrepeat == 0
    case Entered => s.depth[t] == 0 && s.holder == t && s.hrepeat == 0
    case Nesting => s.depth[t] > 0 && s.holder == t && s.hrepeat == s.depth[t]
    case Releasing => s.depth[t] >= 0 && s.holder == t && s.hrepeat == s.depth[t] + 1
    case Unnesting => s.depth[t] > 0 && s.holder == t && s.hrepeat == s.depth[t] + 1
    case Clearing => s.depth[t] == 0 && s.holder == t && s.hrepeat == 1
    case Resetting => s.depth[t] == 0 && s.holder == NOBODY
    case Up => s.depth[t] == 0 && s.holder == NOBODY && s.hrepeat == 0
  }

  /** The waiter list holds exactly the blocked tasks, each once. */
  ghost predicate Queued(s: State)
  {
    && |s.depth| == |s.pc|
    && (forall t | IsTask(s, t) :: s.pc[t] == Waiting <==> t in s.waiters)
    && (forall t | t in s.waiters :: IsTask(s, t))
    && (forall i, j | 0 <= i < j < |s.waiters| :: s.waiters[i] != s.waiters[j])
  }

  /** The semaphore value says whether the lock is owned. */
  ghost predicate Exclusive(s: State)
  {
    && (s.val == 0 || s.val == 1)
    && (s.val == 1 ==> s.holder == NOBODY && s.hrepeat == 0 && forall t :: !Owns(s, t))
    && (s.val == 0 ==> exists t :: Owns(s, t))
    && (s.holder != NOBODY ==> Owns(s, s.holder))
    && (forall t, u | Owns(s, t) && Owns(s, u) :: t == u)
  }

  /** No lost wakeup: if the lock is free and tasks are queued, some task is on its way. */
  ghost predicate Awake(s: State)
  {
    s.val == 1 && s.waiters != [] ==> exists w :: IsTask(s, w) && s.pc[w] == Woken
  }

  ghost predicate Inv(s: State)
  {
    Queued(s) && Exclusive(s) && Awake(s) && forall t | IsTask(s, t) :: Fields(s, t)
  }

  /** A step a task may take: a blocked task takes none, and only a task inside the lock
      calls lock_release. */
  ghost predicate Enabled(s: State, t: int, call: Call)
  {
    && IsTask(s, t) && s.pc[t] != Waiting
    && (s.pc[t] == Outside && call == Release ==> s.depth[t] > 0)
  }

  lemma InitInv(n: nat)
    ensures Inv(Init(n))
  {}

  // ---------- every step keeps it ----------

  /** Only t has moved. */
  ghost predicate OnlyMoved(s: State, r: State, t: int)
  {
    && |r.pc| == |r.depth| == |s.pc| == |s.depth|
    && forall u | IsTask(s, u) && u != t :: r.pc[u] == s.pc[u] && r.depth[u] == s.depth[u]
  }

  /** A step of t alone that leaves the semaphore and the ownership as they are. */
  lemma KeepsInv(s: State, r: State, t: int)
    requires Inv(s) && IsTask(s, t) && OnlyMoved(s, r, t) && r.val == s.val && r.waiters == s.waiters
    requires s.pc[t] != Waiting && r.pc[t] != Waiting && s.pc[t] != Woken && Fields(r, t)
    requires Owns(r, t) <==> Owns(s, t)
    requires if Owns(s, t) then r.holder == NOBODY || r.holder == t else r.holder == s.holder && r.hrepeat == s.hrepeat
    ensures Inv(r)
  {
    forall u | IsTask(r, u)
      ensures Fields(r, u)
    {
      assert Fields(s, u);
      assert u != t && Owns(s, t) ==> !Owns(s, u);
    }
    assert forall u :: Owns(r, u) <==> Owns(s, u);
    if s.val == 1 && s.waiters != [] {
      var w :| IsTask(s, w) && s.pc[w] == Woken;
      assert IsTask(r, w) && r.pc[w] == Woken;
    }
  }

  lemma LocalStep(s: State, t: int, call: Call)
    requires Inv(s) && Enabled(s, t, call)
    requires s.pc[t] !in {Down, Woken, Up}
    ensures Step(s, t, call).Running? && Inv(Step(s, t, call).state)
  {
    assert Fields(s, t);
    KeepsInv(s, Step(s, t, call).state, t);
  }

  /** sema_down queues the task if the lock is owned, and otherwise makes it the owner. */
  lemma DownKeeps(s: State, t: int)
    requires Inv(s) && IsTask(s, t) && (s.pc[t] == Down || s.pc[t] == Woken)
    ensures DownStep(s, t).Running? && Inv(DownStep(s, t).state)
  {
    var r := DownStep(s, t).state;
    assert Fields(s, t);
    forall u | IsTask(r, u)
      ensures Fields(r, u) && (u != t ==> (Owns(r, u) <==> Owns(s, u)))
    {
      assert Fields(s, u);
    }
    if s.val == 0 {
      assert r.waiters[0] == t;
      assert forall i | 0 < i < |r.waiters| :: r.waiters[i] == s.waiters[i - 1];
    } else {
      assert Owns(r, t);
    }
  }

  /** sema_up frees the lock and wakes the task that was queued last. */
  lemma UpKeeps(s: State, t: int)
    requires Inv(s) && IsTask(s, t) && s.pc[t] == Up
    ensures UpStep(s, t).Running? && Inv(UpStep(s, t).state)
  {
    assert Fields(s, t) && Owns(s, t);
    assert s.waiters != [] ==> IsTask(s, s.waiters[0]);
    var r := UpStep(s, t).state;
    if s.waiters != [] {
      var w := s.waiters[0];
      assert w in s.waiters && IsTask(r, w) && r.pc[w] == Woken && Fields(s, w);
      assert forall i | 0 <= i < |r.waiters| :: r.waiters[i] == s.waiters[i + 1];
      assert forall u | u in s.waiters && u != w :: u in r.waiters;
      forall u | u in r.waiters
        ensures IsTask(r, u)
      {
        assert u in s.waiters && IsTask(s, u);
      }
    }
    forall u | IsTask(r, u)
      ensures Fields(r, u) && !Owns(r, u)
    {
      assert Fields(s, u);
      assert u != t ==> !Owns(s, u);
    }
  }

  /** The task that queued last is woken first: if t queues and the owner then releases, t is the
      one that is woken, and the others wait as before. */
  lemma LastInFirstOut(s: State, t: int, o: int)
    requires Inv(s) && IsTask(s, t) && (s.pc[t] == Down || s.pc[t] == Woken) && IsTask(s, o) && s.pc[o] == Up
    ensures DownStep(s, t).Running? && Inv(DownStep(s, t).state)
    ensures var r := UpStep(DownStep(s, t).state, o);
      r.Running? && IsTask(r.state, t) && r.state.pc[t] == Woken && r.state.waiters == s.waiters && r.state.val == 1
  {
    assert Owns(s, o);
    DownKeeps(s, t);
    UpKeeps(DownStep(s, t).state, o);
    assert ([t] + s.waiters)[1..] == s.waiters;
  }

  lemma StepKeeps(s: State, t: int, call: Call)
    requires Inv(s) && Enabled(s, t, call)
    ensures Step(s, t, call).Running? && Inv(Step(s, t, call).state)
  {
    match s.pc[t]
    case Down => DownKeeps(s, t);
    case Woken => DownKeeps(s, t);
    case Up => UpKeeps(s, t);
    case _ => LocalStep(s, t, call);
  }

  // ---------- whole runs ----------

  datatype Event = Event(task: int, call: Call)

  /** The states of a run, in order: it starts with lock_init and every task steps when it may. */
  ghost predicate Run(states: seq<State>, events: seq<Event>, n: nat)
  {
    && |states| == |events| + 1 && states[0] == Init(n)
    && forall i | 0 <= i < |events| ::
         Enabled(states[i], events[i].task, events[i].call)
         && Step(states[i], events[i].task, events[i].call) == Running(states[i + 1])
  }

  lemma {:induction false} RunInv(states: seq<State>, events: seq<Event>, n: nat, i: nat)
    requires Run(states, events, n) && i < |states|
    ensures Inv(states[i])
    decreases i
  {
    if i == 0 {
      InitInv(n);
    } else {
      RunInv(states, events, n, i - 1);
      StepKeeps(states[i - 1], events[i - 1].task, events[i - 1].call);
    }
  }

  /** At every point of every run: at most one task is inside the lock; the value is 0 or 1;
      the count is the holder's nesting depth; and no assertion fails whoever moves next. */
  lemma Safety(states: seq<State>, events: seq<Event>, n: nat, i: nat)
    requires Run(states, events, n) && i < |states|
    ensures var s := states[i];
      && |s.depth| == |s.pc| && (s.val == 0 || s.val == 1)
      && (forall t, u | IsTask(s, t) && IsTask(s, u) && s.depth[t] > 0 && s.depth[u] > 0 :: t == u)
      && (forall t | IsTask(s, t) && s.depth[t] > 0 && s.pc[t] == Outside :: s.holder == t && s.hrepeat == s.depth[t])
      && (forall t, call | Enabled(s, t, call) :: Step(s, t, call).Running?)
  {
    var s := states[i];
    RunInv(states, events, n, i);
    forall t | IsTask(s, t) && s.depth[t] > 0
      ensures Owns(s, t)
    {
      assert Fields(s, t);
    }
    forall t | IsTask(s, t) && s.depth[t] > 0 && s.pc[t] == Outside
      ensures s.holder == t && s.hrepeat == s.depth[t]
    {
      assert Fields(s, t);
    }
    forall t, call | Enabled(s, t, call)
      ensures Step(s, t, call).Running?
    {
      StepKeeps(s, t, call);
    }
  }

  /** Whenever tasks are queued, a task that is not blocked will decide about them: the
      owner, or, if the lock is free, a woken task about to test the value again. */
  lemma NoLostWakeup(states: seq<State>, events: seq<Event>, n: nat, i: nat)
    requires Run(states, events, n) && i < |states| && states[i].waiters != []
    ensures var s := states[i];
      if s.val == 1 then exists w :: IsTask(s, w) && s.pc[w] == Woken
      else exists o :: Owns(s, o) && s.pc[o] != Waiting
  {
    RunInv(states, events, n, i);
    var s := states[i];
    if s.val == 0 {
      var o :| Owns(s, o);
      assert s.pc[o] != Waiting;
    }
  }
}
