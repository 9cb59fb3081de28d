/** src/kernel/dev/disk/buffer.c: how tasks wait for each other in bread, which takes the lock of
a buffer while it holds the lock of the whole cache. */
module BufferLocks {
  const NOBODY := -1

  /** Outside bread; waiting for lkall on the way to a block; or holding lkall and waiting for
      the buffer of the block. */
  datatype Pc = Out | Want(block: int) | Has(block: int)

  /** Who holds lkall, who holds which buffer how many times, and where each task is. */
  datatype State = State(all: int, owner: map<int, int>, depth: map<int, nat>, pc: seq<Pc>)

  datatype Step = Call(block: int) | TakeAll | TakeBuffer | Release(block: int)

  ghost predicate IsTask(s: State, t: int)
  {
    0 <= t < |s.pc|
  }

  ghost predicate Enabled(s: State, t: int, a: Step)
  {
    IsTask(s, t) &&
    match a
    case Call(_) => s.pc[t] == Out
    case TakeAll => s.pc[t].Want? && s.all == NOBODY
    case TakeBuffer => s.pc[t].Has? && (s.pc[t].block in s.owner ==> s.owner[s.pc[t].block] == t)
    case Release(b) => s.pc[t] == Out && b in s.owner && s.owner[b] == t
  }

  function Next(s: State, t: int, a: Step): State
    requires 0 <= t < |s.pc| && (a.TakeBuffer? ==> s.pc[t].Has?) && (a.TakeAll? ==> s.pc[t].Want?)
  {
    match a
    case Call(b) => s.(pc := s.pc[t := Want(b)])
    case TakeAll => s.(all := t, pc := s.pc[t := Has(s.pc[t].block)])
    case TakeBuffer =>
      var b := s.pc[t].block;
      var n := if b in s.owner && b in s.depth then s.depth[b] else 0;
      s.(all := NOBODY, pc := s.pc[t := Out], owner := s.owner[b := t], depth := s.depth[b := n + 1])
    case Release(b) =>
      if b in s.depth && s.depth[b] > 1 then s.(depth := s.depth[b := s.depth[b] - 1])
      else s.(owner := s.owner - {b}, depth := s.depth - {b})
  }

  /** lkall is held by the task that is past it, and by no other. */
  ghost predicate Inv(s: State)
  {
    && (forall t | IsTask(s, t) :: s.pc[t].Has? <==> s.all == t)
    && (s.all == NOBODY || IsTask(s, s.all))
    && (forall b | b in s.owner :: IsTask(s, s.owner[b]))
  }

  lemma StepKeeps(s: State, t: int, a: Step)
    requires Inv(s) && Enabled(s, t, a)
    ensures Inv(Next(s, t, a))
  {}

  /** h holds lkall and waits for a buffer of o, which is itself waiting for lkall. */
  ghost predicate Locked(s: State, h: int, o: int)
  {
    && IsTask(s, h) && IsTask(s, o) && h != o && s.pc[h].Has? && s.pc[o].Want?
    && s.pc[h].block in s.owner && s.owner[s.pc[h].block] == o
  }

  /** Once that is so it stays so: nobody gets into the cache again. */
  lemma LockedForever(s: State, h: int, o: int, t: int, a: Step)
    requires Inv(s) && Locked(s, h, o) && Enabled(s, t, a)
    ensures Locked(Next(s, t, a), h, o) && !a.TakeAll? && !a.TakeBuffer?
  {
    assert s.all == h;
    assert t != h && t != o;
  }

  /** Otherwise whoever is in bread can be served: the way into the cache is free, or its holder
      can take its buffer, or the task that has that buffer is outside bread and can release it. */
  lemma OtherwiseServed(s: State, t: int)
    requires Inv(s) && IsTask(s, t) && s.pc[t] != Out && forall h, o :: !Locked(s, h, o)
    ensures s.all != NOBODY ==> IsTask(s, s.all) && s.pc[s.all].Has?
    ensures if s.all == NOBODY then Enabled(s, t, TakeAll) else
      var b := s.pc[s.all].block;
      Enabled(s, s.all, TakeBuffer) || (b in s.owner && Enabled(s, s.owner[b], Release(b)))
  {
    if s.all != NOBODY && !Enabled(s, s.all, TakeBuffer) {
      var o := s.owner[s.pc[s.all].block];
      assert !Locked(s, s.all, o);
      assert s.pc[o] == Out;
    }
  }

  /** A task in bread holds no buffer. */
  ghost predicate EmptyHanded(s: State)
  {
    forall b | b in s.owner && IsTask(s, s.owner[b]) :: s.pc[s.owner[b]] == Out
  }

  /** If tasks call bread only while they hold no buffer, nobody is ever locked out. */
  lemma DisciplineKeeps(s: State, t: int, a: Step)
    requires Inv(s) && EmptyHanded(s) && Enabled(s, t, a)
    requires a.Call? ==> forall b | b in s.owner :: s.owner[b] != t
    ensures EmptyHanded(Next(s, t, a))
  {
    var r := Next(s, t, a);
    forall b | b in r.owner && IsTask(r, r.owner[b])
      ensures r.pc[r.owner[b]] == Out
    {
      if b in s.owner {
        assert s.pc[s.owner[b]] == Out;
      }
    }
  }

  /** The states of a run with n tasks, from an empty cache. */
  ghost predicate Run(states: seq<State>, tasks: seq<int>, steps: seq<Step>, n: nat)
  {
    && |states| == |steps| + 1 == |tasks| + 1 && states[0] == State(NOBODY, map[], map[], seq(n, i => Out))
    && forall i | 0 <= i < |steps| ::
         Enabled(states[i], tasks[i], steps[i]) && states[i + 1] == Next(states[i], tasks[i], steps[i])
  }

  /** The step at i is a call of bread by a task that holds a buffer. */
  ghost predicate HeldCall(s: State, t: int, a: Step)
  {
    a.Call? && exists b :: b in s.owner && s.owner[b] == t
  }

  /** So every run that locks up contains a call of bread by a task that holds a buffer. */
  lemma {:induction false} OnlyByHeldCalls(states: seq<State>, tasks: seq<int>, steps: seq<Step>, n: nat, i: nat)
    requires Run(states, tasks, steps, n) && i < |states|
    requires forall j | 0 <= j < i :: !HeldCall(states[j], tasks[j], steps[j])
    ensures Inv(states[i]) && EmptyHanded(states[i]) && forall h, o :: !Locked(states[i], h, o)
    decreases i
  {
    if i == 0 {
    } else {
      OnlyByHeldCalls(states, tasks, steps, n, i - 1);
      StepKeeps(states[i - 1], tasks[i - 1], steps[i - 1]);
      DisciplineKeeps(states[i - 1], tasks[i - 1], steps[i - 1]);
    }
  }

  /** And one such call is enough: task 0 has block 1 and asks for block 2 while task 1, inside,
      asks for block 1. */
  lemma LockUp()
    ensures exists states, tasks, steps :: Run(states, tasks, steps, 2) && Locked(states[|steps|], 1, 0)
  {
    var s0 := State(NOBODY, map[], map[], [Out, Out]);
    assert seq(2, i => Out) == [Out, Out];
    var tasks, steps := [0, 0, 0, 1, 1, 0], [Call(1), TakeAll, TakeBuffer, Call(1), TakeAll, Call(2)];
    var s1 := Next(s0, 0, Call(1));
    var s2 := Next(s1, 0, TakeAll);
    var s3 := Next(s2, 0, TakeBuffer);
    var s4 := Next(s3, 1, Call(1));
    var s5 := Next(s4, 1, TakeAll);
    var s6 := Next(s5, 0, Call(2));
    var states := [s0, s1, s2, s3, s4, s5, s6];
    assert Run(states, tasks, steps, 2);
    assert Locked(states[|steps|], 1, 0);
  }
}
