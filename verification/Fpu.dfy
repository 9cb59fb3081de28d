/** src/kernel/dev/fpu/fpu.c: the floating-point registers are switched lazily. A task switch
only sets CR0.TS; the first FPU instruction after it traps, and the handler swaps the registers
if another task used them last. The register file is one value here. */
module Fpu {
  const INIT := 0      // what fninit leaves
  const NOBODY := -1

  type Op = int -> int  // the effect of an instruction on the registers

  datatype Event = Switch(next: int) | Instr(op: Op)

  // ---------- each task by itself ----------

  /** The task that is running after the events. */
  function Running(es: seq<Event>, cur: int): int
  {
    if es == [] then cur
    else
      var e := es[|es| - 1];
      if e.Switch? then e.next else Running(es[..|es| - 1], cur)
  }

  /** The registers as task t should see them: the effect of its own instructions alone. */
  function Own(es: seq<Event>, cur: int, t: int): int
  {
    if es == [] then INIT
    else
      var before := es[..|es| - 1];
      var e := es[|es| - 1];
      if e.Instr? && Running(before, cur) == t then e.op(Own(before, cur, t)) else Own(before, cur, t)
  }

  /** What each instruction should see, in order. */
  function Expected(es: seq<Event>, cur: int): seq<int>
  {
    if es == [] then []
    else
      var before := es[..|es| - 1];
      if es[|es| - 1].Instr? then Expected(before, cur) + [Own(before, cur, Running(before, cur))]
      else Expected(before, cur)
  }

  /** Instructions of other tasks and switches leave what a task should see alone. */
  lemma {:induction false} OwnUntouched(es: seq<Event>, more: seq<Event>, cur: int, t: int)
    requires forall i | 0 <= i < |more| :: more[i].Instr? ==> Running(es + more[..i], cur) != t
    ensures Own(es + more, cur, t) == Own(es, cur, t)
    decreases |more|
  {
    if more == [] {
      assert es + more == es;
    } else {
      var n := |more| - 1;
      forall i | 0 <= i < n
        ensures more[..n][i].Instr? ==> Running(es + more[..n][..i], cur) != t
      {
        assert more[..n][..i] == more[..i];
      }
      OwnUntouched(es, more[..n], cur, t);
      assert (es + more)[..|es + more| - 1] == es + more[..n];
    }
  }

  // ---------- the code ----------

  class Cpu {
    var regs: int
    var ts: bool            // CR0.TS
    var last: int           // the task that used the FPU last
    var save: map<int, int> // task->fpu, for tasks that have a save area
    var cur: int            // task_current()

    /** The registers of task t, wherever they are. */
    ghost function View(t: int): int
      reads this
    {
      if t == last then regs else if t in save then save[t] else INIT
    }

    ghost predicate Valid()
      reads this
    {
      && (last != NOBODY ==> last in save) && (!ts ==> last == cur)
      && cur != NOBODY && NOBODY !in save
    }

    /** After the first task switch. */
    constructor (cur: int, regs: int)
      requires cur != NOBODY
      ensures Valid() && this.cur == cur && forall t | t != NOBODY :: View(t) == INIT
    {
      this.cur, this.regs, ts, last, save := cur, regs, true, NOBODY, map[];
    }

    /** task_schedule, switching to another task: fpu_disable. */
    method Schedule(next: int)
      requires Valid() && next != NOBODY
      modifies this`ts, this`cur
      ensures Valid() && cur == next && forall t :: View(t) == old(View(t))
    {
      cur := next;
      ts := true;
    }

    /** fpu_enable: `block` is what the new save area happens to hold. */
    method Enable(tsk: int, block: int)
      modifies this`regs, this`save
      ensures regs == if tsk in old(save) then old(save)[tsk] else INIT
      ensures save == if tsk in old(save) then old(save) else old(save)[tsk := block]
    {
      if tsk in save {
        regs := save[tsk];
      } else {
        save := save[tsk := block];
        regs := INIT;
      }
    }

    /** fpu_handler: afterwards the registers are the current task's, and every task's
        registers are what they were. */
    method Handler(block: int)
      requires Valid()
      modifies this`regs, this`ts, this`last, this`save
      ensures Valid() && !ts && last == cur
      ensures forall t | t != NOBODY :: View(t) == old(View(t))
    {
      if ts {
        ts := false;
        if cur != last {
          if last != NOBODY {
            save := save[last := regs];
          }
          Enable(cur, block);
          last := cur;
        }
      }
    }

    /** An FPU instruction of the current task; with TS set it traps first. */
    method Execute(op: Op, block: int) returns (seen: int)
      requires Valid()
      modifies this
      ensures Valid() && cur == old(cur) && seen == old(View(cur)) && View(cur) == op(seen)
      ensures forall t | t != NOBODY && t != cur :: View(t) == old(View(t))
    {
      if ts {
        Handler(block);
      }
      seen := regs;
      regs := op(regs);
    }

    /** Every run: each instruction sees exactly what its task's own instructions left. */
    method Run(es: seq<Event>, block: int) returns (seen: seq<int>)
      requires Valid() && (forall t | t != NOBODY :: View(t) == INIT)
      requires forall i | 0 <= i < |es| && es[i].Switch? :: es[i].next != NOBODY
      modifies this
      ensures seen == Expected(es, old(cur))
    {
      seen := [];
      assert es[..0] == [];
      for i := 0 to |es|
        invariant Valid() && cur == Running(es[..i], old(cur)) && seen == Expected(es[..i], old(cur))
        invariant forall t | t != NOBODY :: View(t) == Own(es[..i], old(cur), t)
      {
        assert es[..i + 1][..i] == es[..i];
        if es[i].Switch? {
          Schedule(es[i].next);
        } else {
          var x := Execute(es[i].op, block);
          seen := seen + [x];
        }
      }
      assert es[..|es|] == es;
    }
  }
}
