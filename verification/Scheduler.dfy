/** src/kernel/task.c: the round-robin scheduler over a table of sixteen tasks. */
module Scheduler {
  const TASK_MAX := 16
  const TASK_TICKS := 1
  const ECHILD := 10

  datatype Stat = Free | Ini | Die | Pre | Run | Slp | Blk

  type Table = s: seq<Stat> | |s| == TASK_MAX witness seq(TASK_MAX, i => Free)

  type Parents = s: seq<int> | |s| == TASK_MAX && forall i | 0 <= i < TASK_MAX :: 0 <= s[i] < TASK_MAX
    witness seq(TASK_MAX, i => 0)

  /** Ticks that a task has left, or gets. */
  type Ticks = s: seq<int> | |s| == TASK_MAX && forall i | 0 <= i < TASK_MAX :: 0 <= s[i] <= TASK_TICKS
    witness seq(TASK_MAX, i => 0)

  /** The slot d places after c, going round. */
  function Slot(c: int, d: int): (i: int)
    ensures 0 <= i < TASK_MAX
  {
    (c + d) % TASK_MAX
  }

  /** n is the first prepared task at or after c, d places on. */
  ghost predicate First(stat: Table, c: int, n: int, d: int)
  {
    && 0 <= d < TASK_MAX && n == Slot(c, d) && stat[n] == Pre
    && forall e | 0 <= e < d :: stat[Slot(c, e)] != Pre
  }

  ghost predicate NonePrepared(stat: Table)
  {
    forall i | 0 <= i < TASK_MAX :: stat[i] != Pre
  }

  // ---------- a prepared task is not passed over ----------

  /** How many tasks come up before p, going round from behind c. */
  function Distance(c: int, p: int): int
  {
    if p > c then p - c - 1 else p - c - 1 + TASK_MAX
  }

  lemma NextSlot(c: int, d: int)
    ensures Slot(c, d + 1) == (Slot(c, d) + 1) % TASK_MAX
  {}

  lemma SlotIs(c: int, d: int)
    requires 0 <= c < TASK_MAX && 0 <= d < TASK_MAX
    ensures Slot(c, d) == if c + d < TASK_MAX then c + d else c + d - TASK_MAX
  {}

  /** Switching to the first prepared task dispatches p or brings its turn nearer. */
  lemma Nearer(stat: Table, c: int, n: int, d: int, p: int)
    requires 0 <= c < TASK_MAX && 0 <= p < TASK_MAX && p != c && stat[c] != Pre && stat[p] == Pre
    requires First(stat, c, n, d) && n != p
    ensures Distance(n, p) < Distance(c, p)
  {
    var k := Distance(c, p) + 1;
    SlotIs(c, k);
    SlotIs(c, d);
    assert Slot(c, k) == p;
    assert d < k;
  }

  /** One step of a run that p sits out: no switch, or a switch to the first prepared task. */
  ghost predicate Waits(c: int, c': int, p: int)
  {
    && 0 <= c < TASK_MAX && 0 <= c' < TASK_MAX && 0 <= p < TASK_MAX && c != p && c' != p
    && (c' == c || exists stat: Table, d :: stat[c] != Pre && stat[p] == Pre && First(stat, c, c', d))
  }

  /** Waiting through a switch brings the turn nearer. */
  lemma Passed(c: int, c': int, p: int)
    requires Waits(c, c', p)
    ensures c' != c ==> Distance(c', p) < Distance(c, p)
  {
    if c' != c {
      var stat: Table, d :| stat[c] != Pre && stat[p] == Pre && First(stat, c, c', d);
      Nearer(stat, c, c', d, p);
    }
  }

  function Switches(cs: seq<int>): nat
  {
    if |cs| < 2 then 0 else Switches(cs[..|cs| - 1]) + if cs[|cs| - 1] != cs[|cs| - 2] then 1 else 0
  }

  /** While p stays prepared and is not dispatched there are at most as many switches as places
      before it, so one of the next TASK_MAX - 1 switches dispatches it. */
  lemma {:induction false} Turn(cs: seq<int>, p: int)
    requires cs != [] && 0 <= p < TASK_MAX && 0 <= cs[0] < TASK_MAX && cs[0] != p
    requires forall i, j | 0 <= i < j < |cs| && j == i + 1 :: Waits(cs[i], cs[j], p)
    ensures Switches(cs) + Distance(cs[|cs| - 1], p) <= Distance(cs[0], p) < TASK_MAX - 1
    decreases |cs|
  {
    if |cs| == 1 {
      assert Distance(cs[0], p) != TASK_MAX - 1;
    } else {
      var n := |cs| - 1;
      Turn(cs[..n], p);
      assert Waits(cs[n - 1], cs[n], p);
      Passed(cs[n - 1], cs[n], p);
    }
  }

  /** Task p is prepared at every point from i to j of a run. */
  ghost predicate Stays(ss: seq<Table>, p: int, i: int, j: int)
  {
    0 <= p < TASK_MAX && 0 <= i && forall k | i <= k <= j && k < |ss| :: ss[k][p] == Pre
  }

  /** The current task runs, and no step passes over a task that is prepared before and after. */
  ghost predicate Traced(cs: seq<int>, ss: seq<Table>)
  {
    && |cs| == |ss| && (forall k | 0 <= k < |cs| :: 0 <= cs[k] < TASK_MAX && ss[k][cs[k]] == Run)
    && (forall k, l, p | 0 <= k < l < |ss| && l == k + 1 && 0 <= p < TASK_MAX && ss[k][p] == ss[l][p] == Pre ::
          Waits(cs[k], cs[l], p))
  }

  lemma Served(cs: seq<int>, ss: seq<Table>, p: int, i: int, j: int)
    requires Traced(cs, ss) && 0 <= i <= j < |cs| && Stays(ss, p, i, j)
    ensures Switches(cs[i..j + 1]) < TASK_MAX - 1
  {
    var part := cs[i..j + 1];
    assert part[0] == cs[i] && ss[i][p] == Pre;
    forall k, l | 0 <= k < l < |part| && l == k + 1
      ensures Waits(part[k], part[l], p)
    {
      assert ss[i + k][p] == ss[i + l][p] == Pre;
    }
    Turn(part, p);
  }

  // ---------- how long it takes ----------

  /** How many timer ticks task p may have to wait while c runs with l ticks left. */
  function Cost(c: int, l: int, p: int): int
  {
    Distance(c, p) * (TASK_TICKS + 1) + l
  }

  /** A step from c to c' that costs p at least k of its ticks. */
  ghost predicate Pays(c: int, l: int, c': int, l': int, p: int, k: int)
  {
    Cost(c', l', p) + k <= Cost(c, l, p)
  }

  function Timers(ops: seq<Op>): nat
  {
    if ops == [] then 0 else Timers(ops[..|ops| - 1]) + if ops[|ops| - 1].Timer? then 1 else 0
  }

  /** Every step of a run that p sits out is paid for. */
  ghost predicate Paid(ops: seq<Op>, cs: seq<int>, ls: seq<int>, ss: seq<Table>)
  {
    && |cs| == |ls| == |ss| <= |ops| + 1 && (forall k | 0 <= k < |ls| :: 0 <= ls[k] <= TASK_TICKS)
    && (forall k, l, p | 0 <= k < l < |ss| && l == k + 1 && 0 <= p < TASK_MAX && ss[k][p] == ss[l][p] == Pre ::
          Pays(cs[k], ls[k], cs[l], ls[l], p, if ops[k].Timer? then 1 else 0))
  }

  lemma {:induction false} TimersPaid(ops: seq<Op>, cs: seq<int>, ls: seq<int>, ss: seq<Table>, p: int, i: int, j: int)
    requires Paid(ops, cs, ls, ss) && 0 <= i <= j < |cs| && Stays(ss, p, i, j)
    ensures Timers(ops[i..j]) + Cost(cs[j], ls[j], p) <= Cost(cs[i], ls[i], p)
    decreases j - i
  {
    if i == j {
    } else {
      TimersPaid(ops, cs, ls, ss, p, i, j - 1);
      assert ops[i..j][..j - i - 1] == ops[i..j - 1] && ops[i..j][j - i - 1] == ops[j - 1];
      assert ss[j - 1][p] == ss[j][p] == Pre;
    }
  }

  /** A task that stays prepared is dispatched before that many timer ticks have gone by. */
  lemma InTime(ops: seq<Op>, cs: seq<int>, ls: seq<int>, ss: seq<Table>, p: int, i: int, j: int)
    requires Paid(ops, cs, ls, ss) && Traced(cs, ss) && 0 <= i <= j < |cs| && Stays(ss, p, i, j)
    ensures Timers(ops[i..j]) < (TASK_MAX - 1) * (TASK_TICKS + 1)
  {
    TimersPaid(ops, cs, ls, ss, p, i, j);
    assert ss[i][p] == Pre && ss[i][cs[i]] == Run && ss[j][p] == Pre && ss[j][cs[j]] == Run;
  }

  // ---------- what one call of the scheduler does ----------

  /** The table once the sleeping tasks have been ticked: those with one tick to go are prepared. */
  ghost function Awake(stat: Table, sleep: seq<int>, c: int): Table
    requires |sleep| == TASK_MAX
  {
    seq(TASK_MAX, p requires 0 <= p < TASK_MAX => if stat[p] == Slp && p != c && sleep[p] == 1 then Pre else stat[p])
  }

  ghost function Ticking(stat: Table, sleep: seq<int>, c: int): seq<int>
    requires |sleep| == TASK_MAX
  {
    seq(TASK_MAX, p requires 0 <= p < TASK_MAX => if stat[p] == Slp && p != c then sleep[p] - 1 else sleep[p])
  }

  /** Does the parent wait for the child c? */
  ghost predicate Awaits(stat: Table, waitpid: seq<int>, c: int, prt: int)
    requires 0 <= prt < TASK_MAX == |waitpid|
  {
    prt != c && stat[prt] == Blk && (waitpid[prt] == c || waitpid[prt] == -1)
  }

  /** The table when c has died. */
  ghost function Dying(stat: Table, waitpid: seq<int>, c: int, prt: int): Table
    requires 0 <= c < TASK_MAX && 0 <= prt < TASK_MAX == |waitpid|
  {
    if Awaits(stat, waitpid, c, prt) then stat[c := Die][prt := Pre] else stat[c := Die]
  }

  ghost function Told(stat: Table, waitpid: seq<int>, c: int, prt: int): seq<int>
    requires 0 <= prt < TASK_MAX == |waitpid|
  {
    if Awaits(stat, waitpid, c, prt) then waitpid[prt := c] else waitpid
  }

  /** Who runs when c gives up the processor. */
  ghost predicate Chosen(stat: Table, c: int, n: int)
  {
    if NonePrepared(stat) then n == c else exists d :: First(stat, c, n, d)
  }

  /** From the table w on: c goes on with a tick less if it runs and has any; otherwise it gets its
      ticks back if it runs, and the first prepared task runs instead. */
  ghost predicate Dispatched(w: Table, c: int, left: Ticks, tick: Ticks, stat: Table, n: int, left': Ticks)
    requires 0 <= c < TASK_MAX
  {
    if w[c] == Run && left[c] != 0 then n == c && stat == w && left' == left[c := left[c] - 1]
    else
      && 0 <= n < TASK_MAX && Chosen(w, c, n) && left' == (if w[c] == Run then left[c := tick[c]] else left)
      && stat == if n == c then w else (if w[c] == Run then w[c := Pre] else w)[n := Run]
  }

  /** It costs everybody who waits a tick. */
  lemma DispatchPays(w: Table, c: int, left: Ticks, tick: Ticks, stat: Table, n: int, left': Ticks, p: int)
    requires 0 <= c < TASK_MAX && Dispatched(w, c, left, tick, stat, n, left') && w[c] != Pre
    requires 0 <= p < TASK_MAX && w[p] == stat[p] == Pre
    ensures Pays(c, left[c], n, left'[n], p, 1)
  {
    if w[c] == Run && left[c] != 0 {
    } else {
      var d :| First(w, c, n, d);
      Nearer(w, c, n, d, p);
    }
  }

  // ---------- the list of sleeping tasks ----------

  /** The list holds the sleeping tasks, each once and with ticks to go. */
  ghost predicate Listed(stat: Table, sleep: seq<int>, list: seq<int>)
  {
    && |sleep| == TASK_MAX
    && (forall i | 0 <= i < |list| :: 0 <= list[i] < TASK_MAX && stat[list[i]] == Slp && sleep[list[i]] > 0)
    && (forall i, j | 0 <= i < j < |list| :: list[i] != list[j])
    && (forall p | 0 <= p < TASK_MAX && stat[p] == Slp :: p in list)
  }

  ghost predicate Same(p: int, stat: Table, sleep: seq<int>, stat': Table, sleep': seq<int>)
  {
    0 <= p < |sleep| == |sleep'| == TASK_MAX && stat'[p] == stat[p] && sleep'[p] == sleep[p]
  }

  /** One tick less, and awake if that was the last. */
  ghost predicate Ticked(p: int, sleep: seq<int>, stat': Table, sleep': seq<int>)
  {
    && 0 <= p < |sleep| == |sleep'| == TASK_MAX
    && sleep'[p] == sleep[p] - 1 && stat'[p] == if sleep'[p] == 0 then Pre else Slp
  }

  predicate Ready(s: Stat)
  {
    s == Pre || s == Run
  }

  /** One tick less; ready, and possibly running, if that was the last. */
  ghost predicate Nearing(p: int, sleep: seq<int>, stat': Table, sleep': seq<int>)
  {
    && 0 <= p < |sleep| == |sleep'| == TASK_MAX && sleep'[p] == sleep[p] - 1
    && if sleep'[p] == 0 then Ready(stat'[p]) else stat'[p] == Slp
  }

  /** The tasks in `done` have been visited, and those on `rest` are still to be. */
  ghost predicate Progress(stat0: Table, sleep0: seq<int>, stat: Table, sleep: seq<int>, curr: int,
                           done: set<int>, rest: seq<int>)
  {
    && (forall k | 0 <= k < |rest| :: rest[k] !in done)
    && (forall p | 0 <= p < TASK_MAX && stat0[p] == Slp :: p in done || p in rest)
    && (forall p | p in done :: 0 <= p < TASK_MAX && stat0[p] == Slp)
    && (forall p | 0 <= p < TASK_MAX ::
          if p in done && p != curr then Ticked(p, sleep0, stat, sleep) else Same(p, stat0, sleep0, stat, sleep))
  }

  lemma ProgressStep(stat0: Table, sleep0: seq<int>, stat1: Table, sleep1: seq<int>, stat: Table, sleep: seq<int>,
                     curr: int, done: set<int>, rest: seq<int>)
    requires Progress(stat0, sleep0, stat1, sleep1, curr, done, rest) && rest != [] && rest[0] !in rest[1..]
    requires 0 <= rest[0] < TASK_MAX && stat1[rest[0]] == Slp
    requires if rest[0] == curr then stat == stat1 && sleep == sleep1 else Ticked(rest[0], sleep1, stat, sleep)
    requires forall q | 0 <= q < TASK_MAX && q != rest[0] :: Same(q, stat1, sleep1, stat, sleep)
    ensures Progress(stat0, sleep0, stat, sleep, curr, done + {rest[0]}, rest[1..])
  {
    var p := rest[0];
    assert Same(p, stat0, sleep0, stat1, sleep1);
    forall q | 0 <= q < TASK_MAX && q != p
      ensures if q in done && q != curr then Ticked(q, sleep0, stat, sleep) else Same(q, stat0, sleep0, stat, sleep)
    {
      assert Same(q, stat1, sleep1, stat, sleep);
    }
  }

  /** Taking p out from between a and b. */
  lemma Unlinked(a: seq<int>, p: int, b: seq<int>)
    requires forall i, j | 0 <= i < j < |a + [p] + b| :: (a + [p] + b)[i] != (a + [p] + b)[j]
    ensures forall i, j | 0 <= i < j < |a + b| :: (a + b)[i] != (a + b)[j]
    ensures p !in a + b && forall q | q in a + [p] + b && q != p :: q in a + b
  {
    var list, r := a + [p] + b, a + b;
    assert list[|a|] == p;
    assert forall i | 0 <= i < |r| :: r[i] == list[if i < |a| then i else i + 1];
    forall q | q in list && q != p
      ensures q in r
    {
      assert q in a || q in b;
    }
  }

  /** The task between a and b wakes. */
  lemma WakeListed(stat: Table, sleep: seq<int>, a: seq<int>, p: int, b: seq<int>)
    requires Listed(stat, sleep, a + [p] + b)
    ensures 0 <= p < TASK_MAX && Listed(stat[p := Pre], sleep[p := 0], a + b)
  {
    var list, r := a + [p] + b, a + b;
    assert list[|a|] == p;
    Unlinked(a, p, b);
    forall i | 0 <= i < |r|
      ensures 0 <= r[i] < TASK_MAX && stat[r[i]] == Slp && sleep[r[i]] > 0 && r[i] != p
    {
      assert r[i] == list[if i < |a| then i else i + 1];
      assert r[i] in r;
    }
  }

  lemma TickListed(stat: Table, sleep: seq<int>, list: seq<int>, p: int, n: int)
    requires Listed(stat, sleep, list) && 0 <= p < TASK_MAX && n > 0
    ensures Listed(stat, sleep[p := n], list)
  {}

  // ---------- the code ----------

  datatype Op =
    | Timer
    | DoSleep(ticks: int)
    | DoBlock
    | DoExit
    | DoWait(pid: int)
    | DoUnblock(pid: int)
    | DoCreate
    | DoFork
    | DoCollect

  ghost predicate HasFree(stat: Table)
  {
    exists i :: 0 <= i < TASK_MAX && stat[i] == Free
  }

  ghost predicate IsChild(stat: Table, ppid: Parents, c: int, i: int)
  {
    0 <= i < TASK_MAX && stat[i] != Free && stat[i] != Die && ppid[i] == c
  }

  ghost predicate LivingChild(stat: Table, ppid: Parents, c: int)
  {
    exists i :: IsChild(stat, ppid, c, i)
  }

  class Tasks {
    var stat: Table
    var curr: int             // _curr
    var left: Ticks           // table[i]->curr, the ticks left
    var tick: Ticks           // table[i]->tick
    var sleep: seq<int>       // table[i]->sleep
    var sleeping: seq<int>    // the list _sleeping
    var ppid: Parents         // table[i]->ppid
    var waitpid: seq<int>     // table[i]->waitpid

    /** The table is well formed, and the list holds the sleeping tasks, each once. */
    ghost predicate Shape()
      reads this
    {
      0 <= curr < TASK_MAX && |sleep| == |waitpid| == TASK_MAX && Listed(stat, sleep, sleeping)
    }

    /** Between calls: the current task runs and no other does; task 0 could. */
    ghost predicate Valid()
      reads this
    {
      && Shape() && stat[curr] == Run && (forall p | 0 <= p < TASK_MAX && p != curr :: stat[p] != Run)
      && (stat[0] == Run || stat[0] == Pre)
    }

    /** Inside a call that gives up the processor: the current task has another state. */
    ghost predicate Leaving()
      reads this
    {
      && Shape() && curr != 0 && stat[curr] != Pre && stat[0] == Pre
      && forall p | 0 <= p < TASK_MAX :: stat[p] != Run
    }

    /** task_init: one task, which runs. */
    constructor ()
      ensures Valid() && curr == 0 && left[0] == tick[0] == TASK_TICKS
      ensures stat[0] == Run && forall p | 0 < p < TASK_MAX :: stat[p] == Free
    {
      stat := seq(TASK_MAX, i => if i == 0 then Run else Free);
      curr, sleeping := 0, [];
      left, tick, sleep := seq(TASK_MAX, i => TASK_TICKS), seq(TASK_MAX, i => TASK_TICKS), seq(TASK_MAX, i => 0);
      ppid, waitpid := seq(TASK_MAX, i => 0), seq(TASK_MAX, i => 0);
    }

    /** _getnext */
    method GetNext() returns (next: int, ghost d: int)
      requires 0 <= curr < TASK_MAX
      modifies this`curr
      ensures next == -1 <==> NonePrepared(stat)
      ensures next == -1 ==> curr == old(curr)
      ensures next != -1 ==> curr == next && First(stat, old(curr), next, d)
    {
      var i, j := curr, 0;
      d := 0;
      SlotIs(curr, 0);
      while i < TASK_MAX && j < curr + TASK_MAX
        invariant 0 <= j <= curr + TASK_MAX && i == Slot(curr, j) && curr == old(curr)
        invariant forall e | 0 <= e < j :: stat[Slot(curr, e)] != Pre
        decreases curr + TASK_MAX - j
      {
        if stat[i] == Pre {
          d := j;
          All(stat, curr, j);
          curr := i;
          return i, d;
        }
        NextSlot(curr, j);
        i, j := (i + 1) % TASK_MAX, j + 1;
      }
      All(stat, curr, j);
      next := -1;
    }

    /** update_sleep: every sleeping task but the current one is one tick nearer to waking, and
        those that reach zero are prepared and leave the list. */
    method UpdateSleep()
      requires Shape()
      modifies this`stat, this`sleep, this`sleeping
      ensures Shape()
      ensures forall p | 0 <= p < TASK_MAX ::
        if old(stat)[p] == Slp && p != curr then Ticked(p, old(sleep), stat, sleep)
        else Same(p, old(stat), old(sleep), stat, sleep)
    {
      var kept, rest := [], sleeping;
      ghost var done: set<int> := {};
      assert kept + rest == rest;
      ProgressStart(stat, sleep, curr, rest);
      while rest != []
        invariant Listed(stat, sleep, sleeping) && sleeping == kept + rest
        invariant Progress(old(stat), old(sleep), stat, sleep, curr, done, rest)
        decreases |rest|
      {
        ghost var stat1, sleep1 := stat, sleep;
        Next(stat, sleep, kept, rest);
        kept := Visit(kept, rest[0], rest[1..]);
        ProgressStep(old(stat), old(sleep), stat1, sleep1, stat, sleep, curr, done, rest);
        done := done + {rest[0]};
        rest := rest[1..];
      }
    }

    /** One round of the loop: the task between kept and rest. */
    method Visit(kept: seq<int>, p: int, rest: seq<int>) returns (kept': seq<int>)
      requires Listed(stat, sleep, sleeping) && sleeping == kept + [p] + rest
      requires 0 <= p < TASK_MAX && stat[p] == Slp && sleep[p] > 0
      modifies this`stat, this`sleep, this`sleeping
      ensures Listed(stat, sleep, sleeping) && sleeping == kept' + rest && (kept' == kept || kept' == kept + [p])
      ensures if p == curr then stat == old(stat) && sleep == old(sleep) else Ticked(p, old(sleep), stat, sleep)
      ensures forall q | 0 <= q < TASK_MAX && q != p :: Same(q, old(stat), old(sleep), stat, sleep)
    {
      if p == curr {
        kept' := kept + [p];
      } else if sleep[p] == 1 {
        WakeListed(stat, sleep, kept, p, rest);
        sleep := sleep[p := 0];
        stat := stat[p := Pre];
        sleeping := kept + rest;
        kept' := kept;
      } else {
        TickListed(stat, sleep, sleeping, p, sleep[p] - 1);
        sleep := sleep[p := sleep[p] - 1];
        kept' := kept + [p];
      }
    }

    /** update_sleep as the scheduler sees it. */
    method Tick()
      requires Valid() || Leaving()
      modifies this`stat, this`sleep, this`sleeping
      ensures old(Valid()) ==> Valid()
      ensures old(Leaving()) ==> Leaving()
      ensures forall p | 0 <= p < TASK_MAX && (old(stat)[p] != Slp || p == curr) ::
        Same(p, old(stat), old(sleep), stat, sleep)
      ensures forall p | 0 <= p < TASK_MAX && old(stat)[p] == Slp && p != curr :: Ticked(p, old(sleep), stat, sleep)
      ensures stat == Awake(old(stat), old(sleep), curr) && sleep == Ticking(old(stat), old(sleep), curr)
    {
      UpdateSleep();
      forall p | 0 <= p < TASK_MAX
        ensures stat[p] == old(stat)[p] || (old(stat)[p] == Slp && p != curr && stat[p] == Pre)
      {
        assert if old(stat)[p] == Slp && p != curr then Ticked(p, old(sleep), stat, sleep)
               else Same(p, old(stat), old(sleep), stat, sleep);
      }
    }

    /** The rest of task_schedule: the current task goes on if it has ticks left or nobody else is
        prepared; otherwise the first prepared task after it runs. */
    method Dispatch()
      requires Valid() || Leaving()
      modifies this`stat, this`curr, this`left
      ensures Valid()
      ensures forall p | 0 <= p < TASK_MAX && old(stat)[p] == Pre && stat[p] == Pre :: Waits(old(curr), curr, p)
      ensures forall p | 0 <= p < TASK_MAX :: stat[p] == old(stat)[p] || (Ready(stat[p]) && Ready(old(stat)[p]))
      ensures Dispatched(old(stat), old(curr), old(left), tick, stat, curr, left)
    {
      var c := curr;
      if stat[c] == Run {
        if left[c] == 0 {
          left := left[c := tick[c]];
        } else {
          left := left[c := left[c] - 1];
          return;
        }
      }
      ghost var mid := stat;
      var next, d := GetNext();
      if next == -1 {
        return;
      }
      if stat[c] == Run {
        stat := stat[c := Pre];
      }
      stat := stat[next := Run];
      Switched(mid, sleep, sleeping, c, next, stat);
      assert mid[c] != Pre && First(mid, c, next, d);
    }

    /** task_schedule. Besides the switch, every sleeping task comes one tick nearer to waking. */
    method Schedule()
      requires Valid() || Leaving()
      modifies this`stat, this`curr, this`left, this`sleep, this`sleeping
      ensures Valid()
      ensures forall p | 0 <= p < TASK_MAX && old(stat)[p] == Pre && stat[p] == Pre :: Waits(old(curr), curr, p)
      ensures forall p | 0 <= p < TASK_MAX && old(stat)[p] == Slp && p != old(curr) ::
        Nearing(p, old(sleep), stat, sleep)
      ensures forall p | 0 <= p < TASK_MAX && !Ready(old(stat)[p]) && (old(stat)[p] != Slp || p == old(curr)) ::
        Same(p, old(stat), old(sleep), stat, sleep)
      ensures forall p | 0 <= p < TASK_MAX && Ready(old(stat)[p]) :: Ready(stat[p])
      ensures sleep == Ticking(old(stat), old(sleep), old(curr))
      ensures Dispatched(Awake(old(stat), old(sleep), old(curr)), old(curr), old(left), tick, stat, curr, left)
      ensures Charged(old(stat), old(curr), old(left), 1)
    {
      Tick();
      assert forall p | 0 <= p < TASK_MAX && Ready(old(stat)[p]) :: Same(p, old(stat), old(sleep), stat, sleep);
      ghost var mid := stat;
      assert forall p | 0 <= p < TASK_MAX && old(stat)[p] == Pre :: Same(p, old(stat), old(sleep), stat, sleep);
      Dispatch();
      forall p | 0 <= p < TASK_MAX && old(stat)[p] == Pre && stat[p] == Pre
        ensures Pays(old(curr), old(left)[old(curr)], curr, left[curr], p, 1)
      {
        DispatchPays(mid, old(curr), old(left), tick, stat, curr, left, p);
      }
    }

    /** The tasks that stay prepared have paid at least k ticks. */
    ghost predicate Charged(was: Table, c: int, l: Ticks, k: int)
      requires 0 <= c < TASK_MAX
      reads this
    {
      0 <= curr < TASK_MAX &&
      forall p | 0 <= p < TASK_MAX && was[p] == Pre && stat[p] == Pre :: Pays(c, l[c], curr, left[curr], p, k)
    }

    /** task_sleep */
    method Sleep(ticks: int)
      requires Valid() && curr != 0 && ticks > 0
      modifies this`stat, this`curr, this`left, this`sleep, this`sleeping
      ensures Valid() && curr != old(curr) && stat[old(curr)] == Slp && sleep[old(curr)] == ticks
      ensures forall p | 0 <= p < TASK_MAX && old(stat)[p] == Pre && stat[p] == Pre :: Waits(old(curr), curr, p)
      ensures Charged(old(stat), old(curr), old(left), 1)
      ensures var c := old(curr);
        Dispatched(Awake(old(stat)[c := Slp], old(sleep)[c := ticks], c), c, old(left), tick, stat, curr, left)
    {
      stat := stat[curr := Slp];
      sleep := sleep[curr := ticks];
      sleeping := [curr] + sleeping;
      Schedule();
    }

    /** task_block */
    method Block()
      requires Valid() && curr != 0
      modifies this`stat, this`curr, this`left, this`sleep, this`sleeping
      ensures Valid() && curr != old(curr) && stat[old(curr)] == Blk
      ensures forall p | 0 <= p < TASK_MAX && old(stat)[p] == Pre && stat[p] == Pre :: Waits(old(curr), curr, p)
      ensures Charged(old(stat), old(curr), old(left), 1)
      ensures var c := old(curr);
        Dispatched(Awake(old(stat)[c := Blk], old(sleep), c), c, old(left), tick, stat, curr, left)
    {
      stat := stat[curr := Blk];
      Schedule();
    }

    /** task_exit up to the switch: the current task is dead, and a parent that waits for it, or for
        any child, is prepared and told which. */
    method Depart()
      requires Valid() && curr != 0 && stat[ppid[curr]] != Free
      modifies this`stat, this`waitpid
      ensures Leaving() && stat == Dying(old(stat), old(waitpid), curr, ppid[curr])
      ensures waitpid == Told(old(stat), old(waitpid), curr, ppid[curr])
    {
      var c := curr;
      stat := stat[c := Die];
      var prt := ppid[c];
      if stat[prt] == Blk && (waitpid[prt] == c || waitpid[prt] == -1) {
        stat := stat[prt := Pre];
        waitpid := waitpid[prt := c];
      }
    }

    /** task_exit of the current task, which never runs again. */
    method Exit()
      requires Valid() && curr != 0 && stat[ppid[curr]] != Free
      modifies this`stat, this`curr, this`left, this`sleep, this`sleeping, this`waitpid
      ensures Valid() && curr != old(curr) && stat[old(curr)] == Die
      ensures forall p | 0 <= p < TASK_MAX && old(stat)[p] == Pre && stat[p] == Pre :: Waits(old(curr), curr, p)
      ensures Charged(old(stat), old(curr), old(left), 1)
      ensures var c := old(curr);
        && waitpid == Told(old(stat), old(waitpid), c, ppid[c])
        && var w := Awake(Dying(old(stat), old(waitpid), c, ppid[c]), old(sleep), c);
           Dispatched(w, c, old(left), tick, stat, curr, left)
    {
      Depart();
      ghost var stat1, sleep1 := stat, sleep;
      Schedule();
      assert Same(old(curr), stat1, sleep1, stat, sleep);
    }

    /** task_unblock of a task that is blocked, or already prepared. */
    method Unblock(pid: int)
      requires Valid() && 0 <= pid < TASK_MAX && (stat[pid] == Blk || stat[pid] == Pre)
      modifies this`stat
      ensures Valid() && stat == old(stat)[pid := Pre]
    {
      stat := stat[pid := Pre];
    }

    /** _getfree: the lowest free slot. */
    method GetFree() returns (pid: int)
      ensures if pid == -1 then forall i | 0 <= i < TASK_MAX :: stat[i] != Free
              else 0 <= pid < TASK_MAX && stat[pid] == Free && forall i | 0 <= i < pid :: stat[i] != Free
    {
      pid := 0;
      while pid < TASK_MAX
        invariant 0 <= pid <= TASK_MAX && forall i | 0 <= i < pid :: stat[i] != Free
      {
        if stat[pid] == Free {
          return;
        }
        pid := pid + 1;
      }
      pid := -1;
    }

    /** task_create, when the table has room: a prepared task with no parent but task 0, in the lowest
        free slot. */
    method Create() returns (pid: int)
      requires Valid() && HasFree(stat)
      modifies this`stat, this`left, this`tick, this`ppid
      ensures Valid() && 0 <= pid < TASK_MAX
      ensures old(stat)[pid] == Free && forall i | 0 <= i < pid :: old(stat)[i] != Free
      ensures stat == old(stat)[pid := Pre] && ppid == old(ppid)[pid := 0]
      ensures left == old(left)[pid := TASK_TICKS] && tick == old(tick)[pid := TASK_TICKS]
    {
      pid := GetFree();
      stat := stat[pid := Pre];
      left, tick := left[pid := TASK_TICKS], tick[pid := TASK_TICKS];
      ppid := ppid[pid := 0];
    }

    /** task_fork, when the table has room: a child of the current task, prepared, with the ticks its
        parent has. */
    method Fork() returns (pid: int)
      requires Valid() && HasFree(stat)
      modifies this`stat, this`left, this`tick, this`ppid
      ensures Valid() && 0 <= pid < TASK_MAX
      ensures old(stat)[pid] == Free && forall i | 0 <= i < pid :: old(stat)[i] != Free
      ensures stat == old(stat)[pid := Pre] && ppid == old(ppid)[pid := curr]
      ensures left == old(left)[pid := old(left)[curr]] && tick == old(tick)[pid := old(tick)[curr]]
    {
      pid := Create();
      left, tick := left[pid := left[curr]], tick[pid := tick[curr]];
      ppid := ppid[pid := curr];
    }

    /** The loop of task_wait over the table. */
    method HasChild() returns (has: bool)
      requires Valid()
      ensures has <==> LivingChild(stat, ppid, curr)
    {
      has := false;
      for i := 0 to TASK_MAX
        invariant !has && forall j | 0 <= j < i :: !IsChild(stat, ppid, curr, j)
      {
        if stat[i] != Free && stat[i] != Die && ppid[i] == curr {
          assert IsChild(stat, ppid, curr, i);
          return true;
        }
      }
    }

    /** task_wait up to the switch: -ECHILD, or the caller is blocked until a child exits. */
    method Wait(pid: int) returns (ret: int)
      requires Valid() && curr != 0 && (pid == -1 || 0 < pid < TASK_MAX)
      modifies this`stat, this`curr, this`left, this`sleep, this`sleeping, this`waitpid
      ensures Valid()
      ensures ret == 0 <==>
        if pid > 0 then old(stat)[pid] != Free && ppid[pid] == old(curr) else LivingChild(old(stat), ppid, old(curr))
      ensures ret != 0 ==> ret == -ECHILD && unchanged(this)
      ensures ret == 0 ==> curr != old(curr) && stat[old(curr)] == Blk && waitpid == old(waitpid)[old(curr) := pid]
      ensures forall p | 0 <= p < TASK_MAX && old(stat)[p] == Pre && stat[p] == Pre :: Waits(old(curr), curr, p)
      ensures Charged(old(stat), old(curr), old(left), 0)
    {
      var has;
      if pid > 0 {
        has := stat[pid] != Free && ppid[pid] == curr;
      } else {
        has := HasChild();
      }
      if !has {
        return -ECHILD;
      }
      waitpid := waitpid[curr := pid];
      Block();
      ret := 0;
    }

    /** The rest of task_wait: the slot of the child that woke the caller is free again. */
    method Collect() returns (pid: int)
      requires Valid() && 0 <= waitpid[curr] < TASK_MAX && stat[waitpid[curr]] == Die
      modifies this`stat, this`waitpid
      ensures Valid() && pid == old(waitpid)[curr]
      ensures stat == old(stat)[pid := Free] && waitpid == old(waitpid)[curr := 0]
    {
      pid := waitpid[curr];
      waitpid := waitpid[curr := 0];
      stat := stat[pid := Free];
    }

    /** One call that changes who runs or who could. A call is left out where the code would go wrong:
        task 0 giving up the processor, a full table, a parent whose slot is free, a wait that no
        exit has ended. */
    method Do(op: Op)
      requires Valid()
      modifies this
      ensures Valid()
      ensures forall p | 0 <= p < TASK_MAX && old(stat)[p] == Pre && stat[p] == Pre :: Waits(old(curr), curr, p)
      ensures Charged(old(stat), old(curr), old(left), if op.Timer? then 1 else 0)
    {
      match op {
        case Timer => Schedule();
        case DoSleep(ticks) => if curr != 0 && ticks > 0 { Sleep(ticks); }
        case DoBlock => if curr != 0 { Block(); }
        case DoExit => if curr != 0 && stat[ppid[curr]] != Free { Exit(); }
        case DoWait(pid) => if curr != 0 && (pid == -1 || 0 < pid < TASK_MAX) { var _ := Wait(pid); }
        case _ => Fill(op);
      }
    }

    /** The calls that do not switch. */
    method Fill(op: Op)
      requires Valid()
      modifies this
      ensures Valid() && curr == old(curr) && left[curr] == old(left)[curr]
    {
      match op {
        case DoUnblock(pid) =>
          if 0 <= pid < TASK_MAX && stat[pid] == Blk {
            Unblock(pid);
          }
        case DoCreate =>
          var f := GetFree();
          if f != -1 {
            var _ := Create();
          }
        case DoFork =>
          var f := GetFree();
          if f != -1 {
            var _ := Fork();
          }
        case DoCollect =>
          if 0 <= waitpid[curr] < TASK_MAX && stat[waitpid[curr]] == Die {
            var _ := Collect();
          }
        case _ =>
      }
    }

    /** Every run of calls, with the current task, its ticks and the table after each: a task that
        stays prepared from one point to another sees fewer than TASK_MAX - 1 switches in between,
        and fewer timer ticks than TASK_MAX - 1 tasks can use up. */
    method Perform(ops: seq<Op>) returns (ghost cs: seq<int>, ghost ls: seq<int>, ghost ss: seq<Table>)
      requires Valid()
      modifies this
      ensures Valid() && |cs| == |ss| == |ops| + 1
      ensures cs[0] == old(curr) && ss[0] == old(stat) && cs[|ops|] == curr && ss[|ops|] == stat
      ensures forall p, i, j | 0 <= i <= j <= |ops| && Stays(ss, p, i, j) ::
        Switches(cs[i..j + 1]) < TASK_MAX - 1 && Timers(ops[i..j]) < (TASK_MAX - 1) * (TASK_TICKS + 1)
    {
      cs, ls, ss := [curr], [left[curr]], [stat];
      for n := 0 to |ops|
        invariant Valid() && |cs| == |ls| == |ss| == n + 1 && cs[n] == curr && ls[n] == left[curr] && ss[n] == stat
        invariant cs[0] == old(curr) && ss[0] == old(stat) && Traced(cs, ss) && Paid(ops, cs, ls, ss)
      {
        Do(ops[n]);
        cs, ls, ss := cs + [curr], ls + [left[curr]], ss + [stat];
      }
      forall p, i, j | 0 <= i <= j <= |ops| && Stays(ss, p, i, j)
        ensures Switches(cs[i..j + 1]) < TASK_MAX - 1 && Timers(ops[i..j]) < (TASK_MAX - 1) * (TASK_TICKS + 1)
      {
        Served(cs, ss, p, i, j);
        InTime(ops, cs, ls, ss, p, i, j);
      }
    }
  }

  /** After a switch from c to n. */
  lemma Switched(mid: Table, sleep: seq<int>, list: seq<int>, c: int, n: int, stat: Table)
    requires Listed(mid, sleep, list) && 0 <= c < TASK_MAX && 0 <= n < TASK_MAX && mid[n] == Pre && mid[c] != Pre
    requires (forall p | 0 <= p < TASK_MAX && p != c :: mid[p] != Run) && (mid[0] == Run || mid[0] == Pre)
    requires stat == (if mid[c] == Run then mid[c := Pre] else mid)[n := Run]
    ensures Listed(stat, sleep, list) && stat[n] == Run && (forall p | 0 <= p < TASK_MAX && p != n :: stat[p] != Run)
    ensures stat[0] == Run || stat[0] == Pre
    ensures forall p | 0 <= p < TASK_MAX :: stat[p] == mid[p] || (Ready(stat[p]) && Ready(mid[p]))
  {}

  lemma ProgressStart(stat: Table, sleep: seq<int>, curr: int, list: seq<int>)
    requires Listed(stat, sleep, list)
    ensures Progress(stat, sleep, stat, sleep, curr, {}, list)
  {}

  lemma Next(stat: Table, sleep: seq<int>, kept: seq<int>, rest: seq<int>)
    requires rest != [] && Listed(stat, sleep, kept + rest)
    ensures 0 <= rest[0] < TASK_MAX && stat[rest[0]] == Slp && sleep[rest[0]] > 0 && rest[0] !in rest[1..]
    ensures kept + rest == kept + [rest[0]] + rest[1..]
  {
    var list := kept + rest;
    assert list[|kept|] == rest[0];
    assert forall i | 0 <= i < |rest| :: list[|kept| + i] == rest[i];
  }

  /** Sixteen places in a row are all places. */
  lemma All(stat: Table, c: int, j: int)
    requires 0 <= c < TASK_MAX && j >= 0 && forall e | 0 <= e < j :: stat[Slot(c, e)] != Pre
    ensures j >= TASK_MAX ==> NonePrepared(stat)
  {
    if j >= TASK_MAX {
      forall i | 0 <= i < TASK_MAX
        ensures stat[i] != Pre
      {
        var e := (i - c) % TASK_MAX;
        assert Slot(c, e) == i;
      }
    }
  }
}
