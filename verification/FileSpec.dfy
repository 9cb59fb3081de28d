/** Descriptor tables without reference counts: a file is open as long as some slot of some
task points to it, and it is closed when the last such slot is cleared. */
module FileSpec {
  const MAX_FILE := 16
  const EBADF := 9
  const EINVAL := 22
  const EMFILE := 24

  /** The node and flags a file was opened with. */
  datatype Desc = Desc(node: int, flgs: bv32)

  /** The non-null entries of all files arrays: (task, descriptor) to address of the file. */
  type Slots = map<(int, int), int>

  /** All slots, the open files, and the nodes opened and closed so far. */
  datatype Model = Model(slot: Slots, open: map<int, Desc>, opens: multiset<int>, closes: multiset<int>)

  /** Slot k is pointed at the new file a. */
  ghost function Opened(m: Model, k: (int, int), a: int, d: Desc): Model
  {
    m.(slot := m.slot[k := a], open := m.open[a := d], opens := m.opens + multiset{d.node})
  }

  /** Slot k is cleared. */
  ghost function Cleared(m: Model, k: (int, int)): Model
    requires k in m.slot
  {
    var f, slot' := m.slot[k], m.slot - {k};
    if f in slot'.Values || f !in m.open then m.(slot := slot')
    else m.(slot := slot', open := m.open - {f}, closes := m.closes + multiset{m.open[f].node})
  }

  /** Slot k is pointed at the file of slot j, and cleared first if need be. */
  ghost function Duplicated(m: Model, j: (int, int), k: (int, int)): Model
    requires j in m.slot
  {
    var m' := if k in m.slot then Cleared(m, k) else m;
    m'.(slot := m'.slot[k := m.slot[j]])
  }

  /** The first n slots of task p are given to task c as well. */
  ghost function Shared(slot: Slots, p: int, c: int, n: nat): Slots
  {
    slot + map i | 0 <= i < n && (p, i) in slot :: (c, i) := slot[(p, i)]
  }

  lemma SharedStep(slot: Slots, p: int, c: int, i: nat)
    requires p != c && (c, i) !in slot
    ensures var s := Shared(slot, p, c, i);
      && (c, i) !in s && ((p, i) in s <==> (p, i) in slot) && ((p, i) in s ==> s[(p, i)] == slot[(p, i)])
      && Shared(slot, p, c, i + 1) == if (p, i) in slot then s[(c, i) := slot[(p, i)]] else s
  {}

  ghost function Forked(m: Model, p: int, c: int): Model
  {
    m.(slot := Shared(m.slot, p, c, MAX_FILE))
  }

  /** The lowest free descriptor of t from min on, or MAX_FILE. */
  ghost predicate Lowest(slot: Slots, t: int, min: int, fd: int)
  {
    min <= fd <= MAX_FILE && (fd < MAX_FILE ==> (t, fd) !in slot) && forall i | min <= i < fd :: (t, i) in slot
  }

  // ---------- slot by slot ----------

  /** All slots but k are as they were. */
  ghost predicate OnlySlot(slot: Slots, slot': Slots, k: (int, int))
  {
    forall l | l != k :: (l in slot' <==> l in slot) && (l in slot ==> slot'[l] == slot[l])
  }

  /** The nodes of the files of slot k that nobody else has, once the slots are slot'. */
  ghost function LastOf(m: Model, k: (int, int), slot': Slots): multiset<int>
  {
    if k in m.slot && m.slot[k] in m.open && m.slot[k] !in slot'.Values then multiset{m.open[m.slot[k]].node}
    else multiset{}
  }

  lemma OpenedSlots(m: Model, k: (int, int), a: int, d: Desc)
    ensures var r := Opened(m, k, a, d);
      && OnlySlot(m.slot, r.slot, k) && k in r.slot && r.slot[k] == a
      && a in r.open && r.open[a] == d && r.closes == m.closes && r.opens == m.opens + multiset{d.node}
      && forall f | f != a :: (f in r.open <==> f in m.open) && (f in m.open ==> r.open[f] == m.open[f])
  {}

  lemma ClearedSlots(m: Model, k: (int, int))
    requires k in m.slot
    ensures var r := Cleared(m, k);
      && OnlySlot(m.slot, r.slot, k) && k !in r.slot
      && r.opens == m.opens && r.closes == m.closes + LastOf(m, k, r.slot)
      && forall f | f in m.open :: (f in r.open <==> f != m.slot[k] || f in r.slot.Values)
                                   && (f in r.open ==> r.open[f] == m.open[f])
  {}

  /** dup2 points slot k at the file of slot j and touches no other slot; the file that was in slot k
      is closed if nobody else has it. */
  lemma DuplicatedSlots(m: Model, j: (int, int), k: (int, int))
    requires j in m.slot && j != k
    ensures var r := Duplicated(m, j, k);
      && OnlySlot(m.slot, r.slot, k) && k in r.slot && r.slot[k] == m.slot[j]
      && r.opens == m.opens && r.closes == m.closes + LastOf(m, k, r.slot)
      && forall f | f in m.open :: (f in r.open <==> k !in m.slot || f != m.slot[k] || f in r.slot.Values)
                                   && (f in r.open ==> r.open[f] == m.open[f])
  {
    var r := Duplicated(m, j, k);
    assert r.slot[j] == m.slot[j];
    if k in m.slot {
      var c := Cleared(m, k);
      ClearedSlots(m, k);
      assert c.slot[j] == m.slot[j];
      assert k !in c.slot && r.slot == c.slot[k := m.slot[j]];
      SharedValue(c.slot, k, m.slot[j]);
    }
  }

  /** Task c has the slots that p had, and the slots of all others are as they were. */
  ghost predicate Inherited(slot: Slots, slot': Slots, p: int, c: int)
  {
    && (forall i :: (c, i) in slot' <==> 0 <= i < MAX_FILE && (p, i) in slot)
    && (forall i | (c, i) in slot' && (p, i) in slot :: slot'[(c, i)] == slot[(p, i)])
    && (forall t, i | t != c ::
          ((t, i) in slot' <==> (t, i) in slot) && ((t, i) in slot ==> slot'[(t, i)] == slot[(t, i)]))
  }

  lemma ForkedSlots(m: Model, p: int, c: int)
    requires p != c && forall i :: (c, i) !in m.slot
    ensures var r := Forked(m, p, c);
      Inherited(m.slot, r.slot, p, c) && r.open == m.open && r.opens == m.opens && r.closes == m.closes
  {}

  // ---------- what every run keeps ----------

  ghost function OpenOn(open: map<int, Desc>, n: int): set<int>
  {
    set f | f in open && open[f].node == n
  }

  /** The open files are those some slot points to, and each was opened once more than closed. */
  ghost predicate Inv(m: Model)
  {
    && m.open.Keys == m.slot.Values
    && forall n :: m.opens[n] == m.closes[n] + |OpenOn(m.open, n)|
  }

  lemma OpenedKeeps(m: Model, k: (int, int), a: int, d: Desc)
    requires Inv(m) && k !in m.slot && a !in m.open
    ensures Inv(Opened(m, k, a, d))
  {
    var r := Opened(m, k, a, d);
    assert k in r.slot;
    assert forall l | l in m.slot :: r.slot[l] == m.slot[l];
    forall n
      ensures r.opens[n] == r.closes[n] + |OpenOn(r.open, n)|
    {
      if n == d.node {
        assert OpenOn(r.open, n) == OpenOn(m.open, n) + {a};
      } else {
        assert OpenOn(r.open, n) == OpenOn(m.open, n);
      }
    }
  }

  /** Clearing a slot takes its file out of the slots only if no other slot has it. */
  lemma ClearedValues(slot: Slots, k: (int, int))
    requires k in slot
    ensures slot.Values == (slot - {k}).Values + {slot[k]}
  {
    forall f | f in slot.Values && f != slot[k]
      ensures f in (slot - {k}).Values
    {
      var l :| l in slot && slot[l] == f;
      assert l in slot - {k};
    }
  }

  lemma OneLess(open: map<int, Desc>, f: int, n: int)
    requires f in open
    ensures |OpenOn(open, n)| == |OpenOn(open - {f}, n)| + if open[f].node == n then 1 else 0
  {
    if open[f].node == n {
      assert OpenOn(open, n) == OpenOn(open - {f}, n) + {f};
    } else {
      assert OpenOn(open, n) == OpenOn(open - {f}, n);
    }
  }

  lemma ClearedKeeps(m: Model, k: (int, int))
    requires Inv(m) && k in m.slot
    ensures m.slot[k] in m.open && Inv(Cleared(m, k))
  {
    var f := m.slot[k];
    assert f in m.slot.Values;
    var r := Cleared(m, k);
    ClearedValues(m.slot, k);
    if f !in r.slot.Values {
      forall n
        ensures r.opens[n] == r.closes[n] + |OpenOn(r.open, n)|
      {
        OneLess(m.open, f, n);
      }
    }
  }

  /** A slot is pointed at a file that is open already. */
  lemma SharedValue(slot: Slots, k: (int, int), f: int)
    requires f in slot.Values && k !in slot
    ensures slot[k := f].Values == slot.Values
  {
    assert forall l | l in slot :: slot[k := f][l] == slot[l];
    assert k in slot[k := f];
  }

  lemma DuplicatedKeeps(m: Model, j: (int, int), k: (int, int))
    requires Inv(m) && j in m.slot && j != k
    ensures Inv(Duplicated(m, j, k))
  {
    if k in m.slot {
      ClearedKeeps(m, k);
      assert j in Cleared(m, k).slot;
      SharedValue(Cleared(m, k).slot, k, m.slot[j]);
    } else {
      SharedValue(m.slot, k, m.slot[j]);
    }
  }

  lemma ForkedKeeps(m: Model, p: int, c: int)
    requires Inv(m) && forall i :: (c, i) !in m.slot
    ensures Inv(Forked(m, p, c))
  {
    var r := Forked(m, p, c);
    assert forall l | l in m.slot :: l in r.slot && r.slot[l] == m.slot[l];
    forall l | l in r.slot
      ensures r.slot[l] in m.slot.Values
    {
      assert l in m.slot || (l.0 == c && r.slot[l] == m.slot[(p, l.1)]);
    }
  }

  // ---------- runs ----------

  datatype Event =
    | Open(task: int, fd: int, file: int, desc: Desc)
    | Close(task: int, fd: int)
    | Dup2(task: int, from: int, to: int)
    | Fork(parent: int, child: int)

  /** What makes an event happen: open takes a free slot and a block that is not in use, dup2
      and close find their slot in use, and a child starts with an empty table. */
  ghost predicate Enabled(m: Model, e: Event)
  {
    match e
    case Open(t, fd, a, _) => (t, fd) !in m.slot && a !in m.open
    case Close(t, fd) => (t, fd) in m.slot
    case Dup2(t, from, to) => (t, from) in m.slot && from != to
    case Fork(_, c) => forall i :: (c, i) !in m.slot
  }

  ghost function Step(m: Model, e: Event): Model
    requires Enabled(m, e)
  {
    match e
    case Open(t, fd, a, d) => Opened(m, (t, fd), a, d)
    case Close(t, fd) => Cleared(m, (t, fd))
    case Dup2(t, from, to) => Duplicated(m, (t, from), (t, to))
    case Fork(p, c) => Forked(m, p, c)
  }

  ghost predicate Run(ms: seq<Model>, es: seq<Event>)
  {
    && |ms| == |es| + 1 && ms[0] == Model(map[], map[], multiset{}, multiset{})
    && forall i | 0 <= i < |es| ::
         Enabled(ms[i], es[i]) && ms[i + 1] == Step(ms[i], es[i])
  }

  /** In every run, the open files are at all times those some slot points to, no slot
      dangles, and each opening of a node is matched by one closing or one open file. */
  lemma {:induction false} RunInv(ms: seq<Model>, es: seq<Event>, i: nat)
    requires Run(ms, es) && i < |ms|
    ensures Inv(ms[i])
    decreases i
  {
    if i == 0 {
      forall n
        ensures |OpenOn(ms[0].open, n)| == 0
      {
        assert OpenOn(ms[0].open, n) == {};
      }
    } else {
      RunInv(ms, es, i - 1);
      var m := ms[i - 1];
      match es[i - 1]
      case Open(t, fd, a, d) => OpenedKeeps(m, (t, fd), a, d);
      case Close(t, fd) => ClearedKeeps(m, (t, fd));
      case Dup2(t, from, to) => DuplicatedKeeps(m, (t, from), (t, to));
      case Fork(p, c) => ForkedKeeps(m, p, c);
    }
  }

  /** When every descriptor of every task has been closed, every node that was opened has been
      closed as often as it was opened. */
  lemma AllClosed(ms: seq<Model>, es: seq<Event>, i: nat)
    requires Run(ms, es) && i < |ms| && ms[i].slot == map[]
    ensures ms[i].open == map[] && ms[i].opens == ms[i].closes
  {
    RunInv(ms, es, i);
    var m := ms[i];
    assert m.slot.Values == {};
    assert m.open == map[];
    forall n
      ensures m.opens[n] == m.closes[n]
    {
      assert OpenOn(m.open, n) == {};
    }
  }
}
