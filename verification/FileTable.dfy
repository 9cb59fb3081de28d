/** src/kernel/file.c, and fork_fd of src/kernel/task.c: descriptor tables of all tasks and
the open files they share by reference count. */
module FileTable {
  import opened FileSpec

  const O_WRONLY: bv32 := 0x1
  const O_RDWR: bv32 := 0x2
  const O_TRUNC: bv32 := 0x200   // 01000
  const O_APPEND: bv32 := 0x400  // 02000

  /** A file_t. */
  datatype File = File(refer: int, desc: Desc)

  ghost function View(files: map<int, File>): map<int, Desc>
  {
    map f | f in files :: files[f].desc
  }

  /** The slots that point to f. */
  ghost function Holders(slot: Slots, f: int): set<(int, int)>
  {
    set k | k in slot && slot[k] == f
  }

  ghost function Count(slot: Slots, f: int): nat
  {
    |Holders(slot, f)|
  }

  lemma CountAdd(slot: Slots, k: (int, int), f: int, g: int)
    requires k !in slot
    ensures Count(slot[k := f], g) == Count(slot, g) + if g == f then 1 else 0
  {
    if g == f {
      assert Holders(slot[k := f], g) == Holders(slot, g) + {k};
    } else {
      assert Holders(slot[k := f], g) == Holders(slot, g);
    }
  }

  lemma CountRemove(slot: Slots, k: (int, int), g: int)
    requires k in slot
    ensures Count(slot, g) == Count(slot - {k}, g) + if g == slot[k] then 1 else 0
  {
    if g == slot[k] {
      assert Holders(slot, g) == Holders(slot - {k}, g) + {k};
    } else {
      assert Holders(slot, g) == Holders(slot - {k}, g);
    }
  }

  lemma CountPositive(slot: Slots, f: int)
    ensures Count(slot, f) > 0 <==> f in slot.Values
  {
    if Count(slot, f) > 0 {
      var k :| k in Holders(slot, f);
      assert k in slot && slot[k] == f;
    } else {
      assert Holders(slot, f) == {};
      assert forall k | k in slot && slot[k] == f :: k in Holders(slot, f);
    }
  }

  /** Every slot points to a live file, and every live file's refer is the number of slots,
      over all tasks, that point to it. */
  ghost predicate Counted(slot: Slots, files: map<int, File>)
  {
    && (forall k | k in slot :: slot[k] in files)
    && (forall f | f in files :: files[f].refer == Count(slot, f) > 0)
  }

  /** So the live files are exactly those some slot points to. */
  lemma LiveIffHeld(slot: Slots, files: map<int, File>)
    requires Counted(slot, files)
    ensures files.Keys == slot.Values
  {
    forall f
      ensures f in files <==> f in slot.Values
    {
      CountPositive(slot, f);
    }
  }

  /** A new slot for f, counted. */
  lemma AddKeeps(slot: Slots, files: map<int, File>, k: (int, int), f: int, file: File)
    requires Counted(slot, files) && k !in slot
    requires file.refer == 1 + if f in files then files[f].refer else 0
    ensures Counted(slot[k := f], files[f := file])
  {
    var files' := files[f := file];
    CountPositive(slot, f);
    LiveIffHeld(slot, files);
    forall g | g in files'
      ensures files'[g].refer == Count(slot[k := f], g) > 0
    {
      CountAdd(slot, k, f, g);
    }
  }

  /** A slot of f less: f stays while it is counted, and goes with its last slot. */
  lemma RemoveKeeps(slot: Slots, files: map<int, File>, k: (int, int), n: int)
    requires Counted(slot, files) && k in slot && n == files[slot[k]].refer - 1
    ensures n > 0 <==> slot[k] in (slot - {k}).Values
    ensures var f := slot[k];
      Counted(slot - {k}, if n > 0 then files[f := files[f].(refer := n)] else files - {f})
  {
    var f := slot[k];
    var files' := if n > 0 then files[f := files[f].(refer := n)] else files - {f};
    CountRemove(slot, k, f);
    CountPositive(slot - {k}, f);
    forall g | g in files'
      ensures files'[g].refer == Count(slot - {k}, g) > 0
    {
      CountRemove(slot, k, g);
    }
    forall l | l in slot - {k}
      ensures (slot - {k})[l] in files'
    {
      CountPositive(slot - {k}, slot[l]);
    }
  }

  class Tables {
    var slot: Slots
    var files: map<int, File>
    ghost var opens: multiset<int>
    ghost var closes: multiset<int>  // the nodes whose close operation has been called

    ghost predicate Valid()
      reads this
    {
      Counted(slot, files)
    }

    ghost function Abs(): Model
      reads this
    {
      Model(slot, View(files), opens, closes)
    }

    constructor ()
      ensures Valid() && Abs() == Model(map[], map[], multiset{}, multiset{})
    {
      slot, files, opens, closes := map[], map[], multiset{}, multiset{};
    }

    /** fd_get */
    method FdGet(t: int, min: nat) returns (fd: int)
      requires min <= MAX_FILE
      ensures fd < MAX_FILE
      ensures if fd >= 0 then Lowest(slot, t, min, fd) else fd == -EMFILE && Lowest(slot, t, min, MAX_FILE)
    {
      fd := min;
      while fd < MAX_FILE
        invariant min <= fd <= MAX_FILE && forall i | min <= i < fd :: (t, i) in slot
      {
        if (t, fd) !in slot {
          return;
        }
        fd := fd + 1;
      }
      fd := -EMFILE;
    }

    /** file_get, when malloc returns the block a and the table has room; the new file's fields
        are whatever the block held. */
    method FileGet(t: int, a: int, garbage: File, ghost room: int) returns (fd: int)
      requires a !in files && 0 <= room < MAX_FILE && (t, room) !in slot
      modifies this`slot, this`files
      ensures 0 <= fd < MAX_FILE && Lowest(old(slot), t, 0, fd)
      ensures slot == old(slot)[(t, fd) := a] && files == old(files)[a := garbage]
    {
      fd := FdGet(t, 0);
      slot := slot[(t, fd) := a];
      files := files[a := garbage];
    }

    /** file_put */
    method FilePut(t: int, fd: int) returns (ret: int)
      modifies this`slot, this`files
      ensures (t, fd) !in old(slot) ==> ret == -EMFILE && slot == old(slot) && files == old(files)
      ensures (t, fd) in old(slot) ==>
        ret == 0 && slot == old(slot) - {(t, fd)} && files == old(files) - {old(slot)[(t, fd)]}
    {
      if (t, fd) !in slot {
        return -EMFILE;
      }
      files := files - {slot[(t, fd)]};
      slot := slot - {(t, fd)};
      ret := 0;
    }

    /** open: vfs_open gave `found`, an error or a node. Appending without writing is refused,
        and then the slot and the block are given back. */
    method Open(t: int, found: int, flgs: bv32, a: int, garbage: File, ghost room: int)
      returns (ret: int, trunc: bool)
      requires Valid() && a !in files && 0 <= room < MAX_FILE && (t, room) !in slot
      modifies this
      ensures Valid()
      ensures ret >= 0 <==> found >= 0 && (flgs & 3 != 0 || flgs & O_APPEND == 0)
      ensures ret < 0 ==> Abs() == old(Abs()) && files == old(files) && ret == if found < 0 then found else -EINVAL
      ensures ret >= 0 ==> Lowest(old(slot), t, 0, ret) && Abs() == Opened(old(Abs()), (t, ret), a, Desc(found, flgs))
      ensures ret >= 0 ==>
        OnlySlot(old(slot), slot, (t, ret)) && slot[(t, ret)] == a && files[a].desc == Desc(found, flgs)
      ensures trunc <==> found >= 0 && flgs & 3 != 0 && flgs & O_TRUNC != 0
    {
      trunc := false;
      if found < 0 {
        return found, false;
      }
      var fd := FileGet(t, a, garbage, room);
      if flgs & (O_WRONLY | O_RDWR) != 0 {
        trunc := flgs & O_TRUNC != 0;
      } else if flgs & O_APPEND != 0 {
        var _ := FilePut(t, fd);
        assert slot == old(slot) && files == old(files);
        return -EINVAL, false;
      }
      Register(t, fd, a, Desc(found, flgs), old(slot), old(files));
      OpenedSlots(old(Abs()), (t, fd), a, Desc(found, flgs));
      ret := fd;
    }

    /** The new file's refer and other fields are set. */
    method Register(t: int, fd: int, a: int, desc: Desc, ghost slot0: Slots, ghost files0: map<int, File>)
      requires Counted(slot0, files0) && (t, fd) !in slot0 && a !in files0 && a in files
      requires slot == slot0[(t, fd) := a] && files == files0[a := files[a]]
      modifies this`files, this`opens
      ensures Valid() && files == files0[a := File(1, desc)]
      ensures Abs() == Opened(Model(slot0, View(files0), old(opens), closes), (t, fd), a, desc)
    {
      files := files[a := File(1, desc)];
      opens := opens + multiset{desc.node};
      AddKeeps(slot0, files0, (t, fd), a, File(1, desc));
      assert files == files0[a := File(1, desc)];
    }

    /** close: `result` is what the node's close operation returns if it is called. */
    method Close(t: int, fd: int, result: int) returns (ret: int)
      requires Valid()
      modifies this
      ensures Valid()
      ensures (t, fd) !in old(slot) ==> ret == -EBADF && Abs() == old(Abs()) && files == old(files)
      ensures (t, fd) in old(slot) ==>
        && Abs() == Cleared(old(Abs()), (t, fd))
        && ret == if old(slot)[(t, fd)] in slot.Values then 0 else result
      ensures (t, fd) !in slot && OnlySlot(old(slot), slot, (t, fd)) && opens == old(opens)
      ensures closes == old(closes) + LastOf(old(Abs()), (t, fd), slot)
    {
      if (t, fd) !in slot {
        return -EBADF;
      }
      var f := slot[(t, fd)];
      ClearedSlots(Abs(), (t, fd));
      RemoveKeeps(slot, files, (t, fd), files[f].refer - 1);
      files := files[f := files[f].(refer := files[f].refer - 1)];
      if files[f].refer > 0 {
        slot := slot - {(t, fd)};
        return 0;
      }
      closes := closes + multiset{files[f].desc.node};
      files := files - {f};
      assert files == old(files) - {f};
      slot := slot - {(t, fd)};
      ret := result;
    }

    /** dup2 */
    method Dup2(t: int, from: int, to: int) returns (ret: int)
      requires Valid() && 0 <= from < MAX_FILE && 0 <= to < MAX_FILE
      modifies this
      ensures Valid()
      ensures (t, from) !in old(slot) ==> ret == -EBADF
      ensures (t, from) in old(slot) ==> ret == if from == to then -EINVAL else to
      ensures ret < 0 ==> Abs() == old(Abs()) && files == old(files)
      ensures ret >= 0 ==> Abs() == Duplicated(old(Abs()), (t, from), (t, to))
      ensures ret >= 0 ==>
        (t, to) in slot && slot[(t, to)] == old(slot)[(t, from)] && OnlySlot(old(slot), slot, (t, to))
      ensures ret >= 0 ==> opens == old(opens) && closes == old(closes) + LastOf(old(Abs()), (t, to), slot)
    {
      if (t, from) !in slot {
        return -EBADF;
      }
      var file := slot[(t, from)];
      if from == to {
        return -EINVAL;
      }
      if (t, to) in slot {
        var _ := Close(t, to, 0);
      }
      assert slot[(t, from)] == file;
      DuplicatedSlots(old(Abs()), (t, from), (t, to));
      AddSlot(t, to, file);
      ret := to;
    }

    /** `file->refer++; ft[fd] = file`, for a slot that is free. */
    method AddSlot(t: int, fd: int, file: int)
      requires Valid() && file in files && (t, fd) !in slot
      modifies this`slot, this`files
      ensures Valid() && slot == old(slot)[(t, fd) := file] && View(files) == old(View(files))
    {
      AddKeeps(slot, files, (t, fd), file, files[file].(refer := files[file].refer + 1));
      files := files[file := files[file].(refer := files[file].refer + 1)];
      slot := slot[(t, fd) := file];
    }

    /** dup */
    method Dup(t: int, fd: int) returns (ret: int)
      requires Valid() && 0 <= fd < MAX_FILE
      modifies this
      ensures Valid()
      ensures ret >= 0 ==>
        Lowest(old(slot), t, 0, ret) && (t, fd) in old(slot) && Abs() == Duplicated(old(Abs()), (t, fd), (t, ret))
      ensures ret >= 0 ==>
        slot == old(slot)[(t, ret) := old(slot)[(t, fd)]] && opens == old(opens) && closes == old(closes)
      ensures ret < 0 ==> Abs() == old(Abs()) && files == old(files)
      ensures ret < 0 ==>
        if Lowest(slot, t, 0, MAX_FILE) then ret == -EMFILE else ret == -EBADF && (t, fd) !in slot
    {
      var new_ := FdGet(t, 0);
      if new_ < 0 {
        return -EMFILE;
      }
      ret := Dup2(t, fd, new_);
    }

    /** pipe, when the table has room for both ends: two files on one node. */
    method MakePipe(t: int, node: int, a: int, b: int, garbage: File, ghost room0: int, ghost room1: int)
      returns (fd0: int, fd1: int)
      requires Valid() && a !in files && b !in files && a != b
      requires 0 <= room0 < room1 < MAX_FILE && (t, room0) !in slot && (t, room1) !in slot
      modifies this
      ensures Valid() && 0 <= fd0 < fd1 < MAX_FILE && Lowest(old(slot), t, 0, fd0) && Lowest(old(slot), t, fd0 + 1, fd1)
      ensures Abs() == Opened(Opened(old(Abs()), (t, fd0), a, Desc(node, 0)), (t, fd1), b, Desc(node, O_WRONLY))
      ensures slot == old(slot)[(t, fd0) := a][(t, fd1) := b]
      ensures a in files && b in files && files[a].desc == Desc(node, 0) && files[b].desc == Desc(node, O_WRONLY)
    {
      fd0 := FileGet(t, a, garbage, room0);
      Register(t, fd0, a, Desc(node, 0), old(slot), old(files));
      ghost var slot1, files1 := slot, files;
      fd1 := FileGet(t, b, garbage, room1);
      Register(t, fd1, b, Desc(node, O_WRONLY), slot1, files1);
    }

    /** One round of the loop of fork_fd. */
    method ShareSlot(p: int, c: int, i: nat, ghost slot0: Slots)
      requires Valid() && p != c && (c, i) !in slot0 && slot == Shared(slot0, p, c, i)
      modifies this`slot, this`files
      ensures Valid() && slot == Shared(slot0, p, c, i + 1) && View(files) == old(View(files))
    {
      SharedStep(slot0, p, c, i);
      if (p, i) in slot {
        AddSlot(c, i, slot[(p, i)]);
      }
    }

    /** fork_fd */
    method ForkFd(p: int, c: int)
      requires Valid() && p != c && forall i :: (c, i) !in slot
      modifies this`slot, this`files
      ensures Valid() && Abs() == Forked(old(Abs()), p, c)
      ensures Inherited(old(slot), slot, p, c)
    {
      var i := 0;
      while i < MAX_FILE
        invariant 0 <= i <= MAX_FILE && Valid() && slot == Shared(old(slot), p, c, i)
        invariant View(files) == old(View(files))
      {
        ShareSlot(p, c, i, old(slot));
        i := i + 1;
      }
      ForkedSlots(old(Abs()), p, c);
    }
  }
}
