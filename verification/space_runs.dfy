/**
  Address spaces over whole histories: creating, mapping, unmapping and
  destroying, in any order and over any number of spaces, and in between
  anything else that leaves the tables alone, behave like updates of a plain
  table of entries, and the user-pointer check stays exact.
*/
module SpaceRuns {
  import opened Words
  import opened Frames
  import opened Paging
  import opened Spaces
  import opened Teardown

  /** `Other` is the rest of the kernel: it allocates and frees frames and writes
      memory, but neither frees nor writes a table. */
  datatype Op =
    | NewSpace(structOk: bool)
    | MapAt(root: nat, virt: nat, phys: nat, flags: nat)
    | UnmapAt(root: nat, virt: nat)
    | Destroy(root: nat)
    | Other(mem: Memory, frames: FrameMap)

  datatype Outcome = Made(root: nat) | Done | Refused

  /** For each space the entries written so far; other pages hold 0. */
  type Table = map<nat, map<VPage, nat>>

  /** Spaces are used while they exist, and destroyed when their leaf frames are
      their own. */
  ghost predicate Legal(s: Machine, kernelRoot: nat, op: Op) {
    match op
    case NewSpace(_) => true
    case MapAt(root, _, _, _) => IsSpace(s, root)
    case UnmapAt(root, _) => IsSpace(s, root)
    case Destroy(root) => IsSpace(s, root) && exists all :: FramesOwned(s, all, root) && kernelRoot !in all
    case Other(mem, frames) =>
      && MemoryOk(s.mem) && MemoryOk(mem) && WellFormed(frames) && 0 !in frames.free && kernelRoot !in frames.free
      && forall f :: f in s.own ==> f < LOW_FRAMES && mem[f] == s.mem[f] && f !in frames.free
  }

  ghost predicate Ready(s: Machine, kernelRoot: nat) { MachineOk(s) && kernelRoot !in s.frames.free }

  ghost function Step(s: Machine, kernelRoot: nat, op: Op): (r: (Machine, Outcome))
    requires Ready(s, kernelRoot) && Legal(s, kernelRoot, op)
  {
    match op
    case NewSpace(structOk) =>
      var (t, c) := CreateSpace(s, kernelRoot, structOk);
      (t, if c.Some? then Made(c.value) else Refused)
    case MapAt(root, virt, phys, flags) =>
      var (t, ok) := MapPage(s, root, virt, phys, flags);
      (t, if ok then Done else Refused)
    case UnmapAt(root, virt) => (UnmapPage(s, root, virt), Done)
    case Destroy(root) => (Destroyed(s, root), Done)
    case Other(mem, frames) => (Machine(mem, s.own, frames), Done)
  }

  /** The machine after `vmm_aspace_destroy`. */
  function Destroyed(s: Machine, root: nat): (t: Machine) {
    Machine(s.mem, Without(s.own, root), ReleaseAll(s.frames, Freed(s.mem, root)))
  }

  /** The same step on the plain table. */
  function TableStep(a: Table, op: Op, out: Outcome): (r: Table) {
    match op
    case NewSpace(_) => if out.Made? then a[out.root := map[]] else a
    case MapAt(root, virt, phys, flags) => if out.Done? then Put(a, root, PageOf(virt), LeafEntry(phys, flags)) else a
    case UnmapAt(root, virt) => Put(a, root, PageOf(virt), 0)
    case Destroy(root) => a - {root}
    case Other(_, _) => a
  }

  function Put(a: Table, r: nat, q: VPage, e: nat): (t: Table)
    ensures forall x :: x in t <==> x in a
    ensures forall x, y :: EntryIn(t, x, y) == if x == r && y == q && r in a then e else EntryIn(a, x, y)
  {
    if r in a then
      var entries: map<VPage, nat> := a[r][q := e];
      a[r := entries]
    else a
  }

  function EntryIn(a: Table, r: nat, q: VPage): (e: nat) {
    if r in a && q in a[r] then a[r][q] else 0
  }

  /** The trees in memory hold the table's entries, for exactly its spaces. */
  ghost predicate Represents(s: Machine, a: Table) {
    && (forall r :: r in a <==> IsSpace(s, r))
    && (forall r, q :: r in a && UserPage(q) ==> Leaf(s.mem, r, q) == EntryIn(a, r, q))
  }

  // ------------------------------------------------------ frames only go down

  lemma CreateTakes(s: Machine, kernelRoot: nat, structOk: bool)
    requires MachineOk(s)
    ensures CreateSpace(s, kernelRoot, structOk).0.frames.free <= s.frames.free
  {
    ChoiceIsComplete(s.frames, LowCap(s.frames));
    hide Choice, KernelView;
  }

  lemma StepReady(s: Machine, kernelRoot: nat, op: Op)
    requires Ready(s, kernelRoot) && Legal(s, kernelRoot, op)
    ensures Ready(Step(s, kernelRoot, op).0, kernelRoot)
  {
    hide MachineOk, CreateSpace, MapPage, UnmapPage, PageOf;
    var q := VPage(1, 0, 0, 0);
    match op {
      case NewSpace(structOk) =>
        CreateKeeps(s, kernelRoot, structOk, 0, q);
        CreateTakes(s, kernelRoot, structOk);
      case MapAt(root, virt, phys, flags) =>
        MapRefines(s, root, virt, phys, flags, root, q);
        MapTakes(s, root, virt, phys, flags);
      case UnmapAt(root, virt) =>
        UnmapRefines(s, root, virt, root, q);
        UnmapFrames(s, root, virt);
      case Destroy(root) =>
        DestroyReady(s, kernelRoot, root);
      case Other(mem, frames) =>
        OtherReady(s, mem, frames);
    }
  }

  lemma DestroyReady(s: Machine, kernelRoot: nat, root: nat)
    requires Ready(s, kernelRoot) && Legal(s, kernelRoot, Destroy(root))
    ensures Ready(Destroyed(s, root), kernelRoot)
  {
    hide MachineOk, FramesOwned, Without, ReleaseAll, Freed;
    var all :| FramesOwned(s, all, root) && kernelRoot !in all;
    DestroyKeeps(s, all, root);
    DestroyReleases(s, all, root);
  }

  lemma OtherReady(s: Machine, mem: Memory, frames: FrameMap)
    requires MachineOk(s) && MemoryOk(mem) && WellFormed(frames) && 0 !in frames.free
    requires forall f :: f in s.own ==> f < LOW_FRAMES && mem[f] == s.mem[f] && f !in frames.free
    ensures MachineOk(Machine(mem, s.own, frames))
  {
    DataWriteKeeps(s, mem);
    var t, u := Machine(mem, s.own, frames), s.(mem := mem);
    hide Present, FrameOf, Entry, Huge, MemoryOk;
    forall f, i | f in t.own && Depth(t.own[f]) < 3 && UserSlot(t.own[f], i) ensures LinkOk(t, f, i) {
      assert LinkOk(u, f, i);
    }
  }

  lemma DestroyedSpaces(s: Machine, root: nat, r: nat)
    requires MachineOk(s)
    ensures IsSpace(Destroyed(s, root), r) <==> IsSpace(s, r) && r != root
  {
    hide MachineOk, ReleaseAll, Freed;
  }

  lemma UnmapFrames(s: Machine, root: nat, virt: nat)
    requires MachineOk(s) && IsSpace(s, root)
    ensures UnmapPage(s, root, virt).frames == s.frames && UnmapPage(s, root, virt).own == s.own
  {
    hide MachineOk, PtOf, PageOf, SetEntry;
  }

  // -------------------------------------------------------- no stray spaces

  lemma EnsureSpaces(s: Machine, t: nat, i: nat, flags: nat, r: nat)
    requires MachineOk(s) && t in s.own && Depth(s.own[t]) < 3 && UserSlot(s.own[t], i)
    ensures IsSpace(Ensure(s, t, i, flags).0, r) ==> IsSpace(s, r)
  {
    hide Choice, Present, FrameOf, Entry, TableEntry, Linked;
  }

  lemma MapSpaces(s: Machine, root: nat, virt: nat, phys: nat, flags: nat, r: nat)
    requires MachineOk(s) && IsSpace(s, root)
    ensures IsSpace(MapPage(s, root, virt, phys, flags).0, r) ==> IsSpace(s, r)
  {
    hide MachineOk, LeafEntry, Ensure, PageOf, SetEntry;
    var p := PageOf(virt);
    if !KernelSlot(p.i4) {
      EnsureSpaces(s, root, p.i4, flags, r);
      var (s1, a) := Ensure(s, root, p.i4, flags);
      if a.Some? {
        EnsureSpaces(s1, a.value, p.i3, flags, r);
        var (s2, b) := Ensure(s1, a.value, p.i3, flags);
        if b.Some? {
          EnsureSpaces(s2, b.value, p.i2, flags, r);
        }
      }
    }
  }

  lemma CreateSpaces(s: Machine, kernelRoot: nat, structOk: bool, r: nat)
    requires MachineOk(s)
    ensures var (t, c) := CreateSpace(s, kernelRoot, structOk);
            IsSpace(t, r) ==> IsSpace(s, r) || c == Some(r)
  {
    hide Choice, KernelView;
  }

  // ------------------------------------------------------------- refinement

  /** One step of the machine is one step of the table. */
  lemma StepRefines(s: Machine, a: Table, kernelRoot: nat, op: Op)
    requires Ready(s, kernelRoot) && Legal(s, kernelRoot, op) && Represents(s, a)
    ensures var (t, out) := Step(s, kernelRoot, op); Represents(t, TableStep(a, op, out))
  {
    hide MachineOk, CreateSpace, MapPage, UnmapPage, PageOf, Leaf, LeafEntry, Put, UserPage, IsSpace, EntryIn;
    var (t, out) := Step(s, kernelRoot, op);
    var b := TableStep(a, op, out);
    forall r ensures r in b <==> IsSpace(t, r) {
      SpaceAfter(s, a, kernelRoot, op, r);
    }
    forall r, q | r in b && UserPage(q) ensures Leaf(t.mem, r, q) == EntryIn(b, r, q) {
      EntryAfter(s, a, kernelRoot, op, r, q);
    }
  }

  lemma SpaceAfter(s: Machine, a: Table, kernelRoot: nat, op: Op, r: nat)
    requires Ready(s, kernelRoot) && Legal(s, kernelRoot, op) && Represents(s, a)
    ensures var (t, out) := Step(s, kernelRoot, op); r in TableStep(a, op, out) <==> IsSpace(t, r)
  {
    hide MachineOk, CreateSpace, MapPage, UnmapPage, PageOf, Leaf, LeafEntry, Put, EntryIn;
    var q := VPage(1, 0, 0, 0);
    match op {
      case NewSpace(structOk) =>
        CreateKeeps(s, kernelRoot, structOk, r, q);
        CreateSpaces(s, kernelRoot, structOk, r);
      case MapAt(root, virt, phys, flags) =>
        MapSpaces(s, root, virt, phys, flags, r);
        if IsSpace(s, r) {
          MapRefines(s, root, virt, phys, flags, r, q);
        }
      case UnmapAt(root, virt) =>
        UnmapFrames(s, root, virt);
      case Destroy(root) =>
        DestroyedSpaces(s, root, r);
      case Other(mem, frames) =>
    }
  }

  lemma EntryAfter(s: Machine, a: Table, kernelRoot: nat, op: Op, r: nat, q: VPage)
    requires Ready(s, kernelRoot) && Legal(s, kernelRoot, op) && Represents(s, a) && UserPage(q)
    requires var (t, out) := Step(s, kernelRoot, op); r in TableStep(a, op, out)
    ensures var (t, out) := Step(s, kernelRoot, op); Leaf(t.mem, r, q) == EntryIn(TableStep(a, op, out), r, q)
  {
    hide MachineOk, CreateSpace, MapPage, UnmapPage, PageOf, Leaf, LeafEntry, Put, UserPage;
    match op {
      case NewSpace(structOk) =>
        CreateKeeps(s, kernelRoot, structOk, r, q);
        NewIsNew(s, kernelRoot, structOk);
      case MapAt(root, virt, phys, flags) =>
        MapRefines(s, root, virt, phys, flags, r, q);
      case UnmapAt(root, virt) =>
        UnmapRefines(s, root, virt, r, q);
      case Destroy(root) =>
      case Other(mem, frames) =>
        DataWriteSameLeaf(s, mem, r, q);
    }
  }

  lemma NewIsNew(s: Machine, kernelRoot: nat, structOk: bool)
    requires MachineOk(s)
    ensures var c := CreateSpace(s, kernelRoot, structOk).1; c.Some? ==> !IsSpace(s, c.value)
  {
    ChoiceIsComplete(s.frames, LowCap(s.frames));
    hide Choice, KernelView;
  }

  // ----------------------------------------------------------- table entries

  lemma CreateTables(s: Machine, kernelRoot: nat, structOk: bool, r: nat)
    requires MachineOk(s)
    ensures var t := CreateSpace(s, kernelRoot, structOk).0;
            (TablesWritable(s) ==> TablesWritable(t)) && (TablesUser(s, r) ==> TablesUser(t, r))
  {
    ChoiceIsComplete(s.frames, LowCap(s.frames));
    hide Choice, Writable, User, Linked;
    var (t, c) := CreateSpace(s, kernelRoot, structOk);
    forall f, i | f in t.own && Depth(t.own[f]) < 3 && UserSlot(t.own[f], i) && Present(Entry(t.mem, f, i))
      ensures f in s.own && t.own[f] == s.own[f] && Entry(t.mem, f, i) == Entry(s.mem, f, i)
    {
    }
  }

  lemma UnmapTables(s: Machine, root: nat, virt: nat, r: nat)
    requires MachineOk(s) && IsSpace(s, root)
    ensures var t := UnmapPage(s, root, virt);
            (TablesWritable(s) ==> TablesWritable(t)) && (TablesUser(s, r) ==> TablesUser(t, r))
  {
    hide MachineOk, TablesWritable, TablesUser, PageOf, PtOf;
    var p := PageOf(virt);
    var t := PtOf(s.mem, root, p);
    if !KernelSlot(p.i4) && t.Some? {
      PtOwned(s, root, p);
      LeafWriteTables(s, t.value, p.i1, 0, r);
    }
  }

  /** A mapping in this space carries the USER flag. */
  predicate ForUser(op: Op, root: nat) { op.MapAt? && op.root == root ==> User(op.flags) }

  lemma StepTables(s: Machine, kernelRoot: nat, op: Op, r: nat)
    requires Ready(s, kernelRoot) && Legal(s, kernelRoot, op) && TablesWritable(s)
    ensures var t := Step(s, kernelRoot, op).0;
            TablesWritable(t) && (TablesUser(s, r) && ForUser(op, r) ==> TablesUser(t, r))
  {
    hide MachineOk, CreateSpace, MapPage, UnmapPage, TablesWritable, TablesUser, User, Destroyed, FramesOwned, MemoryOk;
    match op {
      case NewSpace(structOk) => CreateTables(s, kernelRoot, structOk, r);
      case MapAt(root, virt, phys, flags) => MapKeepsTables(s, root, virt, phys, flags, r);
      case UnmapAt(root, virt) => UnmapTables(s, root, virt, r);
      case Destroy(root) => FewerTables(s, Destroyed(s, root), root, r);
      case Other(mem, frames) =>
        MachineMemory(s);
        SameTables(s, mem, frames, r);
    }
  }

  lemma FewerTables(s: Machine, t: Machine, root: nat, r: nat)
    requires t == Destroyed(s, root)
    ensures (TablesWritable(s) ==> TablesWritable(t)) && (TablesUser(s, r) ==> TablesUser(t, r))
  {
    hide ReleaseAll, Freed, Present, Writable, User, Entry;
    assert forall f :: f in t.own ==> f in s.own && t.own[f] == s.own[f];
  }

  lemma SameTables(s: Machine, mem: Memory, frames: FrameMap, r: nat)
    requires MemoryOk(mem) && MemoryOk(s.mem) && forall f :: f in s.own ==> f < LOW_FRAMES && mem[f] == s.mem[f]
    ensures var t := Machine(mem, s.own, frames);
            (TablesWritable(s) ==> TablesWritable(t)) && (TablesUser(s, r) ==> TablesUser(t, r))
  {
    forall f, i | f in s.own ensures Entry(mem, f, i) == Entry(s.mem, f, i) {
    }
    hide Entry, Present, Writable, User;
  }

  // ------------------------------------------------------- owners are spaces

  lemma EnsureLive(s: Machine, t: nat, i: nat, flags: nat)
    requires MachineOk(s) && t in s.own && Depth(s.own[t]) < 3 && UserSlot(s.own[t], i) && OwnersLive(s)
    ensures OwnersLive(Ensure(s, t, i, flags).0)
  {
    hide Choice, Present, FrameOf, Entry, TableEntry, Linked;
    if LowFrame(s.frames).Some? {
      LowFrameFacts(s);
    }
  }

  lemma MapLive(s: Machine, root: nat, virt: nat, phys: nat, flags: nat)
    requires MachineOk(s) && IsSpace(s, root) && OwnersLive(s)
    ensures OwnersLive(MapPage(s, root, virt, phys, flags).0)
  {
    hide MachineOk, LeafEntry, Ensure, PageOf, SetEntry, OwnersLive;
    var p := PageOf(virt);
    if !KernelSlot(p.i4) {
      EnsureLive(s, root, p.i4, flags);
      var (s1, a) := Ensure(s, root, p.i4, flags);
      if a.Some? {
        EnsureLive(s1, a.value, p.i3, flags);
        var (s2, b) := Ensure(s1, a.value, p.i3, flags);
        if b.Some? {
          EnsureLive(s2, b.value, p.i2, flags);
          var (s3, c) := Ensure(s2, b.value, p.i2, flags);
          if c.Some? {
            SameOwners(s3, MapPage(s, root, virt, phys, flags).0);
          }
        }
      }
    }
  }

  lemma SameOwners(s: Machine, t: Machine)
    requires OwnersLive(s) && t.own == s.own
    ensures OwnersLive(t)
  {
  }

  lemma StepLive(s: Machine, kernelRoot: nat, op: Op)
    requires Ready(s, kernelRoot) && Legal(s, kernelRoot, op) && OwnersLive(s)
    ensures OwnersLive(Step(s, kernelRoot, op).0)
  {
    hide MachineOk, CreateSpace, MapPage, UnmapPage, OwnersLive, Destroyed, FramesOwned, MemoryOk;
    match op {
      case NewSpace(structOk) => CreateLive(s, kernelRoot, structOk);
      case MapAt(root, virt, phys, flags) => MapLive(s, root, virt, phys, flags);
      case UnmapAt(root, virt) =>
        UnmapFrames(s, root, virt);
        SameOwners(s, UnmapPage(s, root, virt));
      case Destroy(root) => DestroyedLive(s, root);
      case Other(mem, frames) => SameOwners(s, Machine(mem, s.own, frames));
    }
  }

  lemma CreateLive(s: Machine, kernelRoot: nat, structOk: bool)
    requires MachineOk(s) && OwnersLive(s)
    ensures OwnersLive(CreateSpace(s, kernelRoot, structOk).0)
  {
    ChoiceIsComplete(s.frames, LowCap(s.frames));
    hide Choice, KernelView, Linked;
  }

  lemma DestroyedLive(s: Machine, root: nat)
    requires OwnersLive(s)
    ensures OwnersLive(Destroyed(s, root))
  {
    hide ReleaseAll, Freed;
  }

  // --------------------------------------------------------------- histories

  /** Doing `ops` leads machine `s` and table `a` to `t` and `b`. */
  ghost predicate History(s: Machine, a: Table, kernelRoot: nat, ops: seq<Op>, t: Machine, b: Table)
    requires Ready(s, kernelRoot)
    decreases |ops|
  {
    if ops == [] then t == s && b == a
    else
      && Legal(s, kernelRoot, ops[0])
      && var (u, out) := Step(s, kernelRoot, ops[0]);
         StepReady(s, kernelRoot, ops[0]);
         History(u, TableStep(a, ops[0], out), kernelRoot, ops[1..], t, b)
  }

  lemma {:induction false} HistoryRefines(s: Machine, a: Table, kernelRoot: nat, ops: seq<Op>, t: Machine, b: Table,
                                          r: nat)
    requires Ready(s, kernelRoot) && History(s, a, kernelRoot, ops, t, b) && Represents(s, a) && TablesWritable(s) &&
             OwnersLive(s)
    ensures Ready(t, kernelRoot) && Represents(t, b) && TablesWritable(t) && OwnersLive(t)
    ensures TablesUser(s, r) && (forall op :: op in ops ==> ForUser(op, r)) ==> TablesUser(t, r)
    decreases |ops|
  {
    hide Ready, Represents, TablesWritable, TablesUser, Step, TableStep, Legal, ForUser, OwnersLive;
    if ops != [] {
      var (u, out) := Step(s, kernelRoot, ops[0]);
      StepReady(s, kernelRoot, ops[0]);
      StepRefines(s, a, kernelRoot, ops[0]);
      StepTables(s, kernelRoot, ops[0], r);
      StepLive(s, kernelRoot, ops[0]);
      HistoryRefines(u, TableStep(a, ops[0], out), kernelRoot, ops[1..], t, b, r);
      assert forall op :: op in ops[1..] ==> op in ops;
    }
  }

  /** A booted machine: memory and frames in order, no space yet. */
  ghost predicate Booted(s: Machine, kernelRoot: nat) { Ready(s, kernelRoot) && s.own == map[] }

  lemma BootedIsEmpty(s: Machine, kernelRoot: nat, root: nat)
    requires Booted(s, kernelRoot)
    ensures Ready(s, kernelRoot) && Represents(s, map[]) && TablesWritable(s) && TablesUser(s, root) && OwnersLive(s)
  {
  }

  /** After every history from boot, `vmm_aspace_phys` answers from the plain table
      of entries: the last frame mapped there and not unmapped since. */
  lemma TranslationIsTable(s: Machine, kernelRoot: nat, ops: seq<Op>, t: Machine, b: Table, root: nat, virt: nat)
    requires Booted(s, kernelRoot) && History(s, map[], kernelRoot, ops, t, b) && root in b
    ensures var e := EntryIn(b, root, PageOf(virt));
            PhysOf(t.mem, root, virt)
              == if !KernelSlot(PageOf(virt).i4) && Present(e) then Some(FrameOf(e) * PAGE_SIZE) else None
  {
    hide Booted, History, MachineOk, Leaf, PhysOf, PageOf, EntryIn, Present, FrameOf, TablesWritable, TablesUser;
    BootedIsEmpty(s, kernelRoot, root);
    HistoryRefines(s, map[], kernelRoot, ops, t, b, root);
    PhysIsLeaf(t, root, virt);
  }

  /** After every history from boot in which all mappings of this space carry the
      USER flag, the user-pointer check is exact for it, although it tests only
      last-level bits. */
  lemma CheckIsExact(s: Machine, kernelRoot: nat, ops: seq<Op>, t: Machine, b: Table,
                     root: nat, addr: nat, len: nat, write: bool)
    requires Booted(s, kernelRoot) && History(s, map[], kernelRoot, ops, t, b) && root in b
    requires forall op :: op in ops ==> ForUser(op, root)
    ensures RangeUser(t.mem, root, addr, len, write)
       <==> len == 0
            || (USER_BASE <= addr && addr + len <= USER_END
                && forall x :: addr <= x < addr + len ==> UserAccess(t.mem, root, PageOf(x), write))
  {
    hide Booted, History, MachineOk, Leaf, RangeUser, UserAccess, PageOf, EntryIn, ForUser, TablesWritable, TablesUser;
    BootedIsEmpty(s, kernelRoot, root);
    HistoryRefines(s, map[], kernelRoot, ops, t, b, root);
    RangeUserExact(t, root, addr, len, write);
  }
}
