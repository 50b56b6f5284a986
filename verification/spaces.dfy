/**
  Address spaces of `tvmm.c`: creation and the user-pointer check.
*/
module Spaces {
  import opened Words
  import opened Frames
  import opened Paging

  // ---------------------------------------------------------------- creation

  /** The kernel view of `kernelRoot` and empty user slots. */
  function KernelView(m: Memory, kernelRoot: nat): (p: Page)
    ensures |p| == ENTRIES
    ensures forall i :: 0 <= i < ENTRIES ==> p[i] == if KernelSlot(i) then Entry(m, kernelRoot, i) else 0
  {
    seq(ENTRIES, i requires 0 <= i < ENTRIES => if KernelSlot(i) then Entry(m, kernelRoot, i) else 0)
  }

  /** `vmm_aspace_create`; `structOk` says whether the handle could be allocated. */
  function CreateSpace(s: Machine, kernelRoot: nat, structOk: bool): (r: (Machine, Option<nat>))
    requires MachineOk(s)
  {
    var c := LowFrame(s.frames);
    if c.None? then (s, None)
    else
      ChoiceIsComplete(s.frames, LowCap(s.frames));
      var mem := s.mem[c.value := KernelView(s.mem, kernelRoot)];
      if structOk then (Machine(mem, s.own[c.value := Root(c.value)], Take(s.frames, c.value)), c)
      else (Machine(mem, s.own, Release(Take(s.frames, c.value), c.value)), None)
  }

  lemma OtherPagesSame(s: Machine, c: nat, page: Page, own: map<nat, Node>, v: FrameMap)
    requires MachineOk(s) && c !in s.own && c < LOW_FRAMES && |page| == ENTRIES
    requires WellFormed(v) && 0 !in v.free && v.free <= s.frames.free
    requires own == s.own || (own == s.own[c := Root(c)] && c !in v.free && forall i :: 1 <= i < 256 ==> page[i] == 0)
    ensures MachineOk(Machine(s.mem[c := page], own, v))
  {
    var t := Machine(s.mem[c := page], own, v);
    forall f, i | f in t.own && Depth(t.own[f]) < 3 && UserSlot(t.own[f], i) ensures LinkOk(t, f, i) {
      if f != c {
        assert LinkOk(s, f, i);
      }
    }
  }

  /** Replacing a page that is no table leaves every translation alone. */
  lemma OtherPagesSameLeaf(s: Machine, c: nat, page: Page, root: nat, q: VPage)
    requires MachineOk(s) && c !in s.own && c < LOW_FRAMES && IsSpace(s, root) && UserPage(q)
    ensures Leaf(s.mem[c := page], root, q) == Leaf(s.mem, root, q)
  {
    var m := s.mem[c := page];
    forall f, i | f != c ensures Entry(m, f, i) == Entry(s.mem, f, i) {
    }
    hide Present, FrameOf, Entry;
    FollowOwned(s, root, q.i4);
    var a := Lookup(s.mem, root, q.i4);
    if a.Some? {
      FollowOwned(s, a.value, q.i3);
      var b := Lookup(s.mem, a.value, q.i3);
      if b.Some? {
        assert s.own[a.value] == Child(Root(root), q.i4);
        FollowOwned(s, b.value, q.i2);
      }
    }
  }

  /** A new space maps nothing in its user slots, shares the kernel view, and
      leaves every existing space as it was; a failed creation changes nothing. */
  lemma CreateKeeps(s: Machine, kernelRoot: nat, structOk: bool, r: nat, q: VPage)
    requires MachineOk(s) && kernelRoot !in s.frames.free && UserPage(q)
    ensures var (t, c) := CreateSpace(s, kernelRoot, structOk);
            && MachineOk(t)
            && (c.Some? ==> IsSpace(t, c.value) && c.value in s.frames.free && Leaf(t.mem, c.value, q) == 0
                            && forall i :: 0 <= i < ENTRIES && KernelSlot(i) ==>
                                 Entry(t.mem, c.value, i) == Entry(s.mem, kernelRoot, i))
            && (IsSpace(s, r) ==> IsSpace(t, r) && Leaf(t.mem, r, q) == Leaf(s.mem, r, q))
            && (c.None? ==> t.frames.free == s.frames.free && t.own == s.own)
  {
    var (t, c) := CreateSpace(s, kernelRoot, structOk);
    var f := LowFrame(s.frames);
    if f.Some? {
      ChoiceIsComplete(s.frames, LowCap(s.frames));
      assert f.value !in s.own;
      var page := KernelView(s.mem, kernelRoot);
      OtherPagesSame(s, f.value, page, t.own, t.frames);
      if IsSpace(s, r) {
        OtherPagesSameLeaf(s, f.value, page, r, q);
      }
    }
    hide Linked, OwnedOk, Choice;
  }

  /** A space is created if and only if there is a free low frame for its PML4, the
      one that the frame allocator chooses, and memory for its handle. */
  lemma CreateSucceedsIff(s: Machine, kernelRoot: nat, structOk: bool)
    requires MachineOk(s)
    ensures var (t, c) := CreateSpace(s, kernelRoot, structOk);
            && (c.Some? <==> structOk && |LowFree(s.frames)| > 0)
            && (c.Some? ==> c == LowFrame(s.frames) && t.frames == Take(s.frames, c.value)
                            && t.own == s.own[c.value := Root(c.value)])
  {
    LowFreeIff(s.frames);
    hide KernelView, Choice, LowFree;
  }

  // --------------------------------------------------- user-pointer checks

  const USER_BASE: nat := 0x80_0000_0000
  const USER_END: nat := 0x100_0000_0000

  /** `(e & need) == need` for PRESENT, USER and, for a write, WRITE. */
  predicate Grants(e: nat, write: bool) {
    Present(e) && User(e) && (write ==> Writable(e))
  }

  /** `page_has`: only the last-level bits are tested. */
  function PageHas(m: Memory, root: nat, virt: nat, write: bool): (r: bool) {
    var p := PageOf(virt);
    var pd := Follow(m, Lookup(m, root, p.i4), p.i3);
    if pd.None? then false
    else if Huge(Entry(m, pd.value, p.i2)) then Grants(Entry(m, pd.value, p.i2), write)
    else
      var pt := Lookup(m, pd.value, p.i2);
      pt.Some? && Grants(Entry(m, pt.value, p.i1), write)
  }

  /** A user-mode access to page `p` is allowed when every one of the four
      entries on its walk grants it (Intel SDM Vol. 3A, section 4.6). */
  ghost predicate UserAccess(m: Memory, root: nat, p: VPage, write: bool) {
    var a := Lookup(m, root, p.i4);
    var b := Follow(m, a, p.i3);
    var c := Follow(m, b, p.i2);
    && a.Some? && Grants(Entry(m, root, p.i4), write)
    && b.Some? && Grants(Entry(m, a.value, p.i3), write)
    && c.Some? && Grants(Entry(m, b.value, p.i2), write)
    && Grants(Entry(m, c.value, p.i1), write)
  }

  /** Every table entry on the walk of `p` is open to user mode. */
  ghost predicate UpperUser(m: Memory, root: nat, p: VPage) {
    var a := Lookup(m, root, p.i4);
    var b := Follow(m, a, p.i3);
    && a.Some? && User(Entry(m, root, p.i4))
    && b.Some? && User(Entry(m, a.value, p.i3)) && User(Entry(m, b.value, p.i2))
  }

  /** Table entries are always writable, as `table_ensure` makes them. */
  ghost predicate TablesWritable(s: Machine) {
    forall f, i :: f in s.own && Depth(s.own[f]) < 3 && UserSlot(s.own[f], i) && Present(Entry(s.mem, f, i)) ==>
      Writable(Entry(s.mem, f, i))
  }

  /** Every present table entry of this space is open to user mode. */
  ghost predicate TablesUser(s: Machine, root: nat) {
    forall f, i :: f in s.own && RootId(s.own[f]) == root && Depth(s.own[f]) < 3 && UserSlot(s.own[f], i)
                   && Present(Entry(s.mem, f, i)) ==>
      User(Entry(s.mem, f, i))
  }

  lemma PageHasIsLeaf(s: Machine, root: nat, virt: nat, write: bool)
    requires MachineOk(s) && IsSpace(s, root) && UserPage(PageOf(virt))
    ensures PageHas(s.mem, root, virt, write) <==> Grants(Leaf(s.mem, root, PageOf(virt)), write)
  {
    var p := PageOf(virt);
    FollowOwned(s, root, p.i4);
    var a := Lookup(s.mem, root, p.i4);
    if a.Some? {
      FollowOwned(s, a.value, p.i3);
      var b := Lookup(s.mem, a.value, p.i3);
      if b.Some? {
        assert s.own[a.value] == Child(Root(root), p.i4);
        assert LinkOk(s, b.value, p.i2);
      }
    }
    hide MachineOk, PageOf, FrameOf, Huge, User, Writable;
  }

  /** Exactly what testing the leaf alone misses: the access is allowed iff the
      leaf grants it and the tables above are open to user mode. */
  lemma LeafTestIsExact(s: Machine, root: nat, virt: nat, write: bool)
    requires MachineOk(s) && TablesWritable(s) && IsSpace(s, root) && UserPage(PageOf(virt))
    ensures UserAccess(s.mem, root, PageOf(virt), write)
       <==> PageHas(s.mem, root, virt, write) && UpperUser(s.mem, root, PageOf(virt))
  {
    var p := PageOf(virt);
    PageHasIsLeaf(s, root, virt, write);
    FollowOwned(s, root, p.i4);
    var a := Lookup(s.mem, root, p.i4);
    if a.Some? {
      FollowOwned(s, a.value, p.i3);
    }
    hide MachineOk, PageOf, FrameOf, Huge, User, Writable, PageHas;
  }

  lemma EnsureTables(s: Machine, t: nat, i: nat, flags: nat, r: nat)
    requires MachineOk(s) && t in s.own && Depth(s.own[t]) < 3 && UserSlot(s.own[t], i)
    ensures TablesWritable(s) ==> TablesWritable(Ensure(s, t, i, flags).0)
    ensures TablesUser(s, r) && (RootId(s.own[t]) == r ==> User(flags)) ==> TablesUser(Ensure(s, t, i, flags).0, r)
  {
    var u := Ensure(s, t, i, flags).0;
    ChoiceIsComplete(s.frames, LowCap(s.frames));
    if !Present(Entry(s.mem, t, i)) && LowFrame(s.frames).Some? {
      var c := LowFrame(s.frames).value;
      TableEntryFields(c, flags);
      forall f, j ensures Entry(u.mem, f, j) == if f == t && j == i then TableEntry(c, flags)
                                                 else if f == c then 0 else Entry(s.mem, f, j)
      {
        EntryAfterWire(s, t, i, c, flags, f, j);
      }
      hide Present, User, Writable, TableEntry, Entry, Choice, MachineOk;
    }
  }

  lemma LeafWriteTables(s: Machine, t: nat, i: nat, e: nat, r: nat)
    requires MachineOk(s) && t in s.own && Depth(s.own[t]) == 3 && i < ENTRIES
    ensures var u := s.(mem := SetEntry(s.mem, t, i, e));
            (TablesWritable(s) ==> TablesWritable(u)) && (TablesUser(s, r) ==> TablesUser(u, r))
  {
    var u := s.(mem := SetEntry(s.mem, t, i, e));
    forall f, j | f != t ensures Entry(u.mem, f, j) == Entry(s.mem, f, j) {
    }
    hide Present, User, Writable, Entry, MachineOk;
  }

  /** Mapping keeps table entries writable, and those of a space open to user mode
      as long as every mapping in that space carries the USER flag. */
  lemma MapKeepsTables(s: Machine, root: nat, virt: nat, phys: nat, flags: nat, r: nat)
    requires MachineOk(s) && IsSpace(s, root)
    ensures var t := MapPage(s, root, virt, phys, flags).0;
            && (TablesWritable(s) ==> TablesWritable(t))
            && (TablesUser(s, r) && (r == root ==> User(flags)) ==> TablesUser(t, r))
  {
    hide MachineOk, LeafEntry, Ensure, TablesWritable, TablesUser;
    var p := PageOf(virt);
    hide PageOf;
    if !KernelSlot(p.i4) {
      EnsureTables(s, root, p.i4, flags, r);
      var (s1, a) := Ensure(s, root, p.i4, flags);
      if a.Some? {
        assert RootId(s1.own[a.value]) == root;
        EnsureTables(s1, a.value, p.i3, flags, r);
        var (s2, b) := Ensure(s1, a.value, p.i3, flags);
        if b.Some? {
          assert RootId(s2.own[b.value]) == RootId(s1.own[a.value]);
          EnsureTables(s2, b.value, p.i2, flags, r);
          var (s3, c) := Ensure(s2, b.value, p.i2, flags);
          if c.Some? {
            LeafWriteTables(s3, c.value, p.i1, LeafEntry(phys, flags), r);
          }
        }
      }
    }
  }

  /** The loop of `vmm_range_user`: pages from `p` up to `end`. */
  function PagesHave(m: Memory, root: nat, p: nat, end: nat, write: bool): (r: bool)
    decreases end - p
  {
    p >= end || (PageHas(m, root, p, write) && PagesHave(m, root, p + PAGE_SIZE, end, write))
  }

  /** `vmm_range_user` */
  function RangeUser(m: Memory, root: nat, addr: nat, len: nat, write: bool): (r: bool) {
    if len == 0 then true
    else if addr < USER_BASE then false
    else if addr > USER_END || len > USER_END - addr then false
    else PagesHave(m, root, addr / PAGE_SIZE * PAGE_SIZE, addr + len, write)
  }

  /** Addresses in one page have the same indices. */
  lemma SamePage(b: nat, p: nat)
    requires p % PAGE_SIZE == 0 && p <= b < p + PAGE_SIZE
    ensures PageOf(b) == PageOf(p)
  {
    assert b / PAGE_SIZE == p / PAGE_SIZE;
  }

  lemma UserRegionPage(virt: nat)
    requires USER_BASE <= virt < USER_END
    ensures UserPage(PageOf(virt)) && PageOf(virt).i4 == 1
  {
  }

  /** The page loop passes iff every byte from its page-aligned start does. */
  lemma {:induction false} PagesHaveAll(m: Memory, root: nat, p: nat, end: nat, write: bool, b: nat)
    requires p % PAGE_SIZE == 0
    ensures PagesHave(m, root, p, end, write) && p <= b < end ==> PageHas(m, root, b, write)
    decreases end - p
  {
    hide PageHas;
    if p < end {
      PagesHaveAll(m, root, p + PAGE_SIZE, end, write, b);
      if p <= b < p + PAGE_SIZE {
        PageHasSame(m, root, b, p, write);
      }
    }
  }

  lemma PageHasSame(m: Memory, root: nat, b: nat, p: nat, write: bool)
    requires p % PAGE_SIZE == 0 && p <= b < p + PAGE_SIZE
    ensures PageHas(m, root, b, write) == PageHas(m, root, p, write)
  {
    SamePage(b, p);
    hide PageOf, Follow, Lookup, Grants;
  }

  lemma {:induction false} PagesHaveFrom(m: Memory, root: nat, p: nat, end: nat, write: bool, from: nat)
    requires p % PAGE_SIZE == 0 && p <= from < p + PAGE_SIZE && from < end
    requires forall b {:trigger PageHas(m, root, b, write)} :: from <= b < end ==> PageHas(m, root, b, write)
    ensures PagesHave(m, root, p, end, write)
    decreases end - p
  {
    hide PageHas;
    PageHasSame(m, root, from, p, write);
    if p + PAGE_SIZE < end {
      PagesHaveFrom(m, root, p + PAGE_SIZE, end, write, p + PAGE_SIZE);
    }
  }

  /** When every mapping of the space carries the USER flag, the check answers yes iff the
      range is empty, or lies in the user region with every byte accessible at
      user level through all four table levels. */
  lemma RangeUserExact(s: Machine, root: nat, addr: nat, len: nat, write: bool)
    requires MachineOk(s) && IsSpace(s, root) && TablesWritable(s) && TablesUser(s, root)
    ensures RangeUser(s.mem, root, addr, len, write)
       <==> len == 0
            || (USER_BASE <= addr && addr + len <= USER_END
                && forall b :: addr <= b < addr + len ==> UserAccess(s.mem, root, PageOf(b), write))
  {
    hide UserAccess, PageHas, PageOf, MachineOk, TablesUser, TablesWritable, UserPage, PagesHave;
    if len > 0 && USER_BASE <= addr && addr + len <= USER_END {
      forall b | addr <= b < addr + len
        ensures UserAccess(s.mem, root, PageOf(b), write) <==> PageHas(s.mem, root, b, write)
      {
        UserRegionPage(b);
        AccessIsPageHas(s, root, b, write);
      }
      var p := addr / PAGE_SIZE * PAGE_SIZE;
      if RangeUser(s.mem, root, addr, len, write) {
        forall b | addr <= b < addr + len ensures PageHas(s.mem, root, b, write) {
          PagesHaveAll(s.mem, root, p, addr + len, write, b);
        }
      } else if forall b {:trigger PageHas(s.mem, root, b, write)} :: addr <= b < addr + len ==>
        PageHas(s.mem, root, b, write) {
        PagesHaveFrom(s.mem, root, p, addr + len, write, addr);
      }
    }
  }

  lemma AccessIsPageHas(s: Machine, root: nat, virt: nat, write: bool)
    requires MachineOk(s) && IsSpace(s, root) && TablesWritable(s) && TablesUser(s, root) && UserPage(PageOf(virt))
    ensures UserAccess(s.mem, root, PageOf(virt), write) <==> PageHas(s.mem, root, virt, write)
  {
    var p := PageOf(virt);
    LeafTestIsExact(s, root, virt, write);
    PageHasIsLeaf(s, root, virt, write);
    FollowOwned(s, root, p.i4);
    var a := Lookup(s.mem, root, p.i4);
    if a.Some? {
      FollowOwned(s, a.value, p.i3);
    }
    hide MachineOk, PageOf, FrameOf, Huge, User, Writable, PageHas;
  }

  lemma EnsureKeepsEntry(s: Machine, t: nat, i: nat, flags: nat, f: nat, j: nat)
    requires MachineOk(s) && t in s.own && Depth(s.own[t]) < 3 && UserSlot(s.own[t], i)
    requires f in s.own && Present(Entry(s.mem, f, j))
    ensures Entry(Ensure(s, t, i, flags).0.mem, f, j) == Entry(s.mem, f, j)
  {
    ChoiceIsComplete(s.frames, LowCap(s.frames));
    assert f !in s.frames.free;
    hide MachineOk, WireTable, Choice;
    if !Present(Entry(s.mem, t, i)) && LowFrame(s.frames).Some? {
      EntryAfterWire(s, t, i, LowFrame(s.frames).value, flags, f, j);
    }
  }

  /** The PML4 entry of a mapped page: kept if present, else made with the USER
      bit of this mapping. */
  lemma RootEntryAfterMap(s: Machine, root: nat, virt: nat, phys: nat, flags: nat)
    requires MachineOk(s) && IsSpace(s, root) && MapPage(s, root, virt, phys, flags).1
    ensures var i, t := PageOf(virt).i4, MapPage(s, root, virt, phys, flags).0;
            var e, e' := Entry(s.mem, root, i), Entry(t.mem, root, i);
            if Present(e) then e' == e else Present(e') && (User(e') <==> User(flags))
  {
    var p := PageOf(virt);
    hide PageOf;
    RootEntryAfterEnsure(s, root, p.i4, flags);
    hide MachineOk, LeafEntry, Ensure, Entry, User;
    var (s1, a) := Ensure(s, root, p.i4, flags);
    EnsureKeepsEntry(s1, a.value, p.i3, flags, root, p.i4);
    var (s2, b) := Ensure(s1, a.value, p.i3, flags);
    EnsureKeepsEntry(s2, b.value, p.i2, flags, root, p.i4);
    var (s3, c) := Ensure(s2, b.value, p.i2, flags);
    SetEntryElsewhere(s3, c.value, p.i1, LeafEntry(phys, flags), root, p.i4);
  }

  lemma SetEntryElsewhere(s: Machine, t: nat, i: nat, e: nat, f: nat, j: nat)
    requires MachineOk(s) && t in s.own && i < ENTRIES && f != t
    ensures Entry(SetEntry(s.mem, t, i, e), f, j) == Entry(s.mem, f, j)
  {
  }

  lemma RootEntryAfterEnsure(s: Machine, t: nat, i: nat, flags: nat)
    requires MachineOk(s) && t in s.own && Depth(s.own[t]) < 3 && UserSlot(s.own[t], i)
    requires Ensure(s, t, i, flags).1.Some?
    ensures var e, e' := Entry(s.mem, t, i), Entry(Ensure(s, t, i, flags).0.mem, t, i);
            if Present(e) then e' == e else Present(e') && (User(e') <==> User(flags))
  {
    ChoiceIsComplete(s.frames, LowCap(s.frames));
    if !Present(Entry(s.mem, t, i)) {
      var c := LowFrame(s.frames).value;
      EntryAfterWire(s, t, i, c, flags, t, i);
      TableEntryFields(c, flags);
    }
    hide MachineOk, WireTable, Choice, TableEntry, Entry;
  }

  /** Without that condition it fails: a page first mapped without USER leaves a
      closed table above, and a USER page mapped below it passes the check
      although the hardware refuses every user access. */
  lemma ClosedTableFoolsCheck(s: Machine, root: nat, v1: nat, f1: nat, p1: nat, v2: nat, f2: nat, p2: nat)
    requires MachineOk(s) && IsSpace(s, root) && Lookup(s.mem, root, PageOf(v1).i4).None?
    requires PageOf(v1).i4 == PageOf(v2).i4 && !User(f1) && User(f2)
    requires MapPage(s, root, v1, p1, f1).1
    requires MapPage(MapPage(s, root, v1, p1, f1).0, root, v2, p2, f2).1
    ensures var t := MapPage(MapPage(s, root, v1, p1, f1).0, root, v2, p2, f2).0;
            PageHas(t.mem, root, v2, false) && !UserAccess(t.mem, root, PageOf(v2), false)
  {
    var s1 := MapPage(s, root, v1, p1, f1).0;
    var t := MapPage(s1, root, v2, p2, f2).0;
    MapOkIsUser(s1, root, v2, p2, f2);
    MapRefines(s1, root, v2, p2, f2, root, PageOf(v2));
    PageHasIsLeaf(t, root, v2, false);
    LeafEntryFields(p2, f2);
    RootEntryAfterMap(s, root, v1, p1, f1);
    RootEntryAfterMap(s1, root, v2, p2, f2);
    hide MapPage, PageHas, PageOf, Leaf, LeafEntry, User, Present, Writable, MachineOk;
  }

  /** A machine with one empty space, in frame 1, and three free frames. */
  function SmallMachine(): (s: Machine) {
    Machine(seq(LOW_FRAMES, _ => ZeroPage()), map[1 := Root(1)], FrameMap(8, {2, 3, 4}, 0))
  }

  lemma SmallMachineOk()
    ensures MachineOk(SmallMachine()) && IsSpace(SmallMachine(), 1)
    ensures forall i :: Lookup(SmallMachine().mem, 1, i).None?
    ensures |LowFree(SmallMachine().frames)| == 3
  {
    ZeroAbsent();
    hide FrameOf;
    assert LowFree(SmallMachine().frames) == {2, 3, 4};
  }

  /** The page `virt` passes the check after these two mappings, and no user access
      can reach it. */
  ghost predicate Fooled(s: Machine, root: nat, virt: nat)
    requires MachineOk(s) && IsSpace(s, root)
  {
    && MapPage(s, root, virt, 0, 0).1
    && var u := MapPage(s, root, virt, 0, 0).0;
       && MapPage(u, root, virt, 0, 4).1
       && var t := MapPage(u, root, virt, 0, 4).0;
          PageHas(t.mem, root, virt, false) && !UserAccess(t.mem, root, PageOf(virt), false)
  }

  /** With three free low frames this can always be done: map a page of an empty slot
      without USER, then again with USER. */
  lemma RemappedFoolsCheck(s: Machine, root: nat, virt: nat)
    requires MachineOk(s) && IsSpace(s, root) && Lookup(s.mem, root, PageOf(virt).i4).None?
    requires !KernelSlot(PageOf(virt).i4) && UserPage(PageOf(virt)) && |LowFree(s.frames)| >= 3
    ensures Fooled(s, root, virt)
  {
    FlagWords();
    hide MapPage, MachineOk, PageHas, UserAccess, PageOf, Missing, LowFree, Leaf, User, LeafEntry, Present;
    hide UserPage, Lookup;
    hide KernelSlot;
    var p := PageOf(virt);
    MissingAtMost(s.mem, root, p);
    MapSucceedsIff(s, root, virt, 0, 0);
    var u := MapPage(s, root, virt, 0, 0).0;
    MapRefines(s, root, virt, 0, 0, root, p);
    LeafEntryFields(0, 0);
    PresentLeaf(u.mem, root, p);
    MapSucceedsIff(u, root, virt, 0, 4);
    ClosedTableFoolsCheck(s, root, virt, 0, 0, virt, 4, 0);
  }

  lemma FlagWords()
    ensures User(4) && !User(0)
  {
  }

  lemma SmallMachineFooled()
    ensures MachineOk(SmallMachine()) && IsSpace(SmallMachine(), 1) && Fooled(SmallMachine(), 1, USER_BASE)
  {
    hide SmallMachine, MachineOk, IsSpace, PageOf, LowFree, Fooled, Lookup, UserPage;
    SmallMachineOk();
    UserRegionPage(USER_BASE);
    RemappedFoolsCheck(SmallMachine(), 1, USER_BASE);
  }

  lemma MissingAtMost(m: Memory, root: nat, p: VPage)
    ensures Missing(m, root, p) <= 3
  {
  }

  /** A page with a present entry has all its tables. */
  lemma PresentLeaf(m: Memory, root: nat, p: VPage)
    requires Present(Leaf(m, root, p))
    ensures Missing(m, root, p) == 0
  {
    ZeroAbsent();
    hide Entry, FrameOf;
  }
}
