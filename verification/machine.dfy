/**
  Physical memory with its frame bitmap, as `tvmm.c` updates them in place.
  Every method is proved to do what the functions of `Paging`, `Spaces` and
  `Teardown` say of the machine's value; `own` is the ghost record of which
  frame holds which table.
*/
module PhysicalMachine {
  import opened Words
  import opened Frames
  import opened FrameBitmaps
  import opened Paging
  import opened Spaces
  import opened Teardown
  import opened PhysBytes

  class Ram {
    const pages: array<Page>
    const bitmap: FrameBitmap
    ghost var own: map<nat, Node>

    ghost function View(): (s: Machine)
      reads this, pages, bitmap
    {
      Machine(pages[..], own, bitmap.View())
    }

    ghost predicate Valid()
      reads this, pages, bitmap, bitmap.bitmap
    {
      bitmap.Valid() && MachineOk(View())
    }

    /** Booted memory with no user space yet; its contents do not matter. */
    constructor (b: FrameBitmap)
      requires b.Valid() && 0 !in b.free
      ensures bitmap == b && fresh(pages) && Valid() && own == map[] && View().frames == b.View()
    {
      bitmap := b;
      pages := new Page[LOW_FRAMES](_ => ZeroPage());
      own := map[];
    }

    /** An entry of a table in the physmap window. */
    method Read(f: nat, i: nat) returns (e: nat)
      requires MemoryOk(pages[..]) && f < LOW_FRAMES && i < ENTRIES
      ensures e == Entry(pages[..], f, i)
    {
      e := pages[f][i];
    }

    method Write(f: nat, i: nat, e: nat)
      requires MemoryOk(pages[..]) && f < LOW_FRAMES && i < ENTRIES
      modifies pages
      ensures pages[..] == SetEntry(old(pages[..]), f, i, e)
    {
      var page: Page := pages[f][i := e];
      pages[f] := page;
    }

    /** Zero frame `c` and make it the table behind slot `i` of `t`. */
    method Wire(t: nat, i: nat, c: nat, flags: nat)
      requires MemoryOk(pages[..]) && t in own && t < LOW_FRAMES && c < LOW_FRAMES && t != c && i < ENTRIES
      modifies `own, pages
      ensures pages[..] == SetEntry(old(pages[..])[c := ZeroPage()], t, i, TableEntry(c, flags))
      ensures own == old(own)[c := Child(old(own)[t], i)]
    {
      hide TableEntry;
      pages[c] := ZeroPage();
      Write(t, i, TableEntry(c, flags));
      own := own[c := Child(own[t], i)];
    }

    /** A low frame from the bitmap, by number; 0 when there is none. */
    method TakeLow() returns (c: nat)
      requires Valid()
      modifies bitmap, bitmap.bitmap
      ensures bitmap.Valid() && pages[..] == old(pages[..]) && own == old(own)
      ensures var v := old(bitmap.View());
              var x := Choice(v, LowCap(v));
              if x < LowCap(v) then c == x && 0 < c < LOW_FRAMES && c !in own && bitmap.View() == Take(v, c)
              else c == 0 && bitmap.View() == v
    {
      LowFrameOk(View());
      hide MachineOk, Choice, FrameBitmap.Tied, WellFormed;
      var phys := bitmap.AllocLow();
      c := phys / PAGE_SIZE;
    }

    /** `tpmm_free` of a frame by number. */
    method GiveFrame(f: nat)
      requires bitmap.Valid()
      modifies bitmap, bitmap.bitmap
      ensures bitmap.Valid() && pages[..] == old(pages[..]) && own == old(own)
      ensures bitmap.View() == Release(old(bitmap.View()), f % TWO32)
    {
      hide FrameBitmap.Valid;
      assert f * PAGE_SIZE / PAGE_SIZE == f;
      bitmap.Free(f * PAGE_SIZE);
    }

    /** The allocating half of `table_ensure`. */
    method FreshTable(t: nat, i: nat, flags: nat) returns (r: Option<nat>)
      requires Valid() && t in own && Depth(own[t]) < 3 && UserSlot(own[t], i) && !Present(Entry(pages[..], t, i))
      modifies this, pages, bitmap, bitmap.bitmap
      ensures Valid() && (View(), r) == Ensure(old(View()), t, i, flags)
    {
      ghost var s := View();
      TableInWindow(s, t);
      EnsureCases(s, t, i, flags);
      hide MachineOk, MemoryOk, Choice, Present, FrameOf, Entry, FrameBitmap.Valid, TableEntry, SetEntry, Ensure;
      var c := TakeLow();
      if c == 0 {
        return None;
      }
      Wire(t, i, c, flags);
      assert View() == Ensure(s, t, i, flags).0;
      r := Some(c);
    }

    /** `table_ensure`: the child table's frame, or None when out of memory. */
    method TableEnsure(t: nat, i: nat, flags: nat) returns (r: Option<nat>)
      requires Valid() && t in own && Depth(own[t]) < 3 && UserSlot(own[t], i)
      modifies this, pages, bitmap, bitmap.bitmap
      ensures Valid() && (View(), r) == Ensure(old(View()), t, i, flags)
    {
      TableInWindow(View(), t);
      EnsureCases(View(), t, i, flags);
      hide MachineOk, Choice, Present, FrameOf, Entry, FrameBitmap.Tied, WellFormed, TableEntry, SetEntry, Ensure;
      var e := Read(t, i);
      if Present(e) {
        return Some(FrameOf(e));
      }
      r := FreshTable(t, i, flags);
    }

    /** `vmm_aspace_map` */
    method Map(root: nat, virt: nat, phys: nat, flags: nat) returns (ok: bool)
      requires Valid() && IsSpace(View(), root)
      modifies this, pages, bitmap, bitmap.bitmap
      ensures Valid() && (View(), ok) == MapPage(old(View()), root, virt, phys, flags)
    {
      var p := PageOf(virt);
      hide MachineOk, FrameBitmap.Tied, WellFormed, Ensure, PageOf, LeafEntry, SetEntry;
      if KernelSlot(p.i4) {
        return false;
      }
      var pdpt := TableEnsure(root, p.i4, flags);
      if pdpt.None? {
        return false;
      }
      var pd := TableEnsure(pdpt.value, p.i3, flags);
      if pd.None? {
        return false;
      }
      var pt := TableEnsure(pd.value, p.i2, flags);
      if pt.None? {
        return false;
      }
      TableInWindow(View(), pt.value);
      LeafWriteKeeps(View(), pt.value, p.i1, LeafEntry(phys, flags));
      Write(pt.value, p.i1, LeafEntry(phys, flags));
      return true;
    }

    /** `table_lookup` */
    method TableLookup(t: nat, i: nat) returns (r: Option<nat>)
      requires Valid() && t in own && i < ENTRIES
      ensures r == Lookup(pages[..], t, i)
      ensures r.Some? && Depth(own[t]) < 3 && UserSlot(own[t], i) ==>
                r.value in own && own[r.value] == Child(own[t], i)
    {
      TableInWindow(View(), t);
      if Depth(own[t]) < 3 && UserSlot(own[t], i) {
        FollowOwned(View(), t, i);
      }
      hide MachineOk, FrameBitmap.Tied, WellFormed, FrameOf;
      var e := Read(t, i);
      if !Present(e) {
        return None;
      }
      return Some(FrameOf(e));
    }

    /** The two lookups every walk starts with. */
    method WalkToPd(root: nat, p: VPage) returns (pd: Option<nat>)
      requires Valid() && IsSpace(View(), root) && UserPage(p)
      ensures pd == Follow(pages[..], Lookup(pages[..], root, p.i4), p.i3)
      ensures pd.Some? ==> pd.value in own && own[pd.value] == Child(Child(Root(root), p.i4), p.i3)
    {
      hide MachineOk, FrameBitmap.Tied, WellFormed, Lookup;
      var pdpt := TableLookup(root, p.i4);
      if pdpt.None? {
        return None;
      }
      assert Depth(own[pdpt.value]) == 1;
      pd := TableLookup(pdpt.value, p.i3);
    }

    /** `vmm_aspace_unmap` */
    method Unmap(root: nat, virt: nat)
      requires Valid() && IsSpace(View(), root)
      modifies pages
      ensures Valid() && View() == UnmapPage(old(View()), root, virt)
    {
      var p := PageOf(virt);
      hide MachineOk, FrameBitmap.Tied, WellFormed, PageOf, SetEntry, Lookup;
      if KernelSlot(p.i4) {
        return;
      }
      var pd := WalkToPd(root, p);
      if pd.None? {
        return;
      }
      assert Depth(Child(Root(root), p.i4)) == 1;
      var pt := TableLookup(pd.value, p.i2);
      if pt.None? {
        return;
      }
      TableInWindow(View(), pt.value);
      LeafWriteKeeps(View(), pt.value, p.i1, 0);
      Write(pt.value, p.i1, 0);
    }

    /** `vmm_aspace_phys` */
    method Phys(root: nat, virt: nat) returns (r: Option<nat>)
      requires Valid() && IsSpace(View(), root)
      ensures r == PhysOf(pages[..], root, virt)
    {
      var p := PageOf(virt);
      hide MachineOk, FrameBitmap.Tied, WellFormed, PageOf, Lookup, FrameOf, Huge, Present;
      if KernelSlot(p.i4) {
        return None;
      }
      var pd := WalkToPd(root, p);
      if pd.None? {
        return None;
      }
      TableInWindow(View(), pd.value);
      var e := Read(pd.value, p.i2);
      if Huge(e) {
        return Some(FrameOf(e) * PAGE_SIZE);
      }
      assert Depth(Child(Root(root), p.i4)) == 1;
      var pt := TableLookup(pd.value, p.i2);
      if pt.None? {
        return None;
      }
      TableInWindow(View(), pt.value);
      var pte := Read(pt.value, p.i1);
      if !Present(pte) {
        return None;
      }
      r := Some(FrameOf(pte) * PAGE_SIZE);
    }

    /** `page_has` */
    method PageGrants(root: nat, virt: nat, write: bool) returns (ok: bool)
      requires Valid() && IsSpace(View(), root) && UserPage(PageOf(virt))
      ensures ok == PageHas(pages[..], root, virt, write)
    {
      var p := PageOf(virt);
      hide MachineOk, FrameBitmap.Tied, WellFormed, PageOf, Lookup, FrameOf, Huge, Grants;
      var pd := WalkToPd(root, p);
      if pd.None? {
        return false;
      }
      TableInWindow(View(), pd.value);
      var e := Read(pd.value, p.i2);
      if Huge(e) {
        return Grants(e, write);
      }
      assert Depth(Child(Root(root), p.i4)) == 1;
      var pt := TableLookup(pd.value, p.i2);
      if pt.None? {
        return false;
      }
      TableInWindow(View(), pt.value);
      var pte := Read(pt.value, p.i1);
      ok := Grants(pte, write);
    }

    /** `vmm_range_user`, checking page by page. */
    method RangeIsUser(root: nat, addr: nat, len: nat, write: bool) returns (ok: bool)
      requires Valid() && IsSpace(View(), root)
      ensures ok == RangeUser(pages[..], root, addr, len, write)
    {
      hide MachineOk, FrameBitmap.Tied, WellFormed, PageOf, PageHas;
      if len == 0 {
        return true;
      }
      if addr < USER_BASE {
        return false;
      }
      if addr > USER_END || len > USER_END - addr {
        return false;
      }
      var p := addr / PAGE_SIZE * PAGE_SIZE;
      var end := addr + len;
      while p < end
        invariant USER_BASE <= p
        invariant RangeUser(pages[..], root, addr, len, write) == PagesHave(pages[..], root, p, end, write)
        decreases end - p
      {
        UserRegionPage(p);
        var has := PageGrants(root, p, write);
        if !has {
          return false;
        }
        p := p + PAGE_SIZE;
      }
      return true;
    }

    /** Zero frame `c` and copy the kernel slots into it. */
    method CopyKernelView(c: nat, kernelRoot: nat)
      requires c < pages.Length
      modifies pages
      ensures pages[..] == old(pages[..])[c := KernelView(old(pages[..]), kernelRoot)]
    {
      pages[c] := KernelView(pages[..], kernelRoot);
    }

    /** The way out of `vmm_aspace_create` when no handle can be allocated. */
    method AbandonView(c: nat, kernelRoot: nat)
      requires bitmap.Valid() && c < pages.Length && c < TWO32
      modifies pages, bitmap, bitmap.bitmap
      ensures bitmap.Valid() && pages[..] == old(pages[..])[c := KernelView(old(pages[..]), kernelRoot)]
      ensures bitmap.View() == Release(old(bitmap.View()), c)
    {
      hide FrameBitmap.Valid, KernelView, Release;
      CopyKernelView(c, kernelRoot);
      GiveFrame(c);
    }

    /** `vmm_aspace_create` */
    method Create(kernelRoot: nat, structOk: bool) returns (r: Option<nat>)
      requires Valid() && kernelRoot < LOW_FRAMES && kernelRoot !in bitmap.free
      modifies this, pages, bitmap, bitmap.bitmap
      ensures Valid() && (View(), r) == CreateSpace(old(View()), kernelRoot, structOk)
    {
      ghost var s := View();
      CreateCases(s, kernelRoot, structOk);
      hide MachineOk, Choice, FrameBitmap.Valid, CreateSpace, KernelView, Release, Take;
      var c := TakeLow();
      if c == 0 {
        return None;
      }
      if !structOk {
        AbandonView(c, kernelRoot);
        return None;
      }
      CopyKernelView(c, kernelRoot);
      own := own[c := Root(c)];
      r := Some(c);
    }

    /** `tmemcpy` / `tmemset` through the physmap, byte by byte. */
    method Store(dst: nat, bs: seq<nat>)
      requires MemoryOk(pages[..]) && dst + |bs| <= WINDOW && AllBytes(bs)
      modifies pages
      ensures pages[..] == PutBytes(old(pages[..]), dst, bs)
    {
      hide SetDigit, MemoryOk;
      var i := 0;
      while i < |bs|
        invariant i <= |bs| && MemoryOk(pages[..])
        invariant pages[..] == PutBytes(old(pages[..]), dst, bs[..i])
      {
        StoreByte(dst + i, bs[i]);
        assert bs[..i + 1][..i] == bs[..i];
        i := i + 1;
      }
      assert bs[..i] == bs;
    }

    method StoreByte(a: nat, b: nat)
      requires MemoryOk(pages[..]) && a < WINDOW && b < 256
      modifies pages
      ensures MemoryOk(pages[..]) && pages[..] == SetByte(old(pages[..]), a, b)
    {
      var w := pages[a / PAGE_SIZE][a % PAGE_SIZE / 8];
      Write(a / PAGE_SIZE, a % PAGE_SIZE / 8, SetDigit(w, a % 8, 256, b));
    }

    /** One slot of the loop in `free_table`; `s` is the machine before teardown. */
    method FreeSlot(table: nat, level: nat, i: nat, ghost s: Machine)
      requires bitmap.Valid() && TreeShape(s) && pages[..] == s.mem && own == s.own && level <= 2 && i < ENTRIES
      requires table in own && Depth(own[table]) + level == 3
      modifies bitmap, bitmap.bitmap
      ensures bitmap.Valid() && pages[..] == s.mem
      ensures bitmap.View() == ReleaseAll(old(bitmap.View()), FreedSlot(s.mem, table, level, i))
      decreases level, 1
    {
      hide FrameBitmap.Valid, Present, FrameOf, Huge, Entry, TreeShape, FreedFrom, MemoryOk, ReleaseAll, Release;
      ShapeStep(s, table, i);
      ghost var v := bitmap.View();
      ReleaseOneMore(v, [], 0);
      var e := Read(table, i);
      if Present(e) {
        FreeBelow(table, level, i, s, e);
        ghost var sub := FreedBelow(s.mem, e, level);
        GiveFrame(FrameOf(e));
        ReleaseOneMore(v, sub, FrameOf(e) % TWO32);
      }
    }

    /** The recursive call of `free_table`, for an entry that leads to a table. */
    method FreeBelow(table: nat, level: nat, i: nat, ghost s: Machine, e: nat)
      requires bitmap.Valid() && TreeShape(s) && pages[..] == s.mem && own == s.own && level <= 2 && i < ENTRIES
      requires table in own && Depth(own[table]) + level == 3 && e == Entry(s.mem, table, i) && Present(e)
      modifies bitmap, bitmap.bitmap
      ensures bitmap.Valid() && pages[..] == s.mem
      ensures bitmap.View() == ReleaseAll(old(bitmap.View()), FreedBelow(s.mem, e, level))
      decreases level, 0
    {
      hide FrameBitmap.Valid, Present, FrameOf, Huge, Entry, TreeShape, FreedFrom, MemoryOk, ReleaseAll, Release;
      ShapeStep(s, table, i);
      ReleaseOneMore(bitmap.View(), [], 0);
      if level > 0 && !Huge(e) {
        FreeTable(FrameOf(e), level - 1, s);
      }
    }

    /** `free_table` */
    method FreeTable(table: nat, level: nat, ghost s: Machine)
      requires bitmap.Valid() && TreeShape(s) && pages[..] == s.mem && own == s.own && level <= 2
      requires table in own && Depth(own[table]) + level == 3
      modifies bitmap, bitmap.bitmap
      ensures bitmap.Valid() && pages[..] == s.mem
      ensures bitmap.View() == ReleaseAll(old(bitmap.View()), FreedFrom(s.mem, table, level, 0))
      decreases level, 2
    {
      hide FrameBitmap.Valid, FreedSlot, FreedFrom, TreeShape, ReleaseAll;
      ghost var v, m := bitmap.View(), s.mem;
      ghost var done: seq<nat> := [];
      var i := 0;
      FreedEnd(m, table, level);
      ReleaseOneMore(v, [], 0);
      while i < ENTRIES
        invariant i <= ENTRIES && bitmap.Valid() && pages[..] == m
        invariant bitmap.View() == ReleaseAll(v, done)
        invariant FreedFrom(m, table, level, 0) == done + FreedFrom(m, table, level, i)
      {
        FreeSlot(table, level, i, s);
        ghost var sub := FreedSlot(m, table, level, i);
        FreedUnfold(m, table, level, i);
        ReleaseAllSplit(v, done, sub);
        assert done + (sub + FreedFrom(m, table, level, i + 1)) == (done + sub) + FreedFrom(m, table, level, i + 1);
        done := done + sub;
        i := i + 1;
      }
      assert done + [] == done;
    }

    /** One slot of the loop in `vmm_aspace_destroy`. */
    method FreeRootSlot(root: nat, i: nat, ghost s: Machine)
      requires bitmap.Valid() && TreeShape(s) && pages[..] == s.mem && own == s.own && IsSpace(s, root) && 1 <= i < 256
      modifies bitmap, bitmap.bitmap
      ensures bitmap.Valid() && pages[..] == s.mem
      ensures bitmap.View() == ReleaseAll(old(bitmap.View()), RootSlot(s.mem, root, i))
    {
      hide FrameBitmap.Valid, FreedFrom, TreeShape, ReleaseAll, Release, Present, FrameOf, Entry, MemoryOk;
      RootStep(s, root, i);
      ReleaseOneMore(bitmap.View(), [], 0);
      var e := Read(root, i);
      if Present(e) {
        FreeTable(FrameOf(e), 2, s);
      }
    }

    /** The loop of `vmm_aspace_destroy` over the user slots. */
    method FreeSlots(root: nat, ghost s: Machine)
      requires bitmap.Valid() && TreeShape(s) && pages[..] == s.mem && own == s.own && IsSpace(s, root)
      modifies bitmap, bitmap.bitmap
      ensures bitmap.Valid() && pages[..] == s.mem
      ensures bitmap.View() == ReleaseAll(old(bitmap.View()), Freed(s.mem, root))
    {
      hide FrameBitmap.Valid, FreedFrom, FreedSlots, RootSlot, TreeShape, ReleaseAll, Release;
      ghost var v, m := bitmap.View(), s.mem;
      ghost var done: seq<nat> := [];
      ReleaseOneMore(v, [], 0);
      var i := 1;
      while i < 256
        invariant 1 <= i <= 256 && bitmap.Valid() && pages[..] == m
        invariant bitmap.View() == ReleaseAll(v, done)
        invariant FreedSlots(m, root, 1) == done + FreedSlots(m, root, i)
      {
        FreeRootSlot(root, i, s);
        SlotsUnfold(m, root, i);
        ghost var sub := RootSlot(m, root, i);
        ReleaseAllSplit(v, done, sub);
        assert done + (sub + FreedSlots(m, root, i + 1)) == (done + sub) + FreedSlots(m, root, i + 1);
        done := done + sub;
        i := i + 1;
      }
      SlotsUnfold(m, root, 256);
      GiveFrame(root);
      ReleaseOneMore(v, done, root % TWO32);
    }

    /** `vmm_aspace_destroy` */
    method Destroy(root: nat, isCurrent: bool, ghost all: map<nat, Node>)
      requires Valid() && IsSpace(View(), root) && FramesOwned(View(), all, root)
      modifies this, bitmap, bitmap.bitmap
      ensures Valid()
      ensures var s := old(View());
              View() == if isCurrent then s
                        else Machine(s.mem, Without(s.own, root), ReleaseAll(s.frames, Freed(s.mem, root)))
    {
      if isCurrent {
        return;
      }
      ghost var s := View();
      DestroyKeeps(s, all, root);
      ShapeOf(s);
      hide FrameBitmap.Valid, MachineOk, FramesOwned, TreeShape, ReleaseAll, Freed, Without;
      FreeSlots(root, s);
      own := Without(own, root);
    }
  }

  /** A frame `tpmm_alloc_low` finds is free, not frame 0, and no table. */
  lemma LowFrameOk(s: Machine)
    requires MachineOk(s)
    ensures var c := Choice(s.frames, LowCap(s.frames));
            c < LowCap(s.frames) ==> 0 < c < LOW_FRAMES && c in s.frames.free && c !in s.own
  {
    ChoiceIsComplete(s.frames, LowCap(s.frames));
  }

  /** The three outcomes of `Ensure`, one equation each. */
  lemma EnsureCases(s: Machine, t: nat, i: nat, flags: nat)
    requires MachineOk(s) && t in s.own && Depth(s.own[t]) < 3 && UserSlot(s.own[t], i)
    ensures var e, cap := Entry(s.mem, t, i), LowCap(s.frames);
            var c, r := Choice(s.frames, cap), Ensure(s, t, i, flags);
            if Present(e) then r == (s, Some(FrameOf(e)))
            else if c >= cap then r == (s, None)
            else
              && r.1 == Some(c)
              && r.0.mem == SetEntry(s.mem[c := ZeroPage()], t, i, TableEntry(c, flags))
              && r.0.own == s.own[c := Child(s.own[t], i)]
              && r.0.frames == Take(s.frames, c)
  {
    LowFrameOk(s);
    hide Choice, Present, FrameOf, TableEntry;
  }

  lemma TableInWindow(s: Machine, t: nat)
    requires MachineOk(s) && t in s.own
    ensures MemoryOk(s.mem) && t < LOW_FRAMES && 0 !in s.frames.free
  {
  }

  /** The outcomes of `CreateSpace`, one equation each. */
  lemma CreateCases(s: Machine, kernelRoot: nat, structOk: bool)
    requires MachineOk(s) && kernelRoot !in s.frames.free
    ensures var cap := LowCap(s.frames);
            var c, r := Choice(s.frames, cap), CreateSpace(s, kernelRoot, structOk);
            && MachineOk(r.0)
            && if c >= cap then r == (s, None)
               else
                 && 0 < c < LOW_FRAMES
                 && r.0.mem == s.mem[c := KernelView(s.mem, kernelRoot)]
                 && (if structOk then
                       r.0.own == s.own[c := Root(c)] && r.0.frames == Take(s.frames, c) && r.1 == Some(c)
                     else
                       r.0.own == s.own && r.0.frames == Release(Take(s.frames, c), c) && r.1 == None)
    ensures |s.mem| == LOW_FRAMES
  {
    LowFrameOk(s);
    CreateKeeps(s, kernelRoot, structOk, kernelRoot, VPage(1, 0, 0, 0));
    hide Choice, Leaf;
  }

  /** Memory and links in order, whatever the state of the frame map. */
  ghost predicate TreeShape(s: Machine) {
    MemoryOk(s.mem) && Linked(s) && forall f :: f in s.own ==> f < LOW_FRAMES
  }

  lemma ShapeStep(s: Machine, t: nat, i: nat)
    requires TreeShape(s) && t in s.own && 1 <= Depth(s.own[t]) <= 3 && i < ENTRIES
    ensures t < LOW_FRAMES && MemoryOk(s.mem)
    ensures var e := Entry(s.mem, t, i);
            Present(e) && Depth(s.own[t]) < 3 ==>
              FrameOf(e) in s.own && Depth(s.own[FrameOf(e)]) == Depth(s.own[t]) + 1
  {
    if Depth(s.own[t]) < 3 {
      assert LinkOk(s, t, i);
    }
  }

  lemma ShapeOf(s: Machine)
    requires MachineOk(s)
    ensures TreeShape(s)
  {
  }

  lemma RootStep(s: Machine, root: nat, i: nat)
    requires TreeShape(s) && IsSpace(s, root) && 1 <= i < 256
    ensures root < LOW_FRAMES && MemoryOk(s.mem)
    ensures var e := Entry(s.mem, root, i);
            Present(e) ==> FrameOf(e) in s.own && Depth(s.own[FrameOf(e)]) == 1
  {
    assert LinkOk(s, root, i);
  }
}
