/** When a segment is loaded, and why it is refused otherwise. */
module ElfSuccess {
  import opened Words
  import opened Frames
  import opened FrameChoice
  import opened Paging
  import opened PagingBits
  import opened Spaces
  import opened ElfParse
  import opened ElfLoad

  // ------------------------------------------------------------- page flags

  /** The page flags of a segment, bit by bit: USER, WRITE for W, no-execute without X. */
  lemma FlagsOfBits(g: Segment, k: nat)
    ensures Bit(FlagsOf(g), k) == (k == 2 || (k == 1 && g.writable) || (k == 63 && !g.executable))
  {
    var lo, hi := USER_BIT + (if g.writable then WRITE_BIT else 0), if g.executable then 0 else 2048;
    assert FlagsOf(g) == Pack(lo, 0, hi);
    PackBits(lo, 0, hi, k);
    LowFlags(lo, k);
    ZeroDigits(k);
    if k >= 12 {
      ZeroDigits(k - 12);
    }
    if k >= 52 {
      ZeroDigits(k - 52);
      assert Pow2(11) == 2048;
      PowerBit(11, k - 52);
    }
    hide Digit;
  }

  lemma LowFlags(lo: nat, k: nat)
    requires lo == 4 || lo == 6
    ensures Bit(lo, k) == (k == 2 || (k == 1 && lo == 6))
  {
    if k >= 2 {
      assert Digit(lo, k, 2) == Digit(lo / 2, k - 1, 2) == Digit(lo / 2 / 2, k - 2, 2);
      if k > 2 {
        assert Digit(lo / 2 / 2, k - 2, 2) == Digit(0, k - 3, 2);
        ZeroDigits(k - 3);
      }
    }
  }

  // --------------------------------------------------------------- its frames

  lemma NeverJoins(v: FrameMap, cap: nat, n: nat)
    requires 0 !in v.free
    ensures !Joins(v, cap, n)
  {
    hide TopRun;
    assert forall m: nat :: m > 0 && FreeRun(v.free, 0, m) ==> 0 in v.free;
  }

  /** A run of low frames is found if and only if it is not empty and there is one
      wholly above the hint or wholly below it; it is the lowest of those. */
  lemma LowRunIff(s: Machine, n: nat)
    requires MachineOk(s)
    ensures var v, cap, r := s.frames, LowCap(s.frames), LowRun(s.frames, n);
            var end := Min(v.hint, cap);
            && (r.Some? <==> n > 0 && (AnyRun(v.free, v.hint, cap, n) || AnyRun(v.free, 0, end, n)))
            && (r.Some? ==> if AnyRun(v.free, v.hint, cap, n) then IsLowestRun(v.free, v.hint, cap, n, r.value)
                            else IsLowestRun(v.free, 0, end, n, r.value))
  {
    hide ContigScan, LowCap, TopRun, IsLowestRun;
    var v, cap := s.frames, LowCap(s.frames);
    if n > 0 {
      NeverJoins(v, cap, n);
      ContigIsFirst(v, cap, n);
    }
  }

  // ------------------------------------------------------------ mapped pages

  /** Some page of the segment has a translation. */
  ghost predicate PageTaken(s: Machine, root: nat, g: Segment)
    requires InUserRegion(g)
  {
    exists p: nat :: p < PageCount(g) && Present(Leaf(s.mem, root, SegPage(g, p)))
  }

  lemma {:induction false} AnyMappedIff(s: Machine, root: nat, g: Segment, n: nat)
    requires MachineOk(s) && IsSpace(s, root) && InUserRegion(g) && !Empty(g) && n <= PageCount(g)
    ensures AnyMapped(s.mem, root, g, n) <==> exists p: nat :: p < n && Present(Leaf(s.mem, root, SegPage(g, p)))
  {
    hide MachineOk, PageCount, SegPage, Leaf, Present, PhysOf, VirtAt, PageOf, UserPage, InUserRegion, Empty;
    if n > 0 {
      AnyMappedIff(s, root, g, n - 1);
      VirtAtPage(g, n - 1);
      NotKernel(SegPage(g, n - 1));
      PhysIsLeaf(s, root, VirtAt(g, n - 1));
    }
  }

  lemma NotKernel(q: VPage)
    ensures UserPage(q) ==> !KernelSlot(q.i4)
  {
  }

  // ----------------------------------------------------- frames for the tables

  /** A mapping takes at most three low frames. */
  lemma MapSpends(s: Machine, root: nat, virt: nat, phys: nat, flags: nat)
    requires MachineOk(s) && IsSpace(s, root)
    ensures var (t, ok) := MapPage(s, root, virt, phys, flags);
            ok ==> |LowFree(t.frames)| + 3 >= |LowFree(s.frames)|
  {
    hide MachineOk, LeafEntry, Ensure, PageOf, SetEntry, LowFree, Lookup;
    var p := PageOf(virt);
    if !KernelSlot(p.i4) {
      EnsureNeeds(s, root, p.i4, flags);
      var (s1, a) := Ensure(s, root, p.i4, flags);
      if a.Some? {
        EnsureNeeds(s1, a.value, p.i3, flags);
        var (s2, b) := Ensure(s1, a.value, p.i3, flags);
        if b.Some? {
          assert Depth(s1.own[a.value]) == 1;
          EnsureNeeds(s2, b.value, p.i2, flags);
        }
      }
    }
  }

  lemma {:induction false} MapRunSucceeds(s: Machine, root: nat, g: Segment, start: nat, n: nat)
    requires MachineOk(s) && IsSpace(s, root) && InUserRegion(g) && !Empty(g) && n <= PageCount(g)
    requires 3 * n <= |LowFree(s.frames)|
    ensures var (t, ok) := MapRun(s, root, g, start, n); ok && |LowFree(t.frames)| + 3 * n >= |LowFree(s.frames)|
  {
    hide MachineOk, MapPage, FlagsOf, VirtAt, LowFree, PageCount, InUserRegion, Empty, PageOf, Missing;
    hide UserPage, SegPage;
    if n > 0 {
      MapRunSucceeds(s, root, g, start, n - 1);
      var t := MapRun(s, root, g, start, n - 1).0;
      var virt, phys := VirtAt(g, n - 1), (start + n - 1) * PAGE;
      VirtAtPage(g, n - 1);
      NotKernel(SegPage(g, n - 1));
      MissingAtMost(t.mem, root, PageOf(virt));
      MapSucceedsIff(t, root, virt, phys, FlagsOf(g));
      MapSpends(t, root, virt, phys, FlagsOf(g));
    }
  }

  // ---------------------------------------------------------------- segments

  /** A pass returns OK if and only if the segment lies in the user region, none of its
      pages is mapped, a run of frames is found for it, and every page gets mapped. */
  lemma SegmentLoadsIff(s: Machine, root: nat, b: Blob, g: Segment)
    requires MachineOk(s) && IsSpace(s, root) && Sound(g, |b|)
    ensures LoadSegment(s, root, b, g).1 == OK <==>
              && USER_BASE <= g.vaddr && g.vaddr + g.memsz <= USER_END && !PageTaken(s, root, g)
              && LowRun(s.frames, PageCount(g)).Some? && Mapped(s, root, g).1
    ensures LoadSegment(s, root, b, g).1 != OK ==> LoadSegment(s, root, b, g).1 == E_RANGE
  {
    if InUserRegion(g) && LowRun(s.frames, PageCount(g)).Some? {
      LowRunOk(s, PageCount(g));
      SegmentFits(g, LowRun(s.frames, PageCount(g)).value);
      AnyMappedIff(s, root, g, PageCount(g));
    }
    hide LowRun, PageCount, MachineOk, Mapped, Filled, AnyMapped, Sound, Leaf, Present, SegPage;
  }

  /** With a run of frames for its pages, and three more low frames for each of them, a
      segment in the user region on free pages is loaded. */
  lemma SegmentLoads(s: Machine, root: nat, b: Blob, g: Segment)
    requires MachineOk(s) && IsSpace(s, root) && Sound(g, |b|) && InUserRegion(g) && !PageTaken(s, root, g)
    requires LowRun(s.frames, PageCount(g)).Some?
    requires 3 * PageCount(g) <= |LowFree(TakeRun(s.frames, LowRun(s.frames, PageCount(g)).value, PageCount(g)))|
    ensures LoadSegment(s, root, b, g).1 == OK
  {
    hide LoadSegment, PageCount, LowRun, LowFree, TakeRun, MachineOk, MapRun, Sound, PageTaken, InUserRegion, Empty;
    var n, a := PageCount(g), LowRun(s.frames, PageCount(g)).value;
    LowRunOk(s, n);
    SegmentFits(g, a);
    RunTakenOk(s, a, n);
    MapRunSucceeds(s.(frames := TakeRun(s.frames, a, n)), root, g, a, n);
    SegmentLoadsIff(s, root, b, g);
    UserBounds(g);
  }

  lemma UserBounds(g: Segment)
    ensures InUserRegion(g) <==> USER_BASE <= g.vaddr && g.vaddr + g.memsz <= USER_END
  {
  }
}
