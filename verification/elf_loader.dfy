/**
  `telf_load` as it runs: loops over segments and pages, updating memory and the
  frame bitmap in place, proved against `ElfLoad` and `ElfImage`.
*/
module ElfLoader {
  import opened Words
  import opened Frames
  import opened FrameBitmaps
  import opened Paging
  import opened PhysBytes
  import opened Spaces
  import opened ElfParse
  import opened ElfLoad
  import opened ElfImage
  import opened PhysicalMachine

  lemma {:induction false} AnyMappedGrows(m: Memory, root: nat, g: Segment, k: nat, n: nat)
    requires k <= n && AnyMapped(m, root, g, k)
    ensures AnyMapped(m, root, g, n)
  {
    hide PhysOf, VirtAt;
    if k < n {
      AnyMappedGrows(m, root, g, k, n - 1);
    }
  }

  lemma {:induction false} MapRunStops(s: Machine, root: nat, g: Segment, start: nat, k: nat, n: nat)
    requires MachineOk(s) && IsSpace(s, root) && k <= n && !MapRun(s, root, g, start, k).1
    ensures MapRun(s, root, g, start, n) == MapRun(s, root, g, start, k)
  {
    hide MapPage, MachineOk, VirtAt, FlagsOf;
    if k < n {
      MapRunStops(s, root, g, start, k, n - 1);
    }
  }

  lemma {:induction false} LoadStops(s: Machine, root: nat, b: Blob, segs: seq<Segment>, k: nat, n: nat)
    requires MachineOk(s) && IsSpace(s, root) && AllSound(b, segs) && k <= n <= |segs|
    requires LoadUpTo(s, root, b, segs, k).1 != OK
    ensures LoadUpTo(s, root, b, segs, n) == LoadUpTo(s, root, b, segs, k)
  {
    hide LoadSegment, MachineOk, Sound;
    if k < n {
      LoadStops(s, root, b, segs, k, n - 1);
    }
  }

  /** The defensive check over the pages of a segment. */
  method FindMapped(ram: Ram, root: nat, g: Segment) returns (hit: bool)
    requires ram.Valid() && IsSpace(ram.View(), root) && InUserRegion(g)
    ensures hit == AnyMapped(ram.pages[..], root, g, PageCount(g))
  {
    hide PageCount, PhysOf, VirtAt, MachineOk, FrameBitmap.Valid;
    var p := 0;
    while p < PageCount(g)
      invariant p <= PageCount(g) && !AnyMapped(ram.pages[..], root, g, p)
    {
      var r := ram.Phys(root, VirtAt(g, p));
      if r.Some? {
        AnyMappedGrows(ram.pages[..], root, g, p + 1, PageCount(g));
        return true;
      }
      p := p + 1;
    }
    return false;
  }

  /** Maps the pages of a segment to the frames from `start`. */
  method MapPages(ram: Ram, root: nat, g: Segment, start: nat) returns (ok: bool)
    requires ram.Valid() && IsSpace(ram.View(), root) && InUserRegion(g)
    modifies ram, ram.pages, ram.bitmap, ram.bitmap.bitmap
    ensures ram.Valid() && (ram.View(), ok) == MapRun(old(ram.View()), root, g, start, PageCount(g))
  {
    hide PageCount, VirtAt, MachineOk, FrameBitmap.Valid, MapPage, FlagsOf;
    ghost var s := ram.View();
    var p := 0;
    while p < PageCount(g)
      invariant p <= PageCount(g) && ram.Valid() && (ram.View(), true) == MapRun(s, root, g, start, p)
    {
      ok := ram.Map(root, VirtAt(g, p), (start + p) * PAGE, FlagsOf(g));
      if !ok {
        MapRunStops(s, root, g, start, p + 1, PageCount(g));
        return;
      }
      p := p + 1;
    }
    ok := true;
  }

  /** `tpmm_alloc_low_contig` on the machine: the first frame, or 0. */
  method TakeRunLow(ram: Ram, n: nat) returns (start: nat)
    requires ram.Valid()
    modifies ram.bitmap, ram.bitmap.bitmap
    ensures ram.Valid()
    ensures var s := old(ram.View());
            var r := LowRun(s.frames, n);
            if r.Some? then start == r.value && start > 0 && ram.View() == s.(frames := TakeRun(s.frames, start, n))
            else start == 0 && ram.View() == s
  {
    ghost var s := ram.View();
    LowRunReady(s, n);
    ReservedNeverJoins(s.frames, LowCap(s.frames), n);
    hide MachineOk, ContigScan, FrameBitmap.Tied, FrameBitmap.Bits, WellFormed, TakeRun, Joins, NoRunInParts;
    var phys := ram.bitmap.AllocLowContig(n);
    start := phys / PAGE_SIZE;
  }

  lemma LowRunReady(s: Machine, n: nat)
    requires MachineOk(s)
    ensures 0 !in s.frames.free
    ensures LowRun(s.frames, n).Some? ==>
              LowRun(s.frames, n).value > 0 && MachineOk(s.(frames := TakeRun(s.frames, LowRun(s.frames, n).value, n)))
  {
    hide LowRun;
    if LowRun(s.frames, n).Some? {
      LowRunOk(s, n);
      RunTakenOk(s, LowRun(s.frames, n).value, n);
    }
  }

  /** Copies the file part of a segment and clears the rest. */
  method FillFrames(ram: Ram, start: nat, b: Blob, g: Segment)
    requires MemoryOk(ram.pages[..]) && Sound(g, |b|) && start * PAGE + g.memsz <= WINDOW
    modifies ram.pages
    ensures ram.pages[..] == Filled(old(ram.pages[..]), start * PAGE, b, g)
  {
    hide MemoryOk, PutBytes;
    ram.Store(start * PAGE, FileBytes(b, g));
    ram.Store(start * PAGE + g.filesz, Zeros(g.memsz - g.filesz));
  }

  method FillRun(ram: Ram, start: nat, b: Blob, g: Segment, ghost u: Machine)
    requires ram.Valid() && ram.View() == u && MemoryOk(u.mem) && Sound(g, |b|) && start * PAGE + g.memsz <= WINDOW
    requires MachineOk(u.(mem := Filled(u.mem, start * PAGE, b, g)))
    modifies ram.pages
    ensures ram.Valid() && ram.View() == u.(mem := Filled(u.mem, start * PAGE, b, g))
  {
    hide MachineOk, MemoryOk, Sound, Filled, FrameBitmap.Tied, WellFormed;
    FillFrames(ram, start, b, g);
  }

  /** One pass of the segment loop. */
  method LoadOne(ram: Ram, root: nat, b: Blob, g: Segment) returns (rc: int)
    requires ram.Valid() && IsSpace(ram.View(), root) && Sound(g, |b|)
    modifies ram, ram.pages, ram.bitmap, ram.bitmap.bitmap
    ensures ram.Valid()
    ensures var r := LoadSegment(old(ram.View()), root, b, g); ram.View() == r.0 && rc == r.1
  {
    hide PageCount, MachineOk, FrameBitmap.Valid, AnyMapped, LowRun, Mapped, MapRun, Filled, TakeRun, Sound;
    hide InUserRegion;
    ghost var s := ram.View();
    if !InUserRegion(g) {
      return E_RANGE;
    }
    var hit := FindMapped(ram, root, g);
    if hit {
      return E_RANGE;
    }
    var start := TakeRunLow(ram, PageCount(g));
    if start == 0 {
      return E_RANGE;
    }
    rc := MapAndFill(ram, root, b, g, start, s);
  }

  /** The rest of a pass, once the run of frames is taken; `s` is the machine
      before that. */
  method MapAndFill(ram: Ram, root: nat, b: Blob, g: Segment, start: nat, ghost s: Machine) returns (rc: int)
    requires ram.Valid() && MachineOk(s) && IsSpace(s, root) && Sound(g, |b|) && InUserRegion(g)
    requires !AnyMapped(s.mem, root, g, PageCount(g)) && LowRun(s.frames, PageCount(g)) == Some(start)
    requires ram.View() == s.(frames := TakeRun(s.frames, start, PageCount(g)))
    modifies ram, ram.pages, ram.bitmap, ram.bitmap.bitmap
    ensures ram.Valid()
    ensures var r := LoadSegment(s, root, b, g); ram.View() == r.0 && rc == r.1
  {
    MapAndFillReady(s, root, b, g);
    hide PageCount, MachineOk, LowRun, MapRun, Mapped, Filled, TakeRun, Sound, InUserRegion, MemoryOk, AnyMapped;
    hide FrameBitmap.Valid, LoadSegment, Ram.Valid;
    var ok := MapPages(ram, root, g, start);
    if !ok {
      return E_RANGE;
    }
    FillRun(ram, start, b, g, Mapped(s, root, g).0);
    return OK;
  }

  lemma MapAndFillReady(s: Machine, root: nat, b: Blob, g: Segment)
    requires MachineOk(s) && IsSpace(s, root) && Sound(g, |b|) && InUserRegion(g)
    requires !AnyMapped(s.mem, root, g, PageCount(g)) && LowRun(s.frames, PageCount(g)).Some?
    ensures var a, t := LowRun(s.frames, PageCount(g)).value, Mapped(s, root, g).0;
            && a * PAGE + g.memsz <= (a + PageCount(g)) * PAGE <= WINDOW && MemoryOk(t.mem)
            && MachineOk(t.(mem := Filled(t.mem, a * PAGE, b, g)))
            && MachineOk(s.(frames := TakeRun(s.frames, a, PageCount(g))))
            && Mapped(s, root, g) == MapRun(s.(frames := TakeRun(s.frames, a, PageCount(g))), root, g, a, PageCount(g))
            && var r := LoadSegment(s, root, b, g);
               if Mapped(s, root, g).1 then r == (t.(mem := Filled(t.mem, a * PAGE, b, g)), OK, a)
               else r == (t, E_RANGE, 0)
  {
    var a := LowRun(s.frames, PageCount(g)).value;
    LowRunOk(s, PageCount(g));
    SegmentFits(g, a);
    FillKeeps(s, root, b, g);
    RunTakenOk(s, a, PageCount(g));
    hide PageCount, LowRun, Filled, Sound, InUserRegion, MapRun, TakeRun;
  }

  /** `telf_load`: parse, then load segment by segment, stopping at the first error. */
  method Load(ram: Ram, root: nat, b: Blob) returns (rc: int)
    requires ram.Valid() && IsSpace(ram.View(), root) && Safe(b)
    modifies ram, ram.pages, ram.bitmap, ram.bitmap.bitmap
    ensures ram.Valid()
    ensures var r := LoadFile(old(ram.View()), root, b); ram.View() == r.0 && rc == r.1
  {
    hide Parse, MachineOk, FrameBitmap.Valid, LoadSegment, Sound, AllSizesFit;
    var parsed := ParseElf(b);
    if parsed.Err? {
      return parsed.code;
    }
    ParseSound(b);
    rc := LoadSegments(ram, root, b, parsed.value.segs);
  }

  method LoadSegments(ram: Ram, root: nat, b: Blob, segs: seq<Segment>) returns (rc: int)
    requires ram.Valid() && IsSpace(ram.View(), root) && AllSound(b, segs)
    modifies ram, ram.pages, ram.bitmap, ram.bitmap.bitmap
    ensures ram.Valid()
    ensures var r := LoadUpTo(old(ram.View()), root, b, segs, |segs|); ram.View() == r.0 && rc == r.1
  {
    hide MachineOk, FrameBitmap.Valid, LoadSegment, Sound;
    ghost var s := ram.View();
    var i := 0;
    while i < |segs|
      invariant i <= |segs| && ram.Valid() && IsSpace(ram.View(), root)
      invariant var r := LoadUpTo(s, root, b, segs, i); ram.View() == r.0 && r.1 == OK
    {
      rc := LoadOne(ram, root, b, segs[i]);
      if rc != OK {
        LoadStops(s, root, b, segs, i + 1, |segs|);
        return;
      }
      i := i + 1;
    }
    return OK;
  }
}
