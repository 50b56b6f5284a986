/**
  The bitmap of `tpmm.c`: one bit per 4 KiB frame in 32-bit words, a counter
  of free frames and the scan hint, all updated in place by scanning loops.
  `Valid` is the accounting invariant; every method keeps it and changes the
  abstract map exactly as the functions of `Frames` say.
*/
module FrameBitmaps {
  import opened Words
  import opened Frames

  const BITMAP_WORDS: nat := 0x8000

  /** Bit of frame `f` in the bitmap words. */
  predicate BitAt(words: seq<nat>, f: nat)
    requires |words| == BITMAP_WORDS && f < MAX_FRAMES
  {
    Digit(words[f / 32], f % 32, 2) == 1
  }

  /** Writing the bit of one frame changes the bit of no other frame. */
  lemma BitAfterSet(words: seq<nat>, f: nat, v: nat, g: nat)
    requires |words| == BITMAP_WORDS && f < MAX_FRAMES && g < MAX_FRAMES && v < 2
    ensures BitAt(words[f / 32 := SetDigit(words[f / 32], f % 32, 2, v)], g)
         == if g == f then v == 1 else BitAt(words, g)
  {
    if g / 32 == f / 32 {
      SetDigitAt(words[f / 32], f % 32, 2, v, g % 32);
    }
  }

  class FrameBitmap {
    const bitmap: array<nat>
    var totalFrames: nat
    var freeFrames: nat
    var firstFreeHint: nat
    ghost var free: set<nat>

    /** A clear bit is a free frame, all free frames lie below `totalFrames`,
        and the counter counts them. */
    ghost predicate Valid()
      reads this, bitmap
    {
      Tied() && WellFormed(View())
    }

    ghost predicate Tied()
      reads `freeFrames, `free, bitmap
    {
      Bits() && freeFrames == |free|
    }

    ghost predicate Bits()
      reads `free, bitmap
    {
      && bitmap.Length == BITMAP_WORDS
      && (forall f: nat :: f < MAX_FRAMES ==> (f in free <==> !BitAt(bitmap[..], f)))
      && (forall f :: f in free ==> f < MAX_FRAMES)
    }

    ghost function View(): (v: FrameMap)
      reads this
    {
      FrameMap(totalFrames, free, firstFreeHint)
    }

    /** All frames used, nothing known about memory yet. */
    constructor ()
      ensures Valid() && fresh(bitmap) && View() == FrameMap(0, {}, 0)
    {
      bitmap := new nat[BITMAP_WORDS](_ => 0xFFFF_FFFF);
      totalFrames, freeFrames, firstFreeHint, free := 0, 0, 0, {};
      new;
      AllUsed(bitmap[..]);
    }

    method BitTest(f: nat) returns (used: bool)
      requires Tied() && f < MAX_FRAMES
      ensures used == (f !in free)
    {
      used := Digit(bitmap[f / 32], f % 32, 2) == 1;
    }

    /** `bit_set`: frames past the bitmap are ignored. */
    method SetBit(f: nat)
      requires bitmap.Length == BITMAP_WORDS
      modifies bitmap
      ensures forall g: nat :: g < MAX_FRAMES ==> BitAt(bitmap[..], g) == (g == f || old(BitAt(bitmap[..], g)))
    {
      if f < MAX_FRAMES {
        ghost var was := bitmap[..];
        bitmap[f / 32] := SetDigit(bitmap[f / 32], f % 32, 2, 1);
        forall g: nat | g < MAX_FRAMES ensures BitAt(bitmap[..], g) == (g == f || BitAt(was, g)) {
          BitAfterSet(was, f, 1, g);
        }
      }
    }

    /** `bit_clear` */
    method ClearBit(f: nat)
      requires bitmap.Length == BITMAP_WORDS
      modifies bitmap
      ensures forall g: nat :: g < MAX_FRAMES ==> BitAt(bitmap[..], g) == (g != f && old(BitAt(bitmap[..], g)))
    {
      if f < MAX_FRAMES {
        ghost var was := bitmap[..];
        bitmap[f / 32] := SetDigit(bitmap[f / 32], f % 32, 2, 0);
        forall g: nat | g < MAX_FRAMES ensures BitAt(bitmap[..], g) == (g != f && BitAt(was, g)) {
          BitAfterSet(was, f, 0, g);
        }
      }
    }

    /** `bit_set` and `free_frames--` on a free frame. */
    method MarkUsed(f: nat)
      requires Tied() && f in free
      modifies `freeFrames, `free, bitmap
      ensures Tied() && free == old(free) - {f}
    {
      hide BitAt;
      SetBit(f);
      freeFrames := freeFrames - 1;
      free := free - {f};
    }

    /** `bit_clear` and `free_frames++` on a used frame. */
    method MarkFree(f: nat)
      requires Tied() && f < MAX_FRAMES && f !in free
      modifies `freeFrames, `free, bitmap
      ensures Tied() && free == old(free) + {f}
    {
      hide BitAt;
      ClearBit(f);
      freeFrames := freeFrames + 1;
      free := free + {f};
    }

    /** The two scanning loops shared by the single-frame allocators; `cap`
        when no frame is free. */
    method FindFrame(cap: nat) returns (f: nat)
      requires Valid() && cap <= totalFrames
      ensures f == Choice(View(), cap)
    {
      hide Tied;
      f := firstFreeHint;
      while f < cap
        invariant FirstFree(free, firstFreeHint, cap) == FirstFree(free, f, cap)
      {
        var used := BitTest(f);
        if !used { return; }
        f := f + 1;
      }
      f := 0;
      while f < firstFreeHint && f < cap
        invariant FirstFree(free, 0, Min(firstFreeHint, cap)) == FirstFree(free, f, Min(firstFreeHint, cap))
      {
        var used := BitTest(f);
        if !used { return; }
        f := f + 1;
      }
      return cap;
    }

    method AllocBelow(cap: nat) returns (phys: nat)
      requires Valid() && cap <= totalFrames
      modifies this, bitmap
      ensures Valid()
      ensures var c := Choice(old(View()), cap);
              if c < cap then phys == c * PAGE_SIZE && View() == Take(old(View()), c)
              else phys == 0 && View() == old(View())
    {
      ChoiceIsComplete(View(), cap);
      var f := FindFrame(cap);
      if f >= cap {
        return 0;
      }
      MarkUsed(f);
      firstFreeHint := f + 1;
      return f * PAGE_SIZE;
    }

    /** `tpmm_alloc` */
    method Alloc() returns (phys: nat)
      requires Valid()
      modifies this, bitmap
      ensures Valid()
      ensures var c := Choice(old(View()), old(totalFrames));
              if c < old(totalFrames) then phys == c * PAGE_SIZE && View() == Take(old(View()), c)
              else phys == 0 && View() == old(View())
      ensures phys == 0 <==> Choice(old(View()), old(totalFrames)) in {0, old(totalFrames)}
      ensures 0 !in old(free) ==> (phys == 0 <==> forall f :: f in old(free) ==> f >= old(totalFrames))
    {
      ChoiceIsComplete(View(), totalFrames);
      phys := AllocBelow(totalFrames);
    }

    /** `tpmm_alloc_low` */
    method AllocLow() returns (phys: nat)
      requires Valid()
      modifies this, bitmap
      ensures Valid()
      ensures var cap := Min(LOW_FRAMES, old(totalFrames));
              var c := Choice(old(View()), cap);
              if c < cap then phys == c * PAGE_SIZE && View() == Take(old(View()), c)
              else phys == 0 && View() == old(View())
      ensures var cap := Min(LOW_FRAMES, old(totalFrames));
              && (phys == 0 <==> Choice(old(View()), cap) in {0, cap})
              && (0 !in old(free) ==> (phys == 0 <==> forall f :: f in old(free) ==> f >= cap))
    {
      ChoiceIsComplete(View(), Min(LOW_FRAMES, totalFrames));
      phys := AllocBelow(Min(LOW_FRAMES, totalFrames));
    }

    /** Marks a found run used, frame by frame, whatever the frames are. */
    method MarkRun(start: nat, pages: nat)
      requires Bits() && pages <= freeFrames
      modifies `freeFrames, `free, bitmap
      ensures Bits() && free == old(free) - RunFrames(start, pages) && freeFrames == old(freeFrames) - pages
    {
      hide BitAt, RunFrames;
      var i := 0;
      while i < pages
        invariant i <= pages && Bits() && freeFrames == old(freeFrames) - i
        invariant free == old(free) - RunFrames(start, i)
      {
        RunTaken(old(free), start, i);
        SetBit(start + i);
        freeFrames := freeFrames - 1;
        free := free - {start + i};
        i := i + 1;
      }
    }

    /** The search of `tpmm_alloc_contig` and `tpmm_alloc_low_contig`. */
    method FindRun(cap: nat, pages: nat) returns (found: bool, start: nat)
      requires Valid() && cap <= totalFrames
      ensures var r := ContigScan(View(), cap, pages);
              found == r.Found? && (found ==> start == r.start)
    {
      hide Tied;
      var run := 0;
      start := 0;
      var f := firstFreeHint;
      while f < cap
        invariant ScanRun(free, firstFreeHint, cap, 0, 0, pages) == ScanRun(free, f, cap, run, start, pages)
      {
        var used := BitTest(f);
        if !used {
          if run == 0 { start := f; }
          run := run + 1;
          if run == pages { return true, start; }
        } else {
          run := 0;
        }
        f := f + 1;
      }
      ghost var r0, s0, end := run, start, Min(firstFreeHint, cap);
      f := 0;
      while f < firstFreeHint && f < cap
        invariant ScanRun(free, 0, end, r0, s0, pages) == ScanRun(free, f, end, run, start, pages)
      {
        var used := BitTest(f);
        if !used {
          if run == 0 { start := f; }
          run := run + 1;
          if run == pages { return true, start; }
        } else {
          run := 0;
        }
        f := f + 1;
      }
      return false, 0;
    }

    /** Both contiguous allocators. The run found is marked used and subtracted
        from the counter, which stays exact exactly when the whole run was free. */
    method AllocRun(cap: nat, pages: nat) returns (phys: nat)
      requires Valid() && cap <= totalFrames
      modifies this, bitmap
      ensures Bits()
      ensures Ran(old(View()), cap, pages, View(), phys)
      ensures Valid() <==> RunWasFree(old(View()), cap, pages)
      ensures freeFrames == old(freeFrames) - if ContigScan(old(View()), cap, pages).Found? then pages else 0
    {
      hide Joins, ContigScan, BitAt, RunFrames, FreeRun;
      ghost var v := View();
      RunFits(v, cap, pages);
      var found, start := FindRun(cap, pages);
      if !found {
        return 0;
      }
      MarkRun(start, pages);
      firstFreeHint := start + pages;
      phys := start * PAGE_SIZE;
      RunCounts(v, start, pages);
    }

    /** `tpmm_alloc_contig`: in order afterwards exactly when the ends of memory did
        not join; with frame 0 reserved they never do. */
    method AllocContig(pages: nat) returns (phys: nat)
      requires Valid()
      modifies this, bitmap
      ensures Bits() && Ran(old(View()), old(totalFrames), pages, View(), phys)
      ensures Valid() <==> !Joins(old(View()), old(totalFrames), pages)
      ensures 0 !in old(free) && pages > 0 ==>
                && Valid()
                && (phys == 0 <==> ContigScan(old(View()), old(totalFrames), pages).Pending?)
                && (phys == 0 ==> NoRunInParts(old(View()), old(totalFrames), pages))
    {
      hide Joins, ContigScan, NoRunInParts, Bits, RunWasFree;
      RunIsFree(View(), totalFrames, pages);
      phys := AllocRun(totalFrames, pages);
    }

    /** `tpmm_alloc_low_contig`: the run lies below 1 GiB, and was free, exactly when
        the ends did not join. */
    method AllocLowContig(pages: nat) returns (phys: nat)
      requires Valid()
      modifies this, bitmap
      ensures var cap := Min(LOW_FRAMES, old(totalFrames));
              && Bits()
              && (if 0 < pages <= cap then Ran(old(View()), cap, pages, View(), phys)
                  else phys == 0 && View() == old(View()))
              && (!Joins(old(View()), cap, pages) || pages > cap ==> Valid())
              && (Joins(old(View()), cap, pages) && pages <= cap ==> phys / PAGE_SIZE + pages > cap)
      ensures var cap := Min(LOW_FRAMES, old(totalFrames));
              0 !in old(free) && pages > 0 ==>
                Valid() && (phys == 0 ==> NoRunInParts(old(View()), cap, pages))
    {
      hide Joins, ContigScan, NoRunInParts, Bits, RunWasFree;
      var cap := LOW_FRAMES;
      if cap > totalFrames {
        cap := totalFrames;
      }
      RunIsFree(View(), cap, pages);
      if pages == 0 || pages > cap {
        return 0;
      }
      phys := AllocRun(cap, pages);
    }

    /** `tpmm_free`; the frame number is truncated to 32 bits. */
    method Free(phys: nat)
      requires Valid()
      modifies this, bitmap
      ensures Valid() && View() == Release(old(View()), phys / PAGE_SIZE % TWO32)
    {
      hide Tied;
      var frame := phys / PAGE_SIZE % TWO32;
      if frame >= totalFrames {
        return;
      }
      var used := BitTest(frame);
      if used {
        MarkFree(frame);
        if frame < firstFreeHint {
          firstFreeHint := frame;
        }
      }
    }

    /** `reserve_frame` */
    method ReserveFrame(phys: nat)
      requires Valid()
      modifies this, bitmap
      ensures Valid() && View() == old(View()).(free := old(free) - {phys / PAGE_SIZE % TWO32})
    {
      hide Tied;
      var frame := phys / PAGE_SIZE % TWO32;
      if frame >= totalFrames {
        return;
      }
      var used := BitTest(frame);
      if !used {
        MarkUsed(frame);
      }
    }

    /** `tpmm_reserve_range`: every frame the byte range touches, its number cut to
        32 bits. The loop over a range that ends in the last page of the address
        space is never left (`Frames.ReserveEndsIff`). */
    method ReserveRange(base: nat, size: nat)
      requires Valid() && base < TWO64 && size < TWO64 && Wrap64(base + size) <= TWO64 - PAGE_SIZE
      modifies this, bitmap
      ensures Valid()
      ensures View() == old(View()).(free := old(free) - CutFrames(base / PAGE_SIZE, TouchedCount(base, size)))
    {
      hide Tied, TouchedCount, CutFrames, Wrap64, WellFormed;
      var a := base / PAGE_SIZE * PAGE_SIZE;
      ghost var n := 0;
      CutMore(free, base / PAGE_SIZE, 0);
      while a < Wrap64(base + size)
        invariant Valid() && a == (base / PAGE_SIZE + n) * PAGE_SIZE
        invariant n <= TouchedCount(base, size)
        invariant View() == old(View()).(free := old(free) - CutFrames(base / PAGE_SIZE, n))
      {
        TouchedPage(base, size, n);
        ReserveFrame(a);
        CutMore(old(free), base / PAGE_SIZE, n);
        a := a + PAGE_SIZE;
        n := n + 1;
      }
      TouchedPage(base, size, n);
    }

    /** The same below 4 GiB. */
    method ReserveLow(base: nat, size: nat)
      requires Valid() && base + size <= MAX_ADDR
      modifies this, bitmap
      ensures Valid() && View() == old(View()).(free := old(free) - TouchedFrames(base, size))
    {
      hide Tied, TouchedCount, CutFrames, WellFormed;
      ReserveRange(base, size);
      TouchedBelow(base, size);
      CutIsRun(base / PAGE_SIZE, TouchedCount(base, size));
    }

    /** `tpmm_release_range`: stops at the first frame beyond memory, the frame
        numbers again cut to 32 bits. */
    method ReleaseRange(base: nat, size: nat)
      requires Valid() && base < TWO64 && size < TWO64
      modifies this, bitmap
      ensures Valid() && totalFrames == old(totalFrames) && firstFreeHint <= old(firstFreeHint)
      ensures var first := base / PAGE_SIZE % TWO32;
              var inside := if first < totalFrames then totalFrames - first else 0;
              free == old(free) + RunFrames(first, Min(TouchedCount(base, size), inside))
    {
      hide Tied, WellFormed, TouchedCount, RunFrames, Wrap64;
      var a := base / PAGE_SIZE * PAGE_SIZE;
      ghost var n, first := 0, base / PAGE_SIZE % TWO32;
      TotalBound();
      while a < Wrap64(base + size)
        invariant Valid() && a == (base / PAGE_SIZE + n) * PAGE_SIZE && a < TWO64
        invariant n <= TouchedCount(base, size)
        invariant totalFrames == old(totalFrames) && firstFreeHint <= old(firstFreeHint)
        invariant n > 0 ==> first + n <= totalFrames
        invariant forall g: nat :: g in free <==> g in old(free) || first <= g < first + n
        decreases totalFrames + 1 - n
      {
        var frame := a / PAGE_SIZE % TWO32;
        TouchedPage(base, size, n);
        CutNext(base / PAGE_SIZE, n);
        if frame >= totalFrames {
          break;
        }
        Free(a);
        NoPageWrap(a);
        a := Wrap64(a + PAGE_SIZE);
        n := n + 1;
      }
      TouchedPage(base, size, n);
    }

    lemma TotalBound()
      requires Valid()
      ensures totalFrames <= MAX_FRAMES
    {
    }

    /** Body of the innermost loop of `tpmm_init`. */
    method OpenFrame(f: nat)
      requires Valid() && f < MAX_FRAMES
      modifies `freeFrames, `free, `totalFrames, bitmap
      ensures Valid() && free == old(free) + {f}
      ensures totalFrames == if old(totalFrames) <= f then f + 1 else old(totalFrames)
    {
      hide Tied;
      var used := BitTest(f);
      if used {
        MarkFree(f);
      }
      if f >= totalFrames {
        totalFrames := f + 1;
      }
    }

    /** Opens the frames of one available memory map entry. */
    method OpenRegion(first: nat, end: nat)
      requires Valid() && end <= MAX_FRAMES && first <= end
      modifies `freeFrames, `free, `totalFrames, bitmap
      ensures Valid() && free == old(free) + RunFrames(first, end - first)
      ensures totalFrames == if first < end && old(totalFrames) < end then end else old(totalFrames)
    {
      hide Tied, RunFrames, WellFormed;
      var f := first;
      while f < end
        invariant first <= f <= end && Valid()
        invariant forall g: nat :: g in free <==> g in old(free) || first <= g < f
        invariant totalFrames == if first < f && old(totalFrames) < f then f else old(totalFrames)
      {
        OpenFrame(f);
        f := f + 1;
      }
    }

    /** Opens every available entry of the memory map. */
    method OpenAll(regions: seq<Region>)
      requires Valid() && View() == FrameMap(0, {}, 0)
      modifies `freeFrames, `free, `totalFrames, bitmap
      ensures Valid() && View() == FrameMap(MapTotal(regions), MapFrames(regions), 0)
    {
      hide Tied, FirstFrame, EndFrame, RunFrames, WellFormed;
      var i := 0;
      while i < |regions|
        invariant i <= |regions| && Valid()
        invariant View() == FrameMap(MapTotal(regions[..i]), MapFrames(regions[..i]), 0)
      {
        var r := regions[i];
        assert regions[..i + 1][..i] == regions[..i];
        if r.kind == 1 && FirstFrame(r) < EndFrame(r) {
          OpenRegion(FirstFrame(r), EndFrame(r));
        }
        i := i + 1;
      }
      assert regions[..i] == regions;
    }

    /** `tpmm_init` on a decoded memory map: RAM minus the first megabyte and
        the kernel image `[kernelStart, kernelEnd)`. */
    method InitFrom(regions: seq<Region>, kernelStart: nat, kernelEnd: nat)
      requires bitmap.Length == BITMAP_WORDS && kernelStart <= kernelEnd <= MAX_ADDR
      modifies this, bitmap
      ensures Valid() && 0 !in free
      ensures View() == FrameMap(MapTotal(regions),
                                 MapFrames(regions) - TouchedFrames(0, 0x10_0000)
                                   - TouchedFrames(kernelStart, kernelEnd - kernelStart),
                                 0)
    {
      hide Tied, WellFormed, RunFrames, MapFrames, MapTotal;
      assert 0 in TouchedFrames(0, 0x10_0000);
      hide TouchedFrames;
      Reset();
      OpenAll(regions);
      ReserveLow(0, 0x10_0000);
      ReserveLow(kernelStart, kernelEnd - kernelStart);
    }

    /** Every frame used, nothing known about memory. */
    method Reset()
      requires bitmap.Length == BITMAP_WORDS
      modifies this, bitmap
      ensures Valid() && View() == FrameMap(0, {}, 0)
    {
      var i := 0;
      while i < BITMAP_WORDS
        invariant i <= BITMAP_WORDS
        invariant forall k :: 0 <= k < i ==> bitmap[k] == 0xFFFF_FFFF
      {
        bitmap[i] := 0xFFFF_FFFF;
        i := i + 1;
      }
      totalFrames, freeFrames, firstFreeHint, free := 0, 0, 0, {};
      AllUsed(bitmap[..]);
    }
  }

  /** What a contiguous search does to the map, and the address it answers. */
  ghost predicate Ran(v: FrameMap, cap: nat, pages: nat, t: FrameMap, phys: nat) {
    var r := ContigScan(v, cap, pages);
    if r.Found? then phys == r.start * PAGE_SIZE && t == TakeRun(v, r.start, pages) else phys == 0 && t == v
  }

  ghost predicate RunWasFree(v: FrameMap, cap: nat, pages: nat) {
    var r := ContigScan(v, cap, pages);
    r.Found? ==> FreeRun(v.free, r.start, pages)
  }

  lemma RunSize(start: nat, pages: nat)
    ensures |RunFrames(start, pages)| == pages
  {
  }

  lemma Larger(a: set<nat>, b: set<nat>)
    requires a <= b
    ensures |a| <= |b| && (|a| == |b| ==> a == b)
  {
    assert b == a + (b - a);
  }

  /** A run found has no more frames than are free, joined ends or not. */
  lemma RunFits(v: FrameMap, cap: nat, pages: nat)
    ensures ContigScan(v, cap, pages).Found? ==> 0 < pages <= |v.free|
  {
    hide ContigScan, Joins, RunFrames;
    var r := ContigScan(v, cap, pages);
    if pages == 0 {
      NoneOfZero(v, cap);
    } else if r.Found? {
      ContigScanExact(v, cap, pages);
      if !Joins(v, cap, pages) {
        RunSize(r.start, pages);
        Larger(RunFrames(r.start, pages), v.free);
      } else {
        JoinedFits(v, cap, pages);
      }
    }
  }

  lemma JoinedFits(v: FrameMap, cap: nat, pages: nat)
    requires Joins(v, cap, pages)
    ensures pages <= |v.free|
  {
    hide RunFrames, TopRun;
    var run := TopRun(v.free, v.hint, cap);
    TopRunIsFree(v.free, v.hint, cap);
    var top, low := RunFrames(cap - run, run), RunFrames(0, pages - run);
    RunSize(cap - run, run);
    RunSize(0, pages - run);
    assert top !! low;
    Larger(top + low, v.free);
  }

  /** Taking the frames of a run away lowers the number of free frames by their
      number exactly when all of them were free. */
  lemma RunCounts(v: FrameMap, start: nat, pages: nat)
    requires pages > 0 && WellFormed(v)
    ensures var t := TakeRun(v, start, pages);
            |t.free| == |v.free| - pages && t.hint <= t.total <==> FreeRun(v.free, start, pages)
  {
    hide RunFrames;
    var frames := RunFrames(start, pages);
    RunSize(start, pages);
    Larger(frames * v.free, frames);
    assert v.free == (v.free - frames) + (frames * v.free);
    assert FreeRun(v.free, start, pages) <==> frames * v.free == frames;
    assert FreeRun(v.free, start, pages) ==> start + pages - 1 in v.free;
  }

  lemma RunIsFree(v: FrameMap, cap: nat, pages: nat)
    requires WellFormed(v) && cap <= v.total
    ensures var r := ContigScan(v, cap, pages);
            && (!Joins(v, cap, pages) ==> RunWasFree(v, cap, pages))
            && (Joins(v, cap, pages) ==> pages > 0 && r.Found? && r.start + pages > cap)
            && (Joins(v, cap, pages) && cap == v.total ==> !RunWasFree(v, cap, pages))
            && (0 !in v.free ==> !Joins(v, cap, pages) && (r.Found? ==> r.start > 0))
            && (r.Pending? && pages > 0 ==> NoRunInParts(v, cap, pages))
            && (pages > cap ==> NoRunInParts(v, cap, pages))
  {
    hide ContigScan, NoRunInParts, TopRun, ScanRun;
    var r := ContigScan(v, cap, pages);
    if pages == 0 {
      NoneOfZero(v, cap);
    } else {
      ContigScanExact(v, cap, pages);
      assert cap == v.total ==> cap !in v.free;
      if r.Pending? {
        ContigScanComplete(v, cap, pages);
      }
    }
    if 0 !in v.free {
      ReservedNeverJoins(v, cap, pages);
      ContigScanSound(v, cap, pages);
    }
    if pages > cap {
      TooLong(v, cap, pages);
    }
  }

  lemma TooLong(v: FrameMap, cap: nat, pages: nat)
    requires pages > cap
    ensures NoRunInParts(v, cap, pages)
  {
  }

  lemma CutMore(free: set<nat>, start: nat, n: nat)
    ensures free - CutFrames(start, n) - {(start + n) % TWO32} == free - CutFrames(start, n + 1)
    ensures free - CutFrames(start, 0) == free
  {
  }

  lemma AllUsed(words: seq<nat>)
    requires |words| == BITMAP_WORDS && forall k :: 0 <= k < BITMAP_WORDS ==> words[k] == 0xFFFF_FFFF
    ensures forall f: nat :: f < MAX_FRAMES ==> BitAt(words, f)
  {
    hide Pow2;
    PowerOf32();
    forall f: nat | f < MAX_FRAMES ensures BitAt(words, f) {
      AllOnes(32, f % 32);
    }
  }

  lemma {:induction false} AllOnes(n: nat, k: nat)
    requires k < n
    ensures Digit(Pow2(n) - 1, k, 2) == 1
  {
    if k > 0 {
      AllOnes(n - 1, k - 1);
    }
  }
}
