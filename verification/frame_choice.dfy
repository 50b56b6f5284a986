/**
  Which frames the allocators of `tpmm.c` hand out: the first in scan order from the
  hint, and where the hint goes.
*/
module FrameChoice {
  import opened Words
  import opened Frames

  /** The lowest free frame of `[lo, hi)`. */
  ghost predicate IsLowest(free: set<nat>, lo: nat, hi: nat, f: nat) {
    lo <= f < hi && f in free && forall g: nat :: lo <= g < f ==> g !in free
  }

  ghost predicate AnyFree(free: set<nat>, lo: nat, hi: nat) { exists f: nat :: lo <= f < hi && f in free }

  /** The frame chosen is the lowest free one from the hint up, or, if there is none,
      the lowest at all. */
  lemma ChoiceIsFirst(v: FrameMap, cap: nat)
    ensures AnyFree(v.free, v.hint, cap) ==> IsLowest(v.free, v.hint, cap, Choice(v, cap))
    ensures !AnyFree(v.free, v.hint, cap) && AnyFree(v.free, 0, cap) ==> IsLowest(v.free, 0, cap, Choice(v, cap))
    ensures !AnyFree(v.free, 0, cap) ==> Choice(v, cap) == cap
  {
    hide FirstFree;
    var r := FirstFree(v.free, v.hint, cap);
    if r < cap {
      assert AnyFree(v.free, v.hint, cap);
    } else {
      var end := Min(v.hint, cap);
      var q := FirstFree(v.free, 0, end);
      assert q < end ==> AnyFree(v.free, 0, cap);
    }
  }

  /** After a frame was taken, the next one taken is the lowest free one above it, as
      long as there is one. */
  lemma NextIsAbove(v: FrameMap, cap: nat, f: nat)
    requires AnyFree(v.free, f + 1, cap)
    ensures IsLowest(v.free, f + 1, cap, Choice(Take(v, f), cap))
  {
    var t := Take(v, f);
    var g: nat :| f + 1 <= g < cap && g in v.free;
    assert g in t.free;
    ChoiceIsFirst(t, cap);
    hide Choice;
    assert forall x: nat :: x != f ==> (x in t.free <==> x in v.free);
    var c := Choice(t, cap);
    assert IsLowest(t.free, f + 1, cap, c);
  }

  /** A frame given back below the hint is the next one taken. */
  lemma FreedIsNext(v: FrameMap, cap: nat, f: nat)
    requires f < v.total && f !in v.free && f < v.hint && f < cap
    ensures Choice(Release(v, f), cap) == f
  {
    var t := Release(v, f);
    assert AnyFree(t.free, t.hint, cap);
    ChoiceIsFirst(t, cap);
    hide Choice;
  }

  /** One given back from the hint up comes after the free frames between. */
  lemma FreedAboveWaits(v: FrameMap, cap: nat, f: nat)
    requires f < v.total && f !in v.free && v.hint <= f < cap
    ensures var t := Release(v, f);
            && IsLowest(t.free, v.hint, cap, Choice(t, cap))
            && (Choice(t, cap) == f <==> !AnyFree(v.free, v.hint, f))
  {
    var t := Release(v, f);
    assert f in t.free;
    assert AnyFree(t.free, t.hint, cap);
    ChoiceIsFirst(t, cap);
    hide Choice;
    var c := Choice(t, cap);
    if c != f {
      assert v.hint <= c < f && c in v.free;
    }
  }

  // -------------------------------------------------------------------- runs

  /** The lowest run of this length inside `[lo, hi)`. */
  ghost predicate IsLowestRun(free: set<nat>, lo: nat, hi: nat, pages: nat, a: nat) {
    && lo <= a && a + pages <= hi && FreeRun(free, a, pages)
    && forall x: nat :: lo <= x < a ==> !FreeRun(free, x, pages)
  }

  ghost predicate AnyRun(free: set<nat>, lo: nat, hi: nat, pages: nat) {
    exists a: nat :: lo <= a && a + pages <= hi && FreeRun(free, a, pages)
  }

  /** A scan from `f` names the first run it completes. */
  lemma {:induction false} ScanIsFirst(free: set<nat>, f: nat, end: nat, run: nat, start: nat, pages: nat, x: nat)
    requires Counted(free, f, run, start) && run < pages && f - run <= x
    requires var r := ScanRun(free, f, end, run, start, pages); r.Found? && x < r.start
    ensures !FreeRun(free, x, pages)
    decreases end - f
  {
    if f < end {
      if f in free {
        if run + 1 != pages {
          ScanIsFirst(free, f + 1, end, run + 1, if run == 0 then f else start, pages, x);
        }
      } else if x <= f {
        assert x + pages > f;
      } else {
        ScanIsFirst(free, f + 1, end, 0, start, pages, x);
      }
    }
  }

  lemma FreshScanIsFirst(free: set<nat>, f: nat, end: nat, start: nat, pages: nat)
    requires pages > 0
    ensures var r := ScanRun(free, f, end, 0, start, pages); r.Found? ==> IsLowestRun(free, f, end, pages, r.start)
  {
    hide ScanRun, FreeRun;
    ScanRunSound(free, f, end, 0, start, pages);
    var r := ScanRun(free, f, end, 0, start, pages);
    if r.Found? {
      forall x: nat | f <= x < r.start ensures !FreeRun(free, x, pages) {
        ScanIsFirst(free, f, end, 0, start, pages, x);
      }
    }
  }

  /** A scan entered with frames counted elsewhere, and not completing them. */
  lemma {:induction false} CarriedIsFirst(free: set<nat>, f: nat, end: nat, run: nat, start: nat, pages: nat)
    requires 0 < run < pages && !(f + (pages - run) <= end && FreeRun(free, f, pages - run))
    ensures var r := ScanRun(free, f, end, run, start, pages); r.Found? ==> IsLowestRun(free, f, end, pages, r.start)
    decreases end - f
  {
    if f < end {
      if f in free {
        if run + 1 != pages {
          assert FreeRun(free, f, pages - run) <==> FreeRun(free, f + 1, pages - run - 1);
          CarriedIsFirst(free, f + 1, end, run + 1, start, pages);
          var r := ScanRun(free, f, end, run, start, pages);
          if r.Found? && FreeRun(free, f, pages) {
            assert FreeRun(free, f, pages - run);
            CarriedScan(free, f, end, run, start, pages);
          }
        }
      } else {
        FreshScanIsFirst(free, f + 1, end, start, pages);
        assert !FreeRun(free, f, pages);
      }
    }
  }

  /** The run found is the lowest from the hint up, or, if there is none, the lowest
      wholly below the hint, unless the ends of the range join. */
  lemma ContigIsFirst(v: FrameMap, cap: nat, pages: nat)
    requires pages > 0 && !Joins(v, cap, pages)
    ensures var r, end := ContigScan(v, cap, pages), Min(v.hint, cap);
            && (AnyRun(v.free, v.hint, cap, pages) ==> r.Found? && IsLowestRun(v.free, v.hint, cap, pages, r.start))
            && (!AnyRun(v.free, v.hint, cap, pages) && AnyRun(v.free, 0, end, pages) ==>
                  r.Found? && IsLowestRun(v.free, 0, end, pages, r.start))
            && (!AnyRun(v.free, v.hint, cap, pages) && !AnyRun(v.free, 0, end, pages) ==> r.Pending?)
  {
    hide FreeRun, ScanRun, TopRun, IsLowestRun;
    FirstPart(v, cap, pages);
    FreshScanIsFirst(v.free, v.hint, cap, 0, pages);
    var a, end := ScanRun(v.free, v.hint, cap, 0, 0, pages), Min(v.hint, cap);
    if a.Pending? {
      if a.run > 0 {
        CarriedIsFirst(v.free, 0, end, a.run, a.start, pages);
      } else {
        FreshScanIsFirst(v.free, 0, end, a.start, pages);
      }
      SecondPart(v, cap, pages);
    }
  }

  lemma SecondPart(v: FrameMap, cap: nat, pages: nat)
    requires pages > 0
    ensures var r, end := ContigScan(v, cap, pages), Min(v.hint, cap);
            && (r.Pending? ==> !AnyRun(v.free, 0, end, pages))
            && (r.Found? && IsLowestRun(v.free, 0, end, pages, r.start) ==> AnyRun(v.free, 0, end, pages))
  {
    hide ContigScan, FreeRun;
    if ContigScan(v, cap, pages).Pending? {
      ContigScanComplete(v, cap, pages);
    }
  }

  // -------------------------------------------------------------- byte ranges

  /** A range that does not wrap touches a frame iff the frame begins before its end
      and is not below its first byte's; for a range that is not empty that is to have
      a byte in it. */
  lemma TouchedIff(base: nat, size: nat, f: nat)
    requires base + size < TWO64
    ensures f in TouchedFrames(base, size) <==> base / PAGE_SIZE <= f && f * PAGE_SIZE < base + size
    ensures size > 0 ==> (f in TouchedFrames(base, size) <==> exists x :: base <= x < base + size && x / PAGE_SIZE == f)
  {
    hide RunFrames;
    WholePages(base + size, 0, f);
    if size > 0 && base / PAGE_SIZE <= f && f * PAGE_SIZE < base + size {
      var x := if base > f * PAGE_SIZE then base else f * PAGE_SIZE;
      assert x / PAGE_SIZE == f;
    }
    if x :| base <= x < base + size && x / PAGE_SIZE == f {
      assert f * PAGE_SIZE <= x;
    }
  }

  /** Cut to 32 bits a range goes round: its frames are those less than its length
      away from its start, counted on 32 bits. */
  lemma {:induction false} CutGoesRound(start: nat, pages: nat, f: nat)
    ensures f in CutFrames(start, pages) <==> f < TWO32 && (f - start) % TWO32 < pages
    decreases pages
  {
    if pages > 0 {
      CutGoesRound(start, pages - 1, f);
      if f < TWO32 && pages <= TWO32 {
        Away(start, pages - 1, f);
      }
    }
  }

  lemma Away(start: nat, m: nat, f: nat)
    requires m < TWO32 && f < TWO32
    ensures (f - start) % TWO32 == m <==> f == (start + m) % TWO32
  {
  }

  /** Memory ends right after the highest frame some entry of the memory map opens. */
  lemma {:induction false} TotalIsTop(rs: seq<Region>)
    ensures MapTotal(rs) == 0 <==> MapFrames(rs) == {}
    ensures MapTotal(rs) > 0 ==> MapTotal(rs) - 1 in MapFrames(rs)
    ensures forall f :: f in MapFrames(rs) ==> f < MapTotal(rs)
  {
    if rs != [] {
      var r := rs[|rs| - 1];
      TotalIsTop(rs[..|rs| - 1]);
      hide FirstFrame, EndFrame;
      if Opens(r) {
        assert EndFrame(r) - 1 in RegionFrames(r);
      }
    }
  }
}
