/**
  The physical frame allocator of `tpmm.c` over the set of free frames: which
  frame a scan chooses and which run a contiguous scan finds. `FrameBitmap`
  (frame_bitmap.dfy) is the bitmap that computes these choices.
*/
module Frames {
  import opened Words

  const PAGE_SIZE: nat := 4096
  const MAX_ADDR: nat := 0x1_0000_0000
  const MAX_FRAMES: nat := 0x10_0000
  /** Frames below 1 GiB, reachable through the physmap window. */
  const LOW_FRAMES: nat := 0x4_0000

  /** Free frames, the number of frames known, and the moving start of scans. */
  datatype FrameMap = FrameMap(total: nat, free: set<nat>, hint: nat)

  ghost predicate WellFormed(v: FrameMap) {
    && v.total <= MAX_FRAMES && v.hint <= v.total
    && forall f :: f in v.free ==> f < v.total
  }

  // ---------------------------------------------------------- single frames

  /** First free frame in `[f, end)`; `end` when there is none. */
  function FirstFree(free: set<nat>, f: nat, end: nat): (r: nat)
    ensures f <= end ==> f <= r <= end
    ensures r < end ==> f <= r && r in free
    ensures forall g :: f <= g < r && g < end ==> g !in free
    decreases end - f
  {
    if f >= end then end else if f in free then f else FirstFree(free, f + 1, end)
  }

  /** Frame chosen by a two-part scan below `cap`; `cap` when none is free. */
  function Choice(v: FrameMap, cap: nat): (r: nat) {
    var r := FirstFree(v.free, v.hint, cap);
    if r < cap then r
    else
      var q := FirstFree(v.free, 0, Min(v.hint, cap));
      if q < Min(v.hint, cap) then q else cap
  }

  /** The two-part scan finds a frame iff one is free below `cap`, wherever
      the hint is. */
  lemma ChoiceIsComplete(v: FrameMap, cap: nat)
    ensures Choice(v, cap) < cap <==> exists f :: f in v.free && f < cap
    ensures Choice(v, cap) < cap ==> Choice(v, cap) in v.free
    ensures Choice(v, cap) <= cap
  {
    var r := FirstFree(v.free, v.hint, cap);
    var q := FirstFree(v.free, 0, Min(v.hint, cap));
    if f :| f in v.free && f < cap {
      assert f >= v.hint ==> r < cap;
      assert f < v.hint ==> q < Min(v.hint, cap);
    }
  }

  /** The allocators return 0 for failure, and also for frame 0 should it be
      free: it is taken, and looks like a failure. */
  lemma FrameZeroLooksLikeFailure()
    ensures Choice(FrameMap(4, {0}, 2), 4) == 0
  {
    assert FirstFree({0}, 3, 4) == 4;
  }

  /** Map after a successful single allocation of frame `f`. */
  function Take(v: FrameMap, f: nat): FrameMap {
    v.(free := v.free - {f}, hint := f + 1)
  }

  // -------------------------------------------------------- contiguous runs

  datatype ScanState = Found(start: nat) | Pending(run: nat, start: nat)

  /** The run-counting scan over `[f, end)` entered with `run` frames already
      counted from `start`. */
  function ScanRun(free: set<nat>, f: nat, end: nat, run: nat, start: nat, pages: nat): (r: ScanState)
    decreases end - f
  {
    if f >= end then Pending(run, start)
    else if f in free then
      var st := if run == 0 then f else start;
      if run + 1 == pages then Found(st) else ScanRun(free, f + 1, end, run + 1, st, pages)
    else ScanRun(free, f + 1, end, 0, start, pages)
  }

  lemma {:induction false} NoRunOfZero(free: set<nat>, f: nat, end: nat, run: nat, start: nat)
    ensures ScanRun(free, f, end, run, start, 0).Pending?
    decreases end - f
  {
    if f < end {
      if f in free {
        NoRunOfZero(free, f + 1, end, run + 1, if run == 0 then f else start);
      } else {
        NoRunOfZero(free, f + 1, end, 0, start);
      }
    }
  }

  /** Both parts of the scan; the counter is carried from the first into the second. */
  function ContigScan(v: FrameMap, cap: nat, pages: nat): (r: ScanState) {
    var a := ScanRun(v.free, v.hint, cap, 0, 0, pages);
    if a.Found? then a else ScanRun(v.free, 0, Min(v.hint, cap), a.run, a.start, pages)
  }

  ghost predicate FreeRun(free: set<nat>, start: nat, pages: nat) {
    forall f :: start <= f < start + pages ==> f in free
  }

  /** The counted frames are free and end just before `f`. */
  ghost predicate Counted(free: set<nat>, f: nat, run: nat, start: nat) {
    run > 0 ==> start + run == f && FreeRun(free, start, run)
  }

  lemma {:induction false} ScanRunSound(free: set<nat>, f: nat, end: nat, run: nat, start: nat, pages: nat)
    requires Counted(free, f, run, start) && run < pages
    ensures var r := ScanRun(free, f, end, run, start, pages);
            r.Found? ==> FreeRun(free, r.start, pages) && f - run <= r.start && r.start + pages <= end
    decreases end - f
  {
    if f < end {
      if f in free {
        if run + 1 != pages {
          ScanRunSound(free, f + 1, end, run + 1, if run == 0 then f else start, pages);
        }
      } else {
        ScanRunSound(free, f + 1, end, 0, start, pages);
      }
    }
  }

  /** When the scan finds nothing, no run lies wholly in the part it covered. */
  lemma {:induction false} ScanRunComplete(free: set<nat>, f: nat, end: nat, run: nat, start: nat, pages: nat, a: nat)
    requires Counted(free, f, run, start) && run < pages
    requires ScanRun(free, f, end, run, start, pages).Pending?
    requires f - run <= a && a + pages <= end && f <= end
    ensures !FreeRun(free, a, pages)
    decreases end - f
  {
    if f < end {
      if f in free {
        ScanRunComplete(free, f + 1, end, run + 1, if run == 0 then f else start, pages, a);
      } else if a > f {
        ScanRunComplete(free, f + 1, end, 0, start, pages, a);
      }
    }
  }

  lemma NoneOfZero(v: FrameMap, cap: nat)
    ensures ContigScan(v, cap, 0).Pending?
  {
    NoRunOfZero(v.free, v.hint, cap, 0, 0);
    var z := ScanRun(v.free, v.hint, cap, 0, 0, 0);
    NoRunOfZero(v.free, 0, Min(v.hint, cap), z.run, z.start);
  }

  /** While frame 0 is reserved the carried counter is harmless: a run that is
      found was entirely free and lies in one of the two parts. */
  lemma ContigScanSound(v: FrameMap, cap: nat, pages: nat)
    requires 0 !in v.free
    ensures var r := ContigScan(v, cap, pages);
            r.Found? ==> pages > 0 && FreeRun(v.free, r.start, pages) && 0 < r.start && r.start + pages <= cap
  {
    if pages == 0 {
      NoneOfZero(v, cap);
      return;
    }
    ScanRunSound(v.free, v.hint, cap, 0, 0, pages);
    var end := Min(v.hint, cap);
    var a := ScanRun(v.free, v.hint, cap, 0, 0, pages);
    if a.Pending? && end > 0 {
      assert ScanRun(v.free, 0, end, a.run, a.start, pages) == ScanRun(v.free, 1, end, 0, a.start, pages);
      ScanRunSound(v.free, 1, end, 0, a.start, pages);
    }
    assert ContigScan(v, cap, pages).Found? ==> ContigScan(v, cap, pages).start in v.free;
  }

  // ------------------------------------------- the counter that is not reset

  /** Number of free frames just below `end`, not looking below `lo`. */
  function TopRun(free: set<nat>, lo: nat, end: nat): (r: nat)
    ensures end >= lo ==> lo + r <= end
    ensures end <= lo ==> r == 0
  {
    if end > lo && end - 1 in free then 1 + TopRun(free, lo, end - 1) else 0
  }

  lemma {:induction false} TopRunIsFree(free: set<nat>, lo: nat, end: nat)
    requires lo <= end
    ensures FreeRun(free, end - TopRun(free, lo, end), TopRun(free, lo, end))
  {
    if end > lo && end - 1 in free {
      TopRunIsFree(free, lo, end - 1);
    }
  }

  /** What a search that finds nothing is left with: the free frames just below
      the end of its part. */
  lemma {:induction false} ScanRunLeft(free: set<nat>, lo: nat, f: nat, end: nat, run: nat, start: nat, pages: nat)
    requires lo <= f <= end && run < pages && run == TopRun(free, lo, f) && (run > 0 ==> start + run == f)
    ensures var r := ScanRun(free, f, end, run, start, pages);
            r.Pending? ==> r.run < pages && r.run == TopRun(free, lo, end) && (r.run > 0 ==> r.start + r.run == end)
    decreases end - f
  {
    if f < end {
      if f in free {
        if run + 1 != pages {
          ScanRunLeft(free, lo, f + 1, end, run + 1, if run == 0 then f else start, pages);
        }
      } else {
        ScanRunLeft(free, lo, f + 1, end, 0, start, pages);
      }
    }
  }

  /** A scan entered with a foreign count names the foreign start exactly when
      the missing frames lie free at its beginning; otherwise it is sound. */
  lemma {:induction false} CarriedScan(free: set<nat>, f: nat, end: nat, run: nat, start: nat, pages: nat)
    requires 0 < run < pages
    ensures var r := ScanRun(free, f, end, run, start, pages);
            if f + (pages - run) <= end && FreeRun(free, f, pages - run) then r == Found(start)
            else r.Found? ==> FreeRun(free, r.start, pages) && f <= r.start && r.start + pages <= end
    decreases end - f
  {
    if f < end {
      if f in free {
        if run + 1 != pages {
          CarriedScan(free, f + 1, end, run + 1, start, pages);
          assert FreeRun(free, f, pages - run) <==> FreeRun(free, f + 1, pages - run - 1);
        }
      } else {
        ScanRunSound(free, f + 1, end, 0, start, pages);
      }
    }
  }

  /** Free frames at the top of the range and at its bottom that together make up
      the run, while the part above the hint holds no such run. */
  ghost predicate Joins(v: FrameMap, cap: nat, pages: nat) {
    var run := TopRun(v.free, v.hint, cap);
    && (forall a :: v.hint <= a && a + pages <= cap ==> !FreeRun(v.free, a, pages))
    && 0 < run < pages && pages - run <= Min(v.hint, cap) && FreeRun(v.free, 0, pages - run)
  }

  lemma FirstPart(v: FrameMap, cap: nat, pages: nat)
    requires pages > 0
    ensures var a := ScanRun(v.free, v.hint, cap, 0, 0, pages);
            var run := TopRun(v.free, v.hint, cap);
            && (a.Found? <==> exists x :: v.hint <= x && x + pages <= cap && FreeRun(v.free, x, pages))
            && (a.Found? ==> FreeRun(v.free, a.start, pages) && a.start + pages <= cap)
            && (a.Pending? ==> a.run == run < pages && (run > 0 ==> a.start + run == cap))
  {
    ScanRunSound(v.free, v.hint, cap, 0, 0, pages);
    var a := ScanRun(v.free, v.hint, cap, 0, 0, pages);
    if v.hint <= cap {
      ScanRunLeft(v.free, v.hint, v.hint, cap, 0, 0, pages);
    }
    if a.Pending? {
      forall x | v.hint <= x && x + pages <= cap ensures !FreeRun(v.free, x, pages) {
        ScanRunComplete(v.free, v.hint, cap, 0, 0, pages, x);
      }
    }
  }

  /** Contiguous allocation is sound exactly when the two ends do not join; when
      they do, it names a run that starts at the top and ends past `cap`. */
  lemma ContigScanExact(v: FrameMap, cap: nat, pages: nat)
    requires pages > 0
    ensures var r := ContigScan(v, cap, pages);
            (r.Found? ==> FreeRun(v.free, r.start, pages) && r.start + pages <= cap) <==> !Joins(v, cap, pages)
    ensures Joins(v, cap, pages) ==> ContigScan(v, cap, pages) == Found(cap - TopRun(v.free, v.hint, cap))
  {
    hide FreeRun, ScanRun, TopRun;
    FirstPart(v, cap, pages);
    var a, end := ScanRun(v.free, v.hint, cap, 0, 0, pages), Min(v.hint, cap);
    if a.Pending? {
      if a.run > 0 {
        CarriedScan(v.free, 0, end, a.run, a.start, pages);
      } else {
        FreshScan(v.free, end, a.start, pages);
      }
    }
  }

  lemma FreshScan(free: set<nat>, end: nat, start: nat, pages: nat)
    requires pages > 0
    ensures var r := ScanRun(free, 0, end, 0, start, pages);
            r.Found? ==> FreeRun(free, r.start, pages) && r.start + pages <= end
  {
    ScanRunSound(free, 0, end, 0, start, pages);
  }

  /** With frame 0 reserved the ends never join. */
  lemma ReservedNeverJoins(v: FrameMap, cap: nat, pages: nat)
    requires 0 !in v.free
    ensures !Joins(v, cap, pages)
  {
    hide TopRun;
    assert Joins(v, cap, pages) ==> 0 in v.free;
  }

  lemma {:induction false} CarriedScanComplete(free: set<nat>, f: nat, end: nat, run: nat, start: nat, pages: nat,
                                               a: nat)
    requires run < pages && ScanRun(free, f, end, run, start, pages).Pending? && f <= a && a + pages <= end
    ensures !FreeRun(free, a, pages)
    decreases end - f
  {
    if run == 0 {
      ScanRunComplete(free, f, end, run, start, pages, a);
    } else if f !in free {
      if a > f {
        ScanRunComplete(free, f + 1, end, 0, start, pages, a);
      }
    } else if a == f {
      CarriedScan(free, f, end, run, start, pages);
    } else {
      CarriedScanComplete(free, f + 1, end, run + 1, start, pages, a);
    }
  }

  /** No run of that length lies wholly at or above the hint, nor wholly below it. */
  ghost predicate NoRunInParts(v: FrameMap, cap: nat, pages: nat) {
    forall a: nat :: (v.hint <= a && a + pages <= cap) || a + pages <= Min(v.hint, cap) ==> !FreeRun(v.free, a, pages)
  }

  /** A failed search means just that, wherever the hint is. */
  lemma ContigScanComplete(v: FrameMap, cap: nat, pages: nat)
    requires pages > 0 && ContigScan(v, cap, pages).Pending?
    ensures NoRunInParts(v, cap, pages)
  {
    hide FreeRun, ScanRun, TopRun;
    FirstPart(v, cap, pages);
    var p, end := ScanRun(v.free, v.hint, cap, 0, 0, pages), Min(v.hint, cap);
    forall a: nat | a + pages <= end ensures !FreeRun(v.free, a, pages) {
      CarriedScanComplete(v.free, 0, end, p.run, p.start, pages, a);
    }
  }

  /** Such a map exists: the last frame is joined to the first, and a frame beyond
      the end of memory is named. */
  lemma CarriedCounterUnsound()
    ensures var v := FrameMap(4, {0, 3}, 2);
            && WellFormed(v) && ContigScan(v, 4, 2) == Found(3)
            && !FreeRun(v.free, 3, 2)
  {
    var v := FrameMap(4, {0, 3}, 2);
    assert ScanRun(v.free, 3, 4, 0, 0, 2) == Pending(1, 3);
    assert ScanRun(v.free, 2, 4, 0, 0, 2) == Pending(1, 3);
    assert 4 !in v.free;
  }

  /** The frames of a run. */
  function RunFrames(start: nat, pages: nat): (r: set<nat>)
    ensures forall f: nat :: f in r <==> start <= f < start + pages
  {
    if pages == 0 then {} else RunFrames(start, pages - 1) + {start + pages - 1}
  }

  lemma RunTaken(free: set<nat>, start: nat, n: nat)
    ensures free - RunFrames(start, n) - {start + n} == free - RunFrames(start, n + 1)
  {
  }

  /** Map after a successful contiguous allocation. */
  function TakeRun(v: FrameMap, start: nat, pages: nat): FrameMap {
    v.(free := v.free - RunFrames(start, pages), hint := start + pages)
  }

  // -------------------------------------------------------------- releasing

  /** `tpmm_free`: only a used frame below `total` changes anything. */
  function Release(v: FrameMap, f: nat): FrameMap {
    if f >= v.total || f in v.free then v
    else v.(free := v.free + {f}, hint := Min(v.hint, f))
  }

  // ------------------------------------------ no frame is handed out twice

  datatype Op = OneBelow(cap: nat) | RunBelow(cap: nat, pages: nat) | Give(f: nat) | Reserve(f: nat)

  /** Frames an operation hands to its caller. */
  function Handed(v: FrameMap, op: Op): (r: set<nat>) {
    match op
    case OneBelow(cap) => if Choice(v, cap) < cap then {Choice(v, cap)} else {}
    case RunBelow(cap, pages) =>
      var r := ContigScan(v, cap, pages);
      if r.Found? then RunFrames(r.start, pages) else {}
    case _ => {}
  }

  function After(v: FrameMap, op: Op): (r: FrameMap) {
    match op
    case OneBelow(cap) => if Choice(v, cap) < cap then Take(v, Choice(v, cap)) else v
    case RunBelow(cap, pages) =>
      var r := ContigScan(v, cap, pages);
      if r.Found? then TakeRun(v, r.start, pages) else v
    case Give(f) => Release(v, f)
    case Reserve(f) => v.(free := v.free - {f})
  }

  function Exec(v: FrameMap, ops: seq<Op>): (r: FrameMap) {
    if ops == [] then v else After(Exec(v, ops[..|ops| - 1]), ops[|ops| - 1])
  }

  /** What is handed out is no longer free afterwards, and was free unless a run
      was joined from the two ends of its range. */
  lemma HandedWasFree(v: FrameMap, op: Op)
    ensures Handed(v, op) !! After(v, op).free
    ensures !(op.RunBelow? && Joins(v, op.cap, op.pages)) ==> Handed(v, op) <= v.free
  {
    hide Joins;
    match op
    case OneBelow(cap) => ChoiceIsComplete(v, cap);
    case RunBelow(cap, pages) =>
      if pages == 0 {
        NoneOfZero(v, cap);
      } else {
        ContigScanExact(v, cap, pages);
      }
    case _ =>
  }

  lemma {:induction false} StaysUsed(v: FrameMap, ops: seq<Op>, f: nat)
    requires f !in v.free && Give(f) !in ops
    ensures f !in Exec(v, ops).free
  {
    if ops != [] {
      var n := |ops| - 1;
      assert ops[n] in ops && forall op :: op in ops[..n] ==> op in ops;
      StaysUsed(v, ops[..n], f);
      hide Choice, ContigScan;
    }
  }

  lemma {:induction false} ExecSplit(v: FrameMap, a: seq<Op>, b: seq<Op>)
    ensures Exec(v, a + b) == Exec(Exec(v, a), b)
  {
    if b == [] {
      assert a + b == a;
    } else {
      var n := |b| - 1;
      hide After;
      ExecSplit(v, a, b[..n]);
      assert (a + b)[..|a + b| - 1] == a + b[..n];
    }
  }

  lemma UsedOnceHanded(v: FrameMap, ops: seq<Op>, i: nat, f: nat)
    requires i < |ops| && f in Handed(Exec(v, ops[..i]), ops[i])
    ensures f !in Exec(v, ops[..i + 1]).free
  {
    hide Handed, After;
    assert ops[..i + 1][..i] == ops[..i];
    HandedWasFree(Exec(v, ops[..i]), ops[i]);
  }

  /** Between two hand-outs of a frame there is a release of that frame, as long as
      the second hand-out is not a run joined from two ends. */
  lemma SecondHandout(v: FrameMap, ops: seq<Op>, i: nat, j: nat, f: nat)
    requires i < j < |ops| && f in Handed(Exec(v, ops[..i]), ops[i]) && f in Handed(Exec(v, ops[..j]), ops[j])
    requires !(ops[j].RunBelow? && Joins(Exec(v, ops[..j]), ops[j].cap, ops[j].pages))
    ensures Give(f) in ops[i + 1..j]
  {
    hide Handed, After, Exec, Joins;
    var a, between := ops[..i + 1], ops[i + 1..j];
    assert ops[..j] == a + between;
    HandedWasFree(Exec(v, ops[..j]), ops[j]);
    ExecSplit(v, a, between);
    UsedOnceHanded(v, ops, i, f);
    if Give(f) !in between {
      StaysUsed(Exec(v, a), between, f);
    }
  }

  /** So it is in every history in which frame 0 is reserved and never given back. */
  lemma NoDoubleHandout(v: FrameMap, ops: seq<Op>, i: nat, j: nat, f: nat)
    requires 0 !in v.free && Give(0) !in ops && i < j < |ops|
    requires f in Handed(Exec(v, ops[..i]), ops[i]) && f in Handed(Exec(v, ops[..j]), ops[j])
    ensures Give(f) in ops[i + 1..j]
  {
    hide Handed, Exec, Joins;
    StaysUsed(v, ops[..j], 0);
    if ops[j].RunBelow? {
      ReservedNeverJoins(Exec(v, ops[..j]), ops[j].cap, ops[j].pages);
    }
    SecondHandout(v, ops, i, j, f);
  }

  /** With frame 0 free it can fail: frame 4, past the end of memory, is handed out
      twice although only frame 3 is given back. */
  lemma JoinedHandsTwice()
    ensures var v, ops := FrameMap(4, {0, 3}, 2), [RunBelow(4, 2), Give(3), RunBelow(4, 2)];
            && WellFormed(v) && 4 in Handed(Exec(v, ops[..0]), ops[0]) && 4 in Handed(Exec(v, ops[..2]), ops[2])
            && Give(4) !in ops
  {
    var v, ops := FrameMap(4, {0, 3}, 2), [RunBelow(4, 2), Give(3), RunBelow(4, 2)];
    CarriedCounterUnsound();
    assert ops[..1] == [RunBelow(4, 2)] && ops[..2] == [RunBelow(4, 2), Give(3)];
    assert ops[..1][..0] == [] && ops[..2][..1] == ops[..1];
    var t := After(v, RunBelow(4, 2));
    assert Exec(v, ops[..1]) == After(Exec(v, ops[..1][..0]), RunBelow(4, 2)) == t;
    assert t.free == {0} && t.hint == 5;
    var u := After(t, Give(3));
    assert Exec(v, ops[..2]) == After(Exec(v, ops[..2][..1]), Give(3)) == u;
    assert u == FrameMap(4, {0, 3}, 3);
    assert ScanRun(u.free, 3, 4, 0, 0, 2) == Pending(1, 3);
    assert ContigScan(u, 4, 2) == Found(3);
  }

  // ---------------------------------------------------------- byte ranges

  /** Number of page frames a byte range touches, from the page of its first
      byte up; its end is computed on 64 bits. */
  function TouchedCount(base: nat, size: nat): nat {
    var pages := (Wrap64(base + size) + PAGE_SIZE - 1) / PAGE_SIZE;
    if base / PAGE_SIZE < pages then pages - base / PAGE_SIZE else 0
  }

  function TouchedFrames(base: nat, size: nat): set<nat> {
    RunFrames(base / PAGE_SIZE, TouchedCount(base, size))
  }

  /** Frame numbers cut to 32 bits. */
  function CutFrames(start: nat, pages: nat): (r: set<nat>) {
    if pages == 0 then {} else CutFrames(start, pages - 1) + {(start + pages - 1) % TWO32}
  }

  /** Below 16 TiB nothing is cut. */
  lemma {:induction false} CutIsRun(start: nat, pages: nat)
    requires start + pages <= TWO32
    ensures CutFrames(start, pages) == RunFrames(start, pages)
  {
    if pages > 0 {
      CutIsRun(start, pages - 1);
    }
  }

  /** Page `n` of the range, counted from the page of `base`. */
  lemma TouchedPage(base: nat, size: nat, n: nat)
    ensures var a := (base / PAGE_SIZE + n) * PAGE_SIZE;
            && (a < Wrap64(base + size) <==> n < TouchedCount(base, size))
            && a / PAGE_SIZE == base / PAGE_SIZE + n
  {
    var end, a := Wrap64(base + size), (base / PAGE_SIZE + n) * PAGE_SIZE;
    hide Wrap64;
    WholePages(end, 0, base / PAGE_SIZE + n);
  }

  lemma TouchedBelow(base: nat, size: nat)
    requires base + size <= MAX_ADDR
    ensures base / PAGE_SIZE + TouchedCount(base, size) <= TWO32
  {
  }

  /** Only the last page of the address space has a successor that wraps, and its
      frame number is cut to the largest one. */
  lemma NoPageWrap(a: nat)
    requires a < TWO64 && a % PAGE_SIZE == 0 && a / PAGE_SIZE % TWO32 < MAX_FRAMES
    ensures a + PAGE_SIZE < TWO64 && Wrap64(a + PAGE_SIZE) == a + PAGE_SIZE
  {
    if a + PAGE_SIZE >= TWO64 {
      assert a / PAGE_SIZE == TWO32 * 0x10_0000 - 1;
      DivModUnique(a / PAGE_SIZE, TWO32, 0x10_0000 - 1, TWO32 - 1);
    }
  }

  /** Address of page `n` of a range, on 64 bits. */
  function PageAddr(base: nat, n: nat): nat { Wrap64((base / PAGE_SIZE + n) * PAGE_SIZE) }

  /** The loop over the pages of a range comes to one at or beyond its end if and
      only if the end is not in the last page of the address space. */
  lemma ReserveEndsIff(base: nat, end: nat)
    requires base < TWO64 && end < TWO64
    ensures (exists n :: PageAddr(base, n) >= end) <==> end <= TWO64 - PAGE_SIZE
  {
    var last := TWO32 * 0x10_0000 - 1;
    if end <= TWO64 - PAGE_SIZE {
      assert PageAddr(base, last - base / PAGE_SIZE) == TWO64 - PAGE_SIZE;
    } else {
      forall n: nat ensures PageAddr(base, n) < end {
        PageAddrAligned(base, n);
      }
    }
  }

  lemma PageAddrAligned(base: nat, n: nat)
    ensures PageAddr(base, n) <= TWO64 - PAGE_SIZE
  {
    var x := base / PAGE_SIZE + n;
    var m := TWO32 * 0x10_0000;
    assert x == m * (x / m) + x % m;
    DivModUnique(x * PAGE_SIZE, TWO64, x / m, x % m * PAGE_SIZE);
  }

  /** Frame numbers go up by one as long as they stay on 32 bits. */
  lemma CutNext(x: nat, n: nat)
    requires x % TWO32 + n < TWO32
    ensures (x + n) % TWO32 == x % TWO32 + n
  {
  }

  // ------------------------------------------------------- the memory map

  /** One entry of the boot loader's memory map; `kind` 1 is available RAM. */
  datatype Region = Region(base: nat, len: nat, kind: nat)

  /** First frame and end frame of an entry, as `tpmm_init` computes them: on
      64 bits, cut off at 4 GiB, the frame number truncated to 32 bits. */
  function FirstFrame(r: Region): nat { Wrap64(r.base + PAGE_SIZE - 1) / PAGE_SIZE % TWO32 }

  function EndFrame(r: Region): (e: nat)
    ensures e <= MAX_FRAMES
  {
    Min(Wrap64(r.base + r.len), MAX_ADDR) / PAGE_SIZE
  }

  predicate Opens(r: Region) { r.kind == 1 && FirstFrame(r) < EndFrame(r) }

  function RegionFrames(r: Region): (s: set<nat>)
    ensures forall f :: f in s ==> f < EndFrame(r)
  {
    if Opens(r) then RunFrames(FirstFrame(r), EndFrame(r) - FirstFrame(r)) else {}
  }

  /** Frames some entry opens, and the end of the highest one. */
  function MapFrames(rs: seq<Region>): (s: set<nat>) {
    if rs == [] then {} else MapFrames(rs[..|rs| - 1]) + RegionFrames(rs[|rs| - 1])
  }

  function MapTotal(rs: seq<Region>): (n: nat)
    ensures n <= MAX_FRAMES
    ensures forall f :: f in MapFrames(rs) ==> f < n
  {
    if rs == [] then 0
    else
      var n, r := MapTotal(rs[..|rs| - 1]), rs[|rs| - 1];
      if Opens(r) && n < EndFrame(r) then EndFrame(r) else n
  }

  /** A whole 4 KiB frame below 4 GiB inside an available region. */
  ghost predicate Covers(r: Region, f: nat) {
    r.kind == 1 && f < MAX_FRAMES && r.base <= f * PAGE_SIZE && (f + 1) * PAGE_SIZE <= r.base + r.len
  }

  /** First whole frame of an entry, without truncation. */
  function FirstWhole(r: Region): nat { (r.base + PAGE_SIZE - 1) / PAGE_SIZE }

  lemma WholePages(x: nat, y: nat, f: nat)
    ensures (x + PAGE_SIZE - 1) / PAGE_SIZE <= f <==> x <= f * PAGE_SIZE
    ensures f < y / PAGE_SIZE <==> (f + 1) * PAGE_SIZE <= y
  {
  }

  lemma RegionCoversAt(r: Region, f: nat)
    requires r.base + r.len < TWO64 && FirstWhole(r) < TWO32
    ensures f in RegionFrames(r) <==> Covers(r, f)
  {
    hide RunFrames, FirstFrame, EndFrame;
    RegionFields(r);
    WholePages(r.base, Min(r.base + r.len, MAX_ADDR), f);
  }

  lemma RegionFields(r: Region)
    requires r.base + r.len < TWO64 && FirstWhole(r) < TWO32
    ensures FirstFrame(r) == FirstWhole(r) && EndFrame(r) == Min(r.base + r.len, MAX_ADDR) / PAGE_SIZE
  {
  }

  /** An entry whose end wraps opens nothing, whatever it covers. */
  lemma WrappedOpensNothing(r: Region)
    requires r.len < TWO64 <= r.base + r.len && FirstWhole(r) < TWO32
    ensures !Opens(r) && (FirstWhole(r) < MAX_FRAMES && r.kind == 1 ==> Covers(r, FirstWhole(r)))
    ensures FirstWhole(r) >= MAX_FRAMES || r.kind != 1 ==> forall f: nat :: !Covers(r, f)
  {
    assert Wrap64(r.base + r.len) == r.base + r.len - TWO64 < r.base;
    assert FirstFrame(r) == FirstWhole(r);
    forall f: nat | FirstWhole(r) >= MAX_FRAMES ensures !Covers(r, f) {
      assert f < MAX_FRAMES ==> f * PAGE_SIZE < r.base;
    }
  }

  /** An entry opens exactly the frames it covers if and only if it is neither an
      entry from 16 TiB up whose truncated frame number falls below 4 GiB, nor one
      that covers memory and ends beyond 2^64. */
  lemma RegionOpensWhatItCovers(r: Region)
    requires r.base < TWO64 && r.len < TWO64
    ensures (forall f: nat :: f in RegionFrames(r) <==> Covers(r, f))
       <==> && !(FirstWhole(r) >= TWO32 && Opens(r))
            && !(r.base + r.len >= TWO64 && FirstWhole(r) < MAX_FRAMES && r.kind == 1)
  {
    if FirstWhole(r) >= TWO32 {
      hide RunFrames, EndFrame;
      forall f: nat ensures !Covers(r, f) {}
      assert Opens(r) ==> FirstFrame(r) in RegionFrames(r);
    } else if r.base + r.len < TWO64 {
      forall f: nat ensures f in RegionFrames(r) <==> Covers(r, f) { RegionCoversAt(r, f); }
    } else {
      hide RunFrames, EndFrame, Covers;
      WrappedOpensNothing(r);
    }
  }

  /** Such an entry exists: a single page at 16 TiB opens all of 4 GiB. */
  lemma TruncatedRegion()
    ensures var r := Region(0x1000_0000_0000, 0x1000, 1);
            0 in RegionFrames(r) && !Covers(r, 0)
  {
    var r := Region(0x1000_0000_0000, 0x1000, 1);
    hide RunFrames;
    assert FirstFrame(r) == 0 && EndFrame(r) == MAX_FRAMES;
  }
}
