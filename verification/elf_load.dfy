/**
  The ELF loader of `telf.c` over the machine: contiguous low frames, one
  mapping per page, file bytes and zero fill through the physmap.
*/
module ElfLoad {
  import opened Words
  import opened Frames
  import opened Paging
  import opened PhysBytes
  import opened Spaces
  import opened ElfParse

  const USER_BIT: nat := 4
  const WRITE_BIT: nat := 2

  /** Page flags of a segment: USER, WRITE if writable, NX if not executable. */
  function FlagsOf(g: Segment): (r: nat) {
    USER_BIT + (if g.writable then WRITE_BIT else 0) + (if g.executable then 0 else TWO63)
  }

  lemma FlagsOfFields(g: Segment)
    ensures IsFlags(FlagsOf(g)) && User(FlagsOf(g))
    ensures Writable(FlagsOf(g)) <==> g.writable
    ensures NoExec(FlagsOf(g)) <==> !g.executable
  {
  }

  /** A segment in the user region, as the loader demands. */
  predicate InUserRegion(g: Segment) {
    USER_BASE <= g.vaddr && g.vaddr + g.memsz <= USER_END
  }

  /** Number of pages, in the loader's 64-bit arithmetic. An empty segment on a
      page boundary ends before it starts and yields 2^52. */
  function PageCount(g: Segment): (n: nat)
    requires InUserRegion(g)
  {
    Wrap64(LastPage(g) * PAGE + TWO64 - FirstPage(g) * PAGE) / PAGE + 1
  }

  predicate Empty(g: Segment) { g.memsz == 0 && g.vaddr % PAGE == 0 }

  lemma PageCountOf(g: Segment)
    requires InUserRegion(g)
    ensures !Empty(g) ==> FirstPage(g) <= LastPage(g) && PageCount(g) == LastPage(g) - FirstPage(g) + 1
    ensures !Empty(g) ==> g.memsz <= PageCount(g) * PAGE && LastPage(g) < USER_END / PAGE
    ensures Empty(g) ==> PageCount(g) == TWO52
    ensures USER_BASE / PAGE <= FirstPage(g)
  {
  }

  /** Address of the segment's page `p`. */
  function VirtAt(g: Segment, p: nat): nat { Wrap64(FirstPage(g) * PAGE + p * PAGE) }

  /** The segment's page `p` by its table indices. */
  function SegPage(g: Segment, p: nat): VPage { PageNo(FirstPage(g) + p) }

  lemma VirtAtPage(g: Segment, p: nat)
    requires InUserRegion(g) && !Empty(g) && p < PageCount(g)
    ensures VirtAt(g, p) == (FirstPage(g) + p) * PAGE
    ensures PageOf(VirtAt(g, p)) == SegPage(g, p) && UserPage(SegPage(g, p))
  {
    PageCountOf(g);
    var k := FirstPage(g) + p;
    assert k * PAGE / PAGE == k;
    UserRegionPage(k * PAGE);
    hide PageNo;
  }

  // ------------------------------------------------------------- the phases

  /** Whether the defensive check meets a mapped page among the first `n`. */
  function AnyMapped(m: Memory, root: nat, g: Segment, n: nat): (r: bool) {
    n > 0 && (AnyMapped(m, root, g, n - 1) || PhysOf(m, root, VirtAt(g, n - 1)).Some?)
  }

  /** Maps the first `n` pages of a segment to consecutive frames from `start`. */
  function MapRun(s: Machine, root: nat, g: Segment, start: nat, n: nat): (r: (Machine, bool))
    requires MachineOk(s) && IsSpace(s, root)
    ensures MachineOk(r.0)
    ensures forall f :: f in s.own ==> f in r.0.own && r.0.own[f] == s.own[f]
  {
    if n == 0 then (s, true)
    else
      var (t, ok) := MapRun(s, root, g, start, n - 1);
      if !ok then (t, false)
      else MapPage(t, root, VirtAt(g, n - 1), (start + n - 1) * PAGE, FlagsOf(g))
  }

  lemma RunTakenOk(s: Machine, start: nat, n: nat)
    requires MachineOk(s) && start + n <= s.frames.total
    ensures MachineOk(s.(frames := TakeRun(s.frames, start, n)))
  {
    var t := s.(frames := TakeRun(s.frames, start, n));
    hide Entry, Present, Huge, FrameOf, RunFrames;
    forall f, i | f in t.own && Depth(t.own[f]) < 3 && UserSlot(t.own[f], i) ensures LinkOk(t, f, i) {
      assert LinkOk(s, f, i);
    }
  }

  // ------------------------------------------ mapping does not touch data

  /** Frames that are in use and hold no table: somebody's data. */
  ghost predicate IsData(s: Machine, f: nat) {
    f < LOW_FRAMES && f !in s.own && f !in s.frames.free
  }

  lemma EnsureKeepsData(s: Machine, t: nat, i: nat, flags: nat, f: nat)
    requires MachineOk(s) && t in s.own && Depth(s.own[t]) < 3 && UserSlot(s.own[t], i) && IsData(s, f)
    ensures var r := Ensure(s, t, i, flags).0; IsData(r, f) && r.mem[f] == s.mem[f]
  {
    ChoiceIsComplete(s.frames, LowCap(s.frames));
    hide Choice, Present, FrameOf, Linked;
  }

  lemma MapKeepsData(s: Machine, root: nat, virt: nat, phys: nat, flags: nat, f: nat)
    requires MachineOk(s) && IsSpace(s, root) && IsData(s, f)
    ensures var t := MapPage(s, root, virt, phys, flags).0; IsData(t, f) && t.mem[f] == s.mem[f]
  {
    hide Ensure, LeafEntry, MachineOk, IsData;
    var p := PageOf(virt);
    hide PageOf;
    if !KernelSlot(p.i4) {
      EnsureKeepsData(s, root, p.i4, flags, f);
      var (s1, a) := Ensure(s, root, p.i4, flags);
      if a.Some? {
        EnsureKeepsData(s1, a.value, p.i3, flags, f);
        var (s2, b) := Ensure(s1, a.value, p.i3, flags);
        if b.Some? {
          EnsureKeepsData(s2, b.value, p.i2, flags, f);
          var (s3, c) := Ensure(s2, b.value, p.i2, flags);
          if c.Some? {
            LeafWriteKeepsData(s3, c.value, p.i1, LeafEntry(phys, flags), f);
          }
        }
      }
    }
  }

  lemma LeafWriteKeepsData(s: Machine, t: nat, i: nat, e: nat, f: nat)
    requires MachineOk(s) && t in s.own && i < ENTRIES && IsData(s, f)
    ensures var m := SetEntry(s.mem, t, i, e); m[f] == s.mem[f] && IsData(s.(mem := m), f)
  {
    hide Linked;
  }

  lemma {:induction false} MapRunKeepsData(s: Machine, root: nat, g: Segment, start: nat, n: nat, f: nat)
    requires MachineOk(s) && IsSpace(s, root) && IsData(s, f)
    ensures var t := MapRun(s, root, g, start, n).0; IsData(t, f) && t.mem[f] == s.mem[f]
  {
    hide MapPage, MachineOk, IsData, FlagsOf, VirtAt;
    if n > 0 {
      MapRunKeepsData(s, root, g, start, n - 1, f);
      var (t, ok) := MapRun(s, root, g, start, n - 1);
      if ok {
        MapKeepsData(t, root, VirtAt(g, n - 1), (start + n - 1) * PAGE, FlagsOf(g), f);
      }
    }
  }

  /** Entries of other spaces, and of other pages of this one, stay as they were. */
  lemma {:induction false} MapRunOther(s: Machine, root: nat, g: Segment, start: nat, n: nat, r: nat, q: VPage)
    requires MachineOk(s) && IsSpace(s, root) && IsSpace(s, r) && UserPage(q)
    requires InUserRegion(g) && !Empty(g) && n <= PageCount(g)
    requires r != root || forall p: nat :: p < n ==> q != SegPage(g, p)
    ensures var t := MapRun(s, root, g, start, n).0;
            IsSpace(t, r) && Leaf(t.mem, r, q) == Leaf(s.mem, r, q)
  {
    hide MapPage, MachineOk, FlagsOf, VirtAt, PageOf, SegPage, PageCount, Leaf, LeafEntry;
    if n > 0 {
      MapRunOther(s, root, g, start, n - 1, r, q);
      var (t, ok) := MapRun(s, root, g, start, n - 1);
      if ok {
        VirtAtPage(g, n - 1);
        MapRefines(t, root, VirtAt(g, n - 1), (start + n - 1) * PAGE, FlagsOf(g), r, q);
      }
    }
  }

  lemma SegPagesDiffer(g: Segment, p: nat, q: nat)
    requires InUserRegion(g) && !Empty(g) && p < PageCount(g) && q < PageCount(g) && p != q
    ensures SegPage(g, p) != SegPage(g, q)
  {
    PageCountOf(g);
    var k, l := FirstPage(g) + p, FirstPage(g) + q;
    assert k < 0x10_0000_0000 && l < 0x10_0000_0000;
    hide FirstPage, LastPage, PageCount, PageNo;
    if PageNo(k) == PageNo(l) {
      PageNoInjective(k, l);
    }
  }

  /** Each page of the segment leads to its own frame of the run. */
  lemma {:induction false} MapRunHit(s: Machine, root: nat, g: Segment, start: nat, n: nat, p: nat)
    requires MachineOk(s) && IsSpace(s, root) && InUserRegion(g) && !Empty(g) && n <= PageCount(g) && p < n
    requires MapRun(s, root, g, start, n).1
    ensures Leaf(MapRun(s, root, g, start, n).0.mem, root, SegPage(g, p)) == LeafEntry((start + p) * PAGE, FlagsOf(g))
  {
    hide MapPage, MachineOk, FlagsOf, VirtAt, PageOf, SegPage, PageCount, Leaf, LeafEntry, UserPage;
    VirtAtPage(g, p);
    VirtAtPage(g, n - 1);
    var (t, ok) := MapRun(s, root, g, start, n - 1);
    if p < n - 1 {
      SegPagesDiffer(g, p, n - 1);
      MapRunHit(s, root, g, start, n - 1, p);
    }
    MapRefines(t, root, VirtAt(g, n - 1), (start + n - 1) * PAGE, FlagsOf(g), root, SegPage(g, p));
  }

  // ----------------------------------------------------- filling the frames

  /** A copy to a run of `n` frames from `a` stays inside the run if and only if it
      is no longer than the run; a longer one writes the frame after it. */
  lemma CopyStaysInsideIff(m: Memory, a: nat, n: nat, bs: seq<nat>)
    requires MemoryOk(m) && AllBytes(bs) && a * PAGE + |bs| <= WINDOW
    ensures |bs| <= n * PAGE ==>
              forall f: nat :: f < LOW_FRAMES && !(a <= f < a + n) ==> PutBytes(m, a * PAGE, bs)[f] == m[f]
    ensures |bs| > n * PAGE ==> ByteAt(PutBytes(m, a * PAGE, bs), (a + n) * PAGE) == bs[n * PAGE]
  {
    hide ByteAt, PutBytes;
    if |bs| <= n * PAGE {
      forall f: nat | f < LOW_FRAMES && !(a <= f < a + n) ensures PutBytes(m, a * PAGE, bs)[f] == m[f] {
        PutBytesPages(m, a * PAGE, bs, f);
      }
    } else {
      PutBytesAt(m, a * PAGE, bs, (a + n) * PAGE);
    }
  }

  /** Such a header is accepted: two pages of file bytes for 4 GiB + 16 bytes of
      memory, for which one frame is taken. */
  lemma TruncatedCopyOverruns()
    ensures var h := Header(1, 6, 0, USER_BASE, 8192, TWO32 + 16, 0);
            && HeaderError(h, 8192) == 0 && InUserRegion(SegmentOf(h))
            && PageCount(SegmentOf(h)) == 1 && SegmentOf(h).filesz > 1 * PAGE
  {
  }

  function Zeros(n: nat): (z: seq<nat>)
    ensures |z| == n && forall i :: 0 <= i < n ==> z[i] == 0
  {
    seq(n, _ => 0)
  }

  function FileBytes(b: Blob, g: Segment): (r: seq<nat>)
    requires Sound(g, |b|)
    ensures |r| == g.filesz && AllBytes(r)
    ensures forall k :: 0 <= k < g.filesz ==> r[k] == b[g.offset + k]
  {
    b[g.offset..g.offset + g.filesz]
  }

  /** What byte `k` of the segment's memory must be. */
  function ImageByte(b: Blob, g: Segment, k: nat): nat
    requires Sound(g, |b|) && k < g.memsz
  {
    if k < g.filesz then b[g.offset + k] else 0
  }

  /** `tmemcpy` of the file bytes and `tmemset` of the rest. */
  function Filled(m: Memory, phys: nat, b: Blob, g: Segment): (r: Memory)
    requires MemoryOk(m) && Sound(g, |b|) && phys + g.memsz <= WINDOW
    ensures MemoryOk(r)
  {
    PutBytes(PutBytes(m, phys, FileBytes(b, g)), phys + g.filesz, Zeros(g.memsz - g.filesz))
  }

  lemma FilledAt(m: Memory, phys: nat, b: Blob, g: Segment, c: nat)
    requires MemoryOk(m) && Sound(g, |b|) && phys + g.memsz <= WINDOW
    ensures ByteAt(Filled(m, phys, b, g), c)
         == if phys <= c < phys + g.memsz then ImageByte(b, g, c - phys) else ByteAt(m, c)
  {
    var fs, zs := FileBytes(b, g), Zeros(g.memsz - g.filesz);
    hide ByteAt, PutBytes, MemoryOk, FileBytes, Zeros;
    PutBytesAt(m, phys, fs, c);
    PutBytesAt(PutBytes(m, phys, fs), phys + g.filesz, zs, c);
  }

  lemma FilledPages(m: Memory, phys: nat, b: Blob, g: Segment, f: nat)
    requires MemoryOk(m) && Sound(g, |b|) && phys + g.memsz <= WINDOW && f < LOW_FRAMES
    requires (f + 1) * PAGE_SIZE <= phys || phys + g.memsz <= f * PAGE_SIZE
    ensures Filled(m, phys, b, g)[f] == m[f]
  {
    var fs, zs := FileBytes(b, g), Zeros(g.memsz - g.filesz);
    hide PutBytes, MemoryOk, FileBytes, Zeros;
    PutBytesPages(m, phys, fs, f);
    PutBytesPages(PutBytes(m, phys, fs), phys + g.filesz, zs, f);
  }

  // ------------------------------------------------------------ one segment

  const OK: int := 0

  /** What `tpmm_alloc_low_contig(n)` finds: the first frame of the run. */
  function LowRun(v: FrameMap, n: nat): (r: Option<nat>) {
    var c := ContigScan(v, LowCap(v), n);
    if 0 < n <= LowCap(v) && c.Found? then Some(c.start) else None
  }

  lemma LowRunOk(s: Machine, n: nat)
    requires MachineOk(s) && LowRun(s.frames, n).Some?
    ensures var a := LowRun(s.frames, n).value;
            && 0 < a && a + n <= LowCap(s.frames) && a + n <= LOW_FRAMES && a + n <= s.frames.total
            && FreeRun(s.frames.free, a, n)
  {
    ContigScanSound(s.frames, LowCap(s.frames), n);
    hide ContigScan;
  }

  /** No run found means none lies wholly above the hint, nor wholly below it. */
  lemma LowRunNone(s: Machine, n: nat)
    requires MachineOk(s) && n > 0 && LowRun(s.frames, n).None?
    ensures NoRunInParts(s.frames, LowCap(s.frames), n)
  {
    hide ContigScan;
    if n <= LowCap(s.frames) {
      ContigScanComplete(s.frames, LowCap(s.frames), n);
    }
  }

  /** A found run is never empty-handed: the page count is real and the image
      lies in the frames of the run, inside the window. */
  lemma SegmentFits(g: Segment, start: nat)
    requires InUserRegion(g) && start + PageCount(g) <= LOW_FRAMES
    ensures !Empty(g) && start * PAGE + g.memsz <= (start + PageCount(g)) * PAGE <= WINDOW
  {
    PageCountOf(g);
    hide PageCount;
  }

  /** The machine after mapping, before filling. */
  function Mapped(s: Machine, root: nat, g: Segment): (r: (Machine, bool))
    requires MachineOk(s) && IsSpace(s, root) && InUserRegion(g) && LowRun(s.frames, PageCount(g)).Some?
    ensures MachineOk(r.0)
    ensures forall f :: f in s.own ==> f in r.0.own && r.0.own[f] == s.own[f]
  {
    var a := LowRun(s.frames, PageCount(g)).value;
    LowRunOk(s, PageCount(g));
    RunTakenOk(s, a, PageCount(g));
    MapRun(s.(frames := TakeRun(s.frames, a, PageCount(g))), root, g, a, PageCount(g))
  }

  /** The frames of the run hold no table and are in use after mapping. */
  lemma RunIsData(s: Machine, root: nat, g: Segment, f: nat)
    requires MachineOk(s) && IsSpace(s, root) && InUserRegion(g) && LowRun(s.frames, PageCount(g)).Some?
    requires var a := LowRun(s.frames, PageCount(g)).value; a <= f < a + PageCount(g)
    ensures IsData(Mapped(s, root, g).0, f)
  {
    var n, a := PageCount(g), LowRun(s.frames, PageCount(g)).value;
    LowRunOk(s, n);
    RunTakenOk(s, a, n);
    var s1 := s.(frames := TakeRun(s.frames, a, n));
    assert f in s.frames.free && f !in s.own;
    assert IsData(s1, f);
    hide MachineOk, IsData, MapRun, LowRun, PageCount;
    MapRunKeepsData(s1, root, g, a, n, f);
  }

  /** Filling touches no table frame. */
  lemma FillKeeps(s: Machine, root: nat, b: Blob, g: Segment)
    requires MachineOk(s) && IsSpace(s, root) && Sound(g, |b|) && InUserRegion(g) &&
             LowRun(s.frames, PageCount(g)).Some?
    requires var a := LowRun(s.frames, PageCount(g)).value; a * PAGE + g.memsz <= (a + PageCount(g)) * PAGE <= WINDOW
    ensures var a, t := LowRun(s.frames, PageCount(g)).value, Mapped(s, root, g).0;
            && (forall f :: f in t.own ==> Filled(t.mem, a * PAGE, b, g)[f] == t.mem[f])
            && MachineOk(t.(mem := Filled(t.mem, a * PAGE, b, g)))
  {
    var n, a, t := PageCount(g), LowRun(s.frames, PageCount(g)).value, Mapped(s, root, g).0;
    hide LowRun, PageCount, Mapped;
    forall f | f in t.own ensures Filled(t.mem, a * PAGE, b, g)[f] == t.mem[f] {
      if a <= f < a + n {
        RunIsData(s, root, g, f);
      } else {
        FilledPages(t.mem, a * PAGE, b, g, f);
      }
    }
    hide Filled;
    DataWriteKeeps(t, Filled(t.mem, a * PAGE, b, g));
  }

  /** One pass of the segment loop: the machine, the return code, and the first
      frame used. */
  function LoadSegment(s: Machine, root: nat, b: Blob, g: Segment): (r: (Machine, int, nat))
    requires MachineOk(s) && IsSpace(s, root) && Sound(g, |b|)
    ensures MachineOk(r.0)
    ensures forall f :: f in s.own ==> f in r.0.own && r.0.own[f] == s.own[f]
  {
    if !InUserRegion(g) then (s, E_RANGE, 0)
    else if AnyMapped(s.mem, root, g, PageCount(g)) then (s, E_RANGE, 0)
    else
      var a := LowRun(s.frames, PageCount(g));
      if a.None? then (s, E_RANGE, 0)
      else
        LowRunOk(s, PageCount(g));
        SegmentFits(g, a.value);
        FillKeeps(s, root, b, g);
        var (t, ok) := Mapped(s, root, g);
        if !ok then (t, E_RANGE, 0)
        else (t.(mem := Filled(t.mem, a.value * PAGE, b, g)), OK, a.value)
  }

  /** The segment is in place: its pages lead to the run of frames from `a`,
      with its access rights; the frames are data frames and hold its image. */
  ghost predicate Loaded(s: Machine, root: nat, b: Blob, g: Segment, a: nat)
    requires Sound(g, |b|)
  {
    && InUserRegion(g) && !Empty(g) && a + PageCount(g) <= LOW_FRAMES
    && (forall p: nat :: p < PageCount(g) ==> Leaf(s.mem, root, SegPage(g, p)) == LeafEntry((a + p) * PAGE, FlagsOf(g)))
    && (forall f: nat :: a <= f < a + PageCount(g) ==> IsData(s, f))
    && (forall k: nat :: k < g.memsz ==> ByteAt(s.mem, a * PAGE + k) == ImageByte(b, g, k))
  }

  lemma MappedHit(s: Machine, root: nat, g: Segment, p: nat)
    requires MachineOk(s) && IsSpace(s, root) && InUserRegion(g) && !Empty(g) && LowRun(s.frames, PageCount(g)).Some?
    requires p < PageCount(g) && Mapped(s, root, g).1
    ensures var a := LowRun(s.frames, PageCount(g)).value;
            Leaf(Mapped(s, root, g).0.mem, root, SegPage(g, p)) == LeafEntry((a + p) * PAGE, FlagsOf(g))
  {
    hide MachineOk, MapRun, LowRun, PageCount, Leaf, LeafEntry, SegPage, FlagsOf, InUserRegion, Empty, TakeRun;
    var n, a := PageCount(g), LowRun(s.frames, PageCount(g)).value;
    LowRunOk(s, n);
    RunTakenOk(s, a, n);
    MapRunHit(s.(frames := TakeRun(s.frames, a, n)), root, g, a, n, p);
  }

  /** What a pass that returns OK leaves, in terms of its two phases. */
  lemma LoadSegmentPhases(s: Machine, root: nat, b: Blob, g: Segment)
    requires MachineOk(s) && IsSpace(s, root) && Sound(g, |b|) && LoadSegment(s, root, b, g).1 == OK
    ensures InUserRegion(g) && !Empty(g) && LowRun(s.frames, PageCount(g)).Some?
    ensures var (t, _, a) := LoadSegment(s, root, b, g);
            var (u, ok) := Mapped(s, root, g);
            && ok && a == LowRun(s.frames, PageCount(g)).value
            && MachineOk(u) && IsSpace(u, root)
            && a * PAGE + g.memsz <= (a + PageCount(g)) * PAGE <= WINDOW
            && t == u.(mem := Filled(u.mem, a * PAGE, b, g))
            && MemoryOk(u.mem) && MemoryOk(t.mem) && (forall f :: f in u.own ==> f < LOW_FRAMES && t.mem[f] == u.mem[f])
  {
    var a := LoadSegment(s, root, b, g).2;
    LowRunOk(s, PageCount(g));
    SegmentFits(g, a);
    FillKeeps(s, root, b, g);
    hide LowRun, PageCount, MachineOk, Mapped, Filled;
  }

  /** A pass that returns OK puts its segment in place. */
  lemma LoadSegmentLoads(s: Machine, root: nat, b: Blob, g: Segment)
    requires MachineOk(s) && IsSpace(s, root) && Sound(g, |b|) && LoadSegment(s, root, b, g).1 == OK
    ensures var r := LoadSegment(s, root, b, g); Loaded(r.0, root, b, g, r.2)
  {
    hide LowRun, PageCount, LoadSegment, Mapped, SegPage, FlagsOf, Leaf, LeafEntry, Filled, ByteAt, ImageByte, Sound;
    hide MachineOk, InUserRegion, Empty, UserPage, FreeRun;
    LoadSegmentPhases(s, root, b, g);
    var (t, _, a) := LoadSegment(s, root, b, g);
    var n, u := PageCount(g), Mapped(s, root, g).0;
    forall p: nat | p < n ensures Leaf(t.mem, root, SegPage(g, p)) == LeafEntry((a + p) * PAGE, FlagsOf(g)) {
      MappedHit(s, root, g, p);
      VirtAtPage(g, p);
      DataWriteSameLeaf(u, t.mem, root, SegPage(g, p));
    }
    forall f: nat | a <= f < a + n ensures IsData(t, f) {
      RunIsData(s, root, g, f);
    }
    forall k: nat | k < g.memsz ensures ByteAt(t.mem, a * PAGE + k) == ImageByte(b, g, k) {
      FilledAt(u.mem, a * PAGE, b, g, a * PAGE + k);
    }
  }

  // --------------------------------------------- what a pass leaves alone

  lemma MappedKeepsData(s: Machine, root: nat, g: Segment, f: nat)
    requires MachineOk(s) && IsSpace(s, root) && InUserRegion(g) && LowRun(s.frames, PageCount(g)).Some? && IsData(s, f)
    ensures var u := Mapped(s, root, g).0; IsData(u, f) && u.mem[f] == s.mem[f]
  {
    hide MachineOk, MapRun, LowRun, PageCount, InUserRegion, RunFrames;
    var n, a := PageCount(g), LowRun(s.frames, PageCount(g)).value;
    LowRunOk(s, n);
    RunTakenOk(s, a, n);
    MapRunKeepsData(s.(frames := TakeRun(s.frames, a, n)), root, g, a, n, f);
  }

  lemma MappedOther(s: Machine, root: nat, g: Segment, r: nat, q: VPage)
    requires MachineOk(s) && IsSpace(s, root) && InUserRegion(g) && !Empty(g) && LowRun(s.frames, PageCount(g)).Some?
    requires IsSpace(s, r) && UserPage(q) && (r != root || forall p: nat :: p < PageCount(g) ==> q != SegPage(g, p))
    ensures var u := Mapped(s, root, g).0; IsSpace(u, r) && Leaf(u.mem, r, q) == Leaf(s.mem, r, q)
  {
    hide MachineOk, MapRun, LowRun, PageCount, InUserRegion, Empty, SegPage, Leaf, TakeRun;
    var n, a := PageCount(g), LowRun(s.frames, PageCount(g)).value;
    LowRunOk(s, n);
    RunTakenOk(s, a, n);
    MapRunOther(s.(frames := TakeRun(s.frames, a, n)), root, g, a, n, r, q);
  }

  /** The three ways a pass can end. */
  lemma LoadSegmentCases(s: Machine, root: nat, b: Blob, g: Segment)
    requires MachineOk(s) && IsSpace(s, root) && Sound(g, |b|)
    ensures var (t, rc, a) := LoadSegment(s, root, b, g);
            || (t == s && rc != OK)
            || (InUserRegion(g) && !Empty(g) && LowRun(s.frames, PageCount(g)).Some?
                && (rc == OK || (rc == E_RANGE && t == Mapped(s, root, g).0)))
  {
    if InUserRegion(g) && LowRun(s.frames, PageCount(g)).Some? {
      LowRunOk(s, PageCount(g));
      SegmentFits(g, LowRun(s.frames, PageCount(g)).value);
    }
    hide LowRun, PageCount, MachineOk, Mapped, Filled;
  }

  lemma LoadSegmentKeepsData(s: Machine, root: nat, b: Blob, g: Segment, f: nat)
    requires MachineOk(s) && IsSpace(s, root) && Sound(g, |b|) && IsData(s, f)
    ensures var t := LoadSegment(s, root, b, g).0; IsData(t, f) && t.mem[f] == s.mem[f]
  {
    hide LowRun, PageCount, MachineOk, Mapped, Filled, LoadSegment, InUserRegion, Empty, Sound;
    LoadSegmentCases(s, root, b, g);
    var (t, rc, a) := LoadSegment(s, root, b, g);
    if t != s || rc == OK {
      MappedKeepsData(s, root, g, f);
      if rc == OK {
        LoadSegmentPhases(s, root, b, g);
        LowRunOk(s, PageCount(g));
        assert !(a <= f < a + PageCount(g));
        FilledPages(Mapped(s, root, g).0.mem, a * PAGE, b, g, f);
      }
    }
  }

  lemma LoadSegmentOther(s: Machine, root: nat, b: Blob, g: Segment, r: nat, q: VPage)
    requires MachineOk(s) && IsSpace(s, root) && Sound(g, |b|) && IsSpace(s, r) && UserPage(q)
    requires r != root || (InUserRegion(g) && !Empty(g) ==> forall p: nat :: p < PageCount(g) ==> q != SegPage(g, p))
    ensures var t := LoadSegment(s, root, b, g).0; IsSpace(t, r) && Leaf(t.mem, r, q) == Leaf(s.mem, r, q)
  {
    hide LowRun, PageCount, MachineOk, Mapped, Filled, LoadSegment, InUserRegion, Empty, Sound, Leaf, SegPage, UserPage;
    LoadSegmentCases(s, root, b, g);
    var (t, rc, a) := LoadSegment(s, root, b, g);
    if t != s || rc == OK {
      MappedOther(s, root, g, r, q);
      if rc == OK {
        LoadSegmentPhases(s, root, b, g);
        DataWriteSameLeaf(Mapped(s, root, g).0, t.mem, r, q);
      }
    }
  }

  /** Pages of segments that pass the overlap test differ. */
  lemma SegPagesApart(g: Segment, p: nat, h: Segment, q: nat)
    requires InUserRegion(g) && !Empty(g) && InUserRegion(h) && !Empty(h)
    requires !Overlap(g, h) && p < PageCount(g) && q < PageCount(h)
    ensures SegPage(g, p) != SegPage(h, q)
  {
    PageCountOf(g);
    PageCountOf(h);
    var k, l := FirstPage(g) + p, FirstPage(h) + q;
    NoOverlapNoSharedPage(g, h, k);
    assert k != l;
    hide FirstPage, LastPage, PageCount, PageNo;
    if PageNo(k) == PageNo(l) {
      PageNoInjective(k, l);
    }
  }

  /** Loading one segment leaves another, on other pages, in place. */
  lemma LoadedKept(s: Machine, root: nat, b: Blob, g: Segment, h: Segment, a: nat)
    requires MachineOk(s) && IsSpace(s, root) && Sound(g, |b|) && Sound(h, |b|)
    requires Loaded(s, root, b, h, a) && !Overlap(h, g)
    ensures Loaded(LoadSegment(s, root, b, g).0, root, b, h, a)
  {
    hide PageCount, MachineOk, LoadSegment, InUserRegion, Empty, Sound, Leaf, SegPage, LeafEntry, FlagsOf;
    hide ImageByte, Overlap, IsData;
    hide ByteAt;
    var t := LoadSegment(s, root, b, g).0;
    MachineMemory(s);
    MachineMemory(t);
    forall p: nat | p < PageCount(h) ensures Leaf(t.mem, root, SegPage(h, p)) == LeafEntry((a + p) * PAGE, FlagsOf(h)) {
      VirtAtPage(h, p);
      forall q: nat | InUserRegion(g) && !Empty(g) && q < PageCount(g) ensures SegPage(h, p) != SegPage(g, q) {
        SegPagesApart(h, p, g, q);
      }
      LoadSegmentOther(s, root, b, g, root, SegPage(h, p));
    }
    forall f: nat | a <= f < a + PageCount(h) ensures IsData(t, f) && t.mem[f] == s.mem[f] {
      LoadSegmentKeepsData(s, root, b, g, f);
    }
    forall k: nat | k < h.memsz ensures ByteAt(t.mem, a * PAGE + k) == ImageByte(b, h, k) {
      PageCountOf(h);
      SamePageSameByte(s.mem, t.mem, a * PAGE + k, a, PageCount(h));
    }
  }

  lemma SamePageSameByte(m: Memory, m': Memory, c: nat, a: nat, n: nat)
    requires MemoryOk(m) && MemoryOk(m') && a * PAGE <= c < (a + n) * PAGE && a + n <= LOW_FRAMES
    requires forall f: nat :: a <= f < a + n ==> m'[f] == m[f]
    ensures ByteAt(m', c) == ByteAt(m, c)
  {
    assert a <= c / PAGE < a + n;
  }

  // ------------------------------------------------- what a pass never writes

  lemma EnsureWrites(s: Machine, t: nat, i: nat, flags: nat, f: nat)
    requires MachineOk(s) && t in s.own && Depth(s.own[t]) < 3 && UserSlot(s.own[t], i) && f < LOW_FRAMES
    ensures var r := Ensure(s, t, i, flags).0; MemoryOk(r.mem) && (f !in r.own ==> r.mem[f] == s.mem[f])
  {
    ChoiceIsComplete(s.frames, LowCap(s.frames));
    hide Choice, Present, FrameOf, Linked;
  }

  /** Mapping writes tables only. */
  lemma MapWrites(s: Machine, root: nat, virt: nat, phys: nat, flags: nat, f: nat)
    requires MachineOk(s) && IsSpace(s, root) && f < LOW_FRAMES
    ensures var t := MapPage(s, root, virt, phys, flags).0;
            MemoryOk(s.mem) && MemoryOk(t.mem) && (f !in t.own ==> t.mem[f] == s.mem[f])
  {
    hide Ensure, LeafEntry, MachineOk, PageOf, MemoryOk;
    MachineMemory(s);
    var p := PageOf(virt);
    if !KernelSlot(p.i4) {
      EnsureWrites(s, root, p.i4, flags, f);
      var (s1, a) := Ensure(s, root, p.i4, flags);
      if a.Some? {
        EnsureWrites(s1, a.value, p.i3, flags, f);
        var (s2, b) := Ensure(s1, a.value, p.i3, flags);
        if b.Some? {
          EnsureWrites(s2, b.value, p.i2, flags, f);
          var (s3, c) := Ensure(s2, b.value, p.i2, flags);
          if c.Some? {
            LeafWrites(s3, c.value, p.i1, LeafEntry(phys, flags), f);
          }
        }
      }
    }
  }

  lemma LeafWrites(s: Machine, t: nat, i: nat, e: nat, f: nat)
    requires MachineOk(s) && t in s.own && i < ENTRIES && f < LOW_FRAMES
    ensures t < LOW_FRAMES && MemoryOk(s.mem)
    ensures var m := SetEntry(s.mem, t, i, e); MemoryOk(m) && (f !in s.own ==> m[f] == s.mem[f])
  {
    hide Linked;
  }

  lemma {:induction false} MapRunWrites(s: Machine, root: nat, g: Segment, start: nat, n: nat, f: nat)
    requires MachineOk(s) && IsSpace(s, root) && f < LOW_FRAMES
    ensures var t := MapRun(s, root, g, start, n).0;
            MemoryOk(s.mem) && MemoryOk(t.mem) && (f !in t.own ==> t.mem[f] == s.mem[f])
  {
    hide MapPage, MachineOk, FlagsOf, VirtAt, MemoryOk;
    MachineMemory(s);
    if n > 0 {
      MapRunWrites(s, root, g, start, n - 1, f);
      var (t, ok) := MapRun(s, root, g, start, n - 1);
      if ok {
        MapWrites(t, root, VirtAt(g, n - 1), (start + n - 1) * PAGE, FlagsOf(g), f);
      }
    }
  }

  lemma MappedWrites(s: Machine, root: nat, g: Segment, f: nat)
    requires MachineOk(s) && IsSpace(s, root) && InUserRegion(g) && LowRun(s.frames, PageCount(g)).Some? &&
             f < LOW_FRAMES
    ensures var t := Mapped(s, root, g).0;
            MemoryOk(s.mem) && MemoryOk(t.mem) && (f !in t.own ==> t.mem[f] == s.mem[f])
  {
    hide MachineOk, MapRun, LowRun, PageCount, TakeRun, InUserRegion, MemoryOk;
    var n, a := PageCount(g), LowRun(s.frames, PageCount(g)).value;
    LowRunOk(s, n);
    RunTakenOk(s, a, n);
    MapRunWrites(s.(frames := TakeRun(s.frames, a, n)), root, g, a, n, f);
  }

  /** Beyond its memory size the last page of a segment keeps what its frame held
      before. */
  lemma TailUntouched(s: Machine, root: nat, b: Blob, g: Segment, c: nat)
    requires MachineOk(s) && IsSpace(s, root) && Sound(g, |b|) && LoadSegment(s, root, b, g).1 == OK
    requires InUserRegion(g) && g.memsz <= c < PageCount(g) * PAGE
    ensures var (t, _, a) := LoadSegment(s, root, b, g); ByteAt(t.mem, a * PAGE + c) == ByteAt(s.mem, a * PAGE + c)
  {
    hide LowRun, PageCount, MachineOk, Mapped, Filled, LoadSegment, InUserRegion, Empty, Sound, ByteAt, ImageByte;
    LoadSegmentPhases(s, root, b, g);
    var (t, _, a) := LoadSegment(s, root, b, g);
    var n, u := PageCount(g), Mapped(s, root, g).0;
    LowRunOk(s, n);
    MachineMemory(s);
    FilledAt(u.mem, a * PAGE, b, g, a * PAGE + c);
    forall f: nat | a <= f < a + n ensures u.mem[f] == s.mem[f] {
      RunIsData(s, root, g, f);
      MappedWrites(s, root, g, f);
    }
    SamePageSameByte(s.mem, u.mem, a * PAGE + c, a, n);
  }

  /** A frame still free after a pass was not written by it, and was free before. */
  lemma PassLeavesFree(s: Machine, root: nat, b: Blob, g: Segment, f: nat)
    requires MachineOk(s) && IsSpace(s, root) && Sound(g, |b|) && f < LOW_FRAMES
    ensures var t := LoadSegment(s, root, b, g).0;
            MemoryOk(s.mem) && MemoryOk(t.mem) && (f in t.frames.free ==> t.mem[f] == s.mem[f])
  {
    hide LowRun, PageCount, MachineOk, Mapped, Filled, LoadSegment, InUserRegion, Empty, Sound, MemoryOk;
    MachineMemory(s);
    LoadSegmentCases(s, root, b, g);
    var (t, rc, a) := LoadSegment(s, root, b, g);
    if t != s || rc == OK {
      MappedWrites(s, root, g, f);
      FreeIsNoTable(Mapped(s, root, g).0, f);
      if rc == OK {
        LoadSegmentPhases(s, root, b, g);
        if a <= f < a + PageCount(g) {
          RunIsData(s, root, g, f);
        } else {
          FilledPages(Mapped(s, root, g).0.mem, a * PAGE, b, g, f);
        }
      }
    }
  }

  lemma FreeIsNoTable(s: Machine, f: nat)
    requires MachineOk(s)
    ensures f in s.frames.free ==> f !in s.own
  {
  }

  /** A pass gives no frame back. */
  lemma PassTakes(s: Machine, root: nat, b: Blob, g: Segment)
    requires MachineOk(s) && IsSpace(s, root) && Sound(g, |b|)
    ensures LoadSegment(s, root, b, g).0.frames.free <= s.frames.free
  {
    hide LowRun, PageCount, MachineOk, Mapped, Filled, LoadSegment, InUserRegion, Empty, Sound;
    LoadSegmentCases(s, root, b, g);
    var (t, rc, a) := LoadSegment(s, root, b, g);
    if t != s || rc == OK {
      MappedTakes(s, root, g);
      if rc == OK {
        LoadSegmentPhases(s, root, b, g);
      }
    }
  }

  lemma MappedTakes(s: Machine, root: nat, g: Segment)
    requires MachineOk(s) && IsSpace(s, root) && InUserRegion(g) && LowRun(s.frames, PageCount(g)).Some?
    ensures Mapped(s, root, g).0.frames.free <= s.frames.free
  {
    hide MachineOk, MapRun, LowRun, PageCount, InUserRegion;
    var n, a := PageCount(g), LowRun(s.frames, PageCount(g)).value;
    LowRunOk(s, n);
    RunTakenOk(s, a, n);
    MapRunTakes(s.(frames := TakeRun(s.frames, a, n)), root, g, a, n);
  }

  lemma {:induction false} MapRunTakes(s: Machine, root: nat, g: Segment, start: nat, n: nat)
    requires MachineOk(s) && IsSpace(s, root)
    ensures MapRun(s, root, g, start, n).0.frames.free <= s.frames.free
  {
    hide MapPage, MachineOk, FlagsOf, VirtAt;
    if n > 0 {
      MapRunTakes(s, root, g, start, n - 1);
      var (t, ok) := MapRun(s, root, g, start, n - 1);
      if ok {
        MapTakes(t, root, VirtAt(g, n - 1), (start + n - 1) * PAGE, FlagsOf(g));
      }
    }
  }
}
