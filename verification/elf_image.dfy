/**
  Loading is faithful end to end: after a successful load, walking the page
  tables and reading physical memory yields the file's image of every segment.
*/
module ElfImage {
  import opened Words
  import opened Frames
  import opened Paging
  import opened PhysBytes
  import opened Spaces
  import opened ElfParse
  import opened ElfLoad

  /** The segment loop of `telf_load` up to segment `n`: the machine, the return
      code, and the first frame of each segment loaded. */
  function LoadUpTo(s: Machine, root: nat, b: Blob, segs: seq<Segment>, n: nat): (r: (Machine, int, seq<nat>))
    requires MachineOk(s) && IsSpace(s, root) && AllSound(b, segs) && n <= |segs|
    ensures MachineOk(r.0) && (r.1 == OK ==> |r.2| == n)
    ensures forall f :: f in s.own ==> f in r.0.own && r.0.own[f] == s.own[f]
  {
    if n == 0 then (s, OK, [])
    else
      var (t, rc, st) := LoadUpTo(s, root, b, segs, n - 1);
      if rc != OK then (t, rc, st)
      else
        var (u, rc', a) := LoadSegment(t, root, b, segs[n - 1]);
        (u, rc', st + [a])
  }

  /** `telf_load`: a file that does not parse changes nothing. */
  ghost function LoadFile(s: Machine, root: nat, b: Blob): (r: (Machine, int, seq<nat>))
    requires MachineOk(s) && IsSpace(s, root) && Safe(b)
    ensures MachineOk(r.0) && IsSpace(r.0, root)
  {
    if Parse(b).Err? then (s, Parse(b).code, [])
    else
      ParseSound(b);
      LoadUpTo(s, root, b, Parse(b).value.segs, |Parse(b).value.segs|)
  }

  lemma {:induction false} AllLoaded(s: Machine, root: nat, b: Blob, segs: seq<Segment>, n: nat, j: nat)
    requires MachineOk(s) && IsSpace(s, root) && AllSound(b, segs) && NoOverlap(segs) && j < n <= |segs|
    requires LoadUpTo(s, root, b, segs, n).1 == OK
    ensures var r := LoadUpTo(s, root, b, segs, n); Loaded(r.0, root, b, segs[j], r.2[j])
  {
    hide MachineOk, LoadSegment, Sound, Loaded, Overlap;
    var (t, rc, st) := LoadUpTo(s, root, b, segs, n - 1);
    assert rc == OK;
    if j == n - 1 {
      LoadSegmentLoads(t, root, b, segs[j]);
    } else {
      AllLoaded(s, root, b, segs, n - 1, j);
      LoadedKept(t, root, b, segs[n - 1], segs[j], st[j]);
    }
  }

  // ------------------------------------------------------ reading user memory

  /** The byte a program in this space sees at `virt`. */
  function ReadUser(m: Memory, root: nat, virt: nat): (r: Option<nat>) {
    var pa := PhysOf(m, root, virt);
    if pa.None? then None else Some(ByteAt(m, pa.value + virt % PAGE))
  }

  lemma AddressParts(g: Segment, k: nat)
    requires InUserRegion(g) && !Empty(g) && k < PageCount(g) * PAGE
    ensures var v := FirstPage(g) * PAGE + k;
            k / PAGE < PageCount(g) && PageOf(v) == SegPage(g, k / PAGE) && v % PAGE == k % PAGE
  {
    hide PageNo, PageCount;
    assert (FirstPage(g) * PAGE + k) / PAGE == FirstPage(g) + k / PAGE;
  }

  /** The entry of each page of a loaded segment, field by field. */
  lemma LoadedEntry(s: Machine, root: nat, b: Blob, g: Segment, a: nat, p: nat)
    requires MachineOk(s) && IsSpace(s, root) && Sound(g, |b|) && Loaded(s, root, b, g, a) && p < PageCount(g)
    ensures var e := Leaf(s.mem, root, SegPage(g, p));
            && UserPage(SegPage(g, p)) && Present(e) && FrameOf(e) == a + p && User(e)
            && (Writable(e) <==> g.writable) && (NoExec(e) <==> !g.executable)
  {
    hide PageCount, MachineOk, InUserRegion, Empty, Sound, Leaf, SegPage, LeafEntry, FlagsOf, ImageByte, IsData, ByteAt;
    hide Present, Writable, User, NoExec, IsFlags, UserPage;
    VirtAtPage(g, p);
    FlagsOfFields(g);
    LeafEntryFields((a + p) * PAGE, FlagsOf(g));
    assert (a + p) * PAGE / PAGE_SIZE == a + p;
  }

  /** Reading through the page tables reaches the bytes of the run. */
  lemma LoadedReadsAt(s: Machine, root: nat, b: Blob, g: Segment, a: nat, c: nat)
    requires MachineOk(s) && IsSpace(s, root) && Sound(g, |b|) && Loaded(s, root, b, g, a) && c < PageCount(g) * PAGE
    ensures ReadUser(s.mem, root, FirstPage(g) * PAGE + c) == Some(ByteAt(s.mem, a * PAGE + c))
  {
    hide PageCount, MachineOk, InUserRegion, Empty, Sound, Leaf, SegPage, LeafEntry, FlagsOf, ImageByte, IsData, ByteAt;
    hide Present, FrameOf, PageOf, PhysOf;
    AddressParts(g, c);
    var p := c / PAGE;
    LoadedEntry(s, root, b, g, a, p);
    PhysIsLeaf(s, root, FirstPage(g) * PAGE + c);
    assert (a + p) * PAGE_SIZE + c % PAGE == a * PAGE + c;
  }

  /** Within the segment they are its image, from the start of its first page. */
  lemma LoadedReads(s: Machine, root: nat, b: Blob, g: Segment, a: nat, k: nat)
    requires MachineOk(s) && IsSpace(s, root) && Sound(g, |b|) && Loaded(s, root, b, g, a) && k < g.memsz
    ensures ReadUser(s.mem, root, FirstPage(g) * PAGE + k) == Some(ImageByte(b, g, k))
  {
    hide PageCount, MachineOk, InUserRegion, Empty, Sound, Leaf, SegPage, LeafEntry, FlagsOf, ImageByte, IsData;
    hide ByteAt, ReadUser;
    PageCountOf(g);
    LoadedReadsAt(s, root, b, g, a, k);
  }

  // ------------------------------------------------------------- theorems

  /** At `virt` the program sees this byte, with the rights of segment `g`. */
  ghost predicate Shows(m: Memory, root: nat, virt: nat, byte: nat, g: Segment) {
    var e := Leaf(m, root, PageOf(virt));
    && ReadUser(m, root, virt) == Some(byte)
    && Present(e) && User(e) && (Writable(e) <==> g.writable) && (NoExec(e) <==> !g.executable)
  }

  /** Byte `k` of the segment's memory as the file gives it: copied, or zero
      beyond the file part. */
  ghost predicate Image(m: Memory, root: nat, b: Blob, g: Segment, k: nat)
    requires Sound(g, |b|) && k < g.memsz
  {
    Shows(m, root, FirstPage(g) * PAGE + k, if k < g.filesz then b[g.offset + k] else 0, g)
  }

  /** After a load that returns OK: every byte of every segment reads as the file
      byte, or zero beyond the file part, and every page carries exactly the
      rights of its program header. The segment starts at its first page, which
      is `vaddr` when that is page-aligned. */
  lemma LoadIsFaithful(s: Machine, root: nat, b: Blob, j: nat, k: nat)
    requires MachineOk(s) && IsSpace(s, root) && Safe(b)
    requires LoadFile(s, root, b).1 == OK && Parse(b).Ok?
    requires j < |Parse(b).value.segs| && k < Parse(b).value.segs[j].memsz
    ensures Sound(Parse(b).value.segs[j], |b|)
    ensures Image(LoadFile(s, root, b).0.mem, root, b, Parse(b).value.segs[j], k)
    ensures var g := Parse(b).value.segs[j]; g.vaddr % PAGE == 0 ==> FirstPage(g) * PAGE == g.vaddr
  {
    hide Parse, MachineOk, LoadUpTo, Sound, AllSizesFit, Image;
    ParseSound(b);
    var segs := Parse(b).value.segs;
    SegmentShows(s, root, b, segs, j, k);
  }

  lemma SegmentShows(s: Machine, root: nat, b: Blob, segs: seq<Segment>, j: nat, k: nat)
    requires MachineOk(s) && IsSpace(s, root) && AllSound(b, segs) && NoOverlap(segs)
    requires LoadUpTo(s, root, b, segs, |segs|).1 == OK && j < |segs| && k < segs[j].memsz
    ensures Image(LoadUpTo(s, root, b, segs, |segs|).0.mem, root, b, segs[j], k)
  {
    hide MachineOk, LoadUpTo, Loaded, Sound, ReadUser, Leaf, PageOf, Present, User, Writable, NoExec;
    var (t, rc, st) := LoadUpTo(s, root, b, segs, |segs|);
    AllLoaded(s, root, b, segs, |segs|, j);
    LoadedReads(t, root, b, segs[j], st[j], k);
    LoadedPageOf(t, root, b, segs[j], st[j], k);
    LoadedEntry(t, root, b, segs[j], st[j], k / PAGE);
  }

  lemma LoadedPageOf(s: Machine, root: nat, b: Blob, g: Segment, a: nat, k: nat)
    requires Sound(g, |b|) && Loaded(s, root, b, g, a) && k < g.memsz
    ensures InUserRegion(g) && k / PAGE < PageCount(g) && PageOf(FirstPage(g) * PAGE + k) == SegPage(g, k / PAGE)
  {
    hide PageCount, InUserRegion, Empty, Sound, Leaf, SegPage, LeafEntry, FlagsOf, ImageByte, IsData, ByteAt, PageOf;
    PageCountOf(g);
    AddressParts(g, k);
  }

  // ------------------------------------ the rest of a segment's last page

  /** A frame still free after the loop was not written by it. */
  lemma {:induction false} LoadLeavesFree(s: Machine, root: nat, b: Blob, segs: seq<Segment>, n: nat, f: nat)
    requires MachineOk(s) && IsSpace(s, root) && AllSound(b, segs) && n <= |segs| && f < LOW_FRAMES
    ensures var t := LoadUpTo(s, root, b, segs, n).0;
            MemoryOk(s.mem) && MemoryOk(t.mem) && (f in t.frames.free ==> f in s.frames.free && t.mem[f] == s.mem[f])
  {
    hide MachineOk, LoadSegment, Sound, MemoryOk;
    MachineMemory(s);
    if n > 0 {
      LoadLeavesFree(s, root, b, segs, n - 1, f);
      var (t, rc, st) := LoadUpTo(s, root, b, segs, n - 1);
      if rc == OK {
        PassLeavesFree(t, root, b, segs[n - 1], f);
        PassTakes(t, root, b, segs[n - 1]);
      }
    }
  }

  /** What byte `c` of the pages of segment `j` holds after the load: the image,
      and beyond it whatever the frame held before the load began. */
  lemma {:induction false} PageBytes(s: Machine, root: nat, b: Blob, segs: seq<Segment>, n: nat, j: nat, c: nat)
    requires MachineOk(s) && IsSpace(s, root) && AllSound(b, segs) && NoOverlap(segs) && j < n <= |segs|
    requires LoadUpTo(s, root, b, segs, n).1 == OK
    requires InUserRegion(segs[j]) && c < PageCount(segs[j]) * PAGE
    ensures var (t, _, st) := LoadUpTo(s, root, b, segs, n);
            var at := st[j] * PAGE + c;
            ByteAt(t.mem, at) == if c < segs[j].memsz then ImageByte(b, segs[j], c) else ByteAt(s.mem, at)
  {
    hide MachineOk, LoadSegment, Sound, Overlap, PageCount, InUserRegion, Empty, ByteAt, ImageByte, Leaf;
    hide LeafEntry, FlagsOf, SegPage;
    hide IsData;
    AllLoaded(s, root, b, segs, n, j);
    var (t, rc, st) := LoadUpTo(s, root, b, segs, n - 1);
    var g := segs[j];
    if c >= g.memsz {
      if j == n - 1 {
        TailUntouched(t, root, b, g, c);
        RunWasFree(t, root, b, g);
        UntouchedByte(s, root, b, segs, n - 1, LoadSegment(t, root, b, g).2, PageCount(g), c);
      } else {
        AllLoaded(s, root, b, segs, n - 1, j);
        PageBytes(s, root, b, segs, n - 1, j, c);
        KeptByte(t, root, b, segs[n - 1], g, st[j], c);
      }
    }
  }

  lemma RunWasFree(s: Machine, root: nat, b: Blob, g: Segment)
    requires MachineOk(s) && IsSpace(s, root) && Sound(g, |b|) && LoadSegment(s, root, b, g).1 == OK
    ensures InUserRegion(g)
    ensures var a := LoadSegment(s, root, b, g).2;
            a + PageCount(g) <= LOW_FRAMES && forall f: nat :: a <= f < a + PageCount(g) ==> f in s.frames.free
  {
    hide LowRun, PageCount, MachineOk, Mapped, Filled, LoadSegment, InUserRegion, Empty, Sound;
    LoadSegmentPhases(s, root, b, g);
    LowRunOk(s, PageCount(g));
  }

  /** Frames free after the first `n` segments hold what they held before them. */
  lemma UntouchedByte(s: Machine, root: nat, b: Blob, segs: seq<Segment>, n: nat, a: nat, pages: nat, c: nat)
    requires MachineOk(s) && IsSpace(s, root) && AllSound(b, segs) && n <= |segs| && c < pages * PAGE &&
             a + pages <= LOW_FRAMES
    requires forall f: nat :: a <= f < a + pages ==> f in LoadUpTo(s, root, b, segs, n).0.frames.free
    ensures ByteAt(LoadUpTo(s, root, b, segs, n).0.mem, a * PAGE + c) == ByteAt(s.mem, a * PAGE + c)
  {
    hide MachineOk, LoadUpTo, Sound, ByteAt;
    var t := LoadUpTo(s, root, b, segs, n).0;
    MachineMemory(s);
    MachineMemory(t);
    forall f: nat | a <= f < a + pages ensures t.mem[f] == s.mem[f] {
      LoadLeavesFree(s, root, b, segs, n, f);
    }
    SamePageSameByte(s.mem, t.mem, a * PAGE + c, a, pages);
  }

  /** A later pass leaves every byte of a loaded segment's pages alone. */
  lemma KeptByte(s: Machine, root: nat, b: Blob, g: Segment, h: Segment, a: nat, c: nat)
    requires MachineOk(s) && IsSpace(s, root) && Sound(g, |b|) && Sound(h, |b|) && Loaded(s, root, b, h, a)
    requires c < PageCount(h) * PAGE
    ensures ByteAt(LoadSegment(s, root, b, g).0.mem, a * PAGE + c) == ByteAt(s.mem, a * PAGE + c)
  {
    hide MachineOk, LoadSegment, Sound, ByteAt, PageCount, InUserRegion, Empty, Leaf, LeafEntry, FlagsOf, SegPage;
    hide ImageByte, IsData;
    var t := LoadSegment(s, root, b, g).0;
    MachineMemory(s);
    MachineMemory(t);
    forall f: nat | a <= f < a + PageCount(h) ensures t.mem[f] == s.mem[f] {
      LoadSegmentKeepsData(s, root, b, g, f);
    }
    SamePageSameByte(s.mem, t.mem, a * PAGE + c, a, PageCount(h));
  }

  /** A segment that does not start on a page boundary is loaded, but shifted: the
      program finds at `vaddr + k` the byte that belongs `vaddr % 4096` bytes further
      on, and in the last `vaddr % 4096` bytes what the frame held before. */
  lemma UnalignedIsShifted(s: Machine, root: nat, b: Blob, segs: seq<Segment>, j: nat, k: nat)
    requires MachineOk(s) && IsSpace(s, root) && AllSound(b, segs) && NoOverlap(segs) && j < |segs|
    requires LoadUpTo(s, root, b, segs, |segs|).1 == OK && k < segs[j].memsz
    ensures var (t, _, st) := LoadUpTo(s, root, b, segs, |segs|);
            var g, c := segs[j], segs[j].vaddr % PAGE + k;
            ReadUser(t.mem, root, g.vaddr + k)
              == Some(if c < g.memsz then ImageByte(b, g, c) else ByteAt(s.mem, st[j] * PAGE + c))
  {
    hide MachineOk, Sound, Loaded, ReadUser, ImageByte, ByteAt, LoadUpTo, Overlap;
    AllLoaded(s, root, b, segs, |segs|, j);
    var (t, _, st) := LoadUpTo(s, root, b, segs, |segs|);
    var g, c := segs[j], segs[j].vaddr % PAGE + k;
    InLastPage(t, root, b, g, st[j], k);
    PageBytes(s, root, b, segs, |segs|, j, c);
    LoadedReadsAt(t, root, b, g, st[j], c);
  }

  lemma InLastPage(s: Machine, root: nat, b: Blob, g: Segment, a: nat, k: nat)
    requires Sound(g, |b|) && Loaded(s, root, b, g, a) && k < g.memsz
    ensures InUserRegion(g) && g.vaddr % PAGE + k < PageCount(g) * PAGE
    ensures FirstPage(g) * PAGE + (g.vaddr % PAGE + k) == g.vaddr + k
  {
    hide Leaf, LeafEntry, ByteAt, ImageByte, SegPage, PageCount;
    PageCountOf(g);
  }

  /** Such a header is accepted: 32 bytes at 16 bytes into a page. */
  lemma UnalignedHeader()
    ensures var h := Header(1, 6, 64, USER_BASE + 16, 32, 32, 0);
            HeaderError(h, 128) == 0 && SegmentOf(h).vaddr % PAGE == 16 && InUserRegion(SegmentOf(h))
  {
  }

  /** A space with nothing mapped in its user slots. */
  ghost predicate FreshSpace(s: Machine, root: nat) {
    forall q :: UserPage(q) ==> Leaf(s.mem, root, q) == 0
  }

  lemma {:induction false} OnlySegmentsMapped(s: Machine, root: nat, b: Blob, segs: seq<Segment>, n: nat, q: VPage)
    requires MachineOk(s) && IsSpace(s, root) && AllSound(b, segs) && n <= |segs| && FreshSpace(s, root) && UserPage(q)
    requires forall j, p: nat :: 0 <= j < n && InUserRegion(segs[j]) && !Empty(segs[j]) && p < PageCount(segs[j]) ==>
               q != SegPage(segs[j], p)
    ensures Leaf(LoadUpTo(s, root, b, segs, n).0.mem, root, q) == 0
  {
    hide MachineOk, LoadSegment, Sound, Leaf, UserPage, InUserRegion, Empty, PageCount, SegPage;
    if n > 0 {
      OnlySegmentsMapped(s, root, b, segs, n - 1, q);
      var (t, rc, st) := LoadUpTo(s, root, b, segs, n - 1);
      if rc == OK {
        LoadSegmentOther(t, root, b, segs[n - 1], root, q);
      }
    }
  }

  /** The program can read byte `k` of what the header asks for. */
  ghost predicate Readable(m: Memory, root: nat, h: Header, k: nat) { ReadUser(m, root, h.vaddr + k).Some? }

  /** A single header loaded into a fresh space: every byte it asks for can be read
      if and only if it asks for less than 4 GiB. */
  lemma AllReadableIff(s: Machine, root: nat, b: Blob, h: Header)
    requires MachineOk(s) && IsSpace(s, root) && FreshSpace(s, root)
    requires HeaderError(h, |b|) == 0 && Sound(SegmentOf(h), |b|) && USER_BASE <= h.vaddr &&
             h.vaddr + h.memsz <= USER_END
    requires LoadUpTo(s, root, b, [SegmentOf(h)], 1).1 == OK
    ensures (forall k: nat :: k < h.memsz ==> Readable(LoadUpTo(s, root, b, [SegmentOf(h)], 1).0.mem, root, h, k))
       <==> h.memsz < TWO32
  {
    hide MachineOk, FreshSpace, HeaderError, Sound, LoadUpTo, ReadUser, BytePage, InPages, Overlap;
    var g := SegmentOf(h);
    var t, st := LoadUpTo(s, root, b, [g], 1).0, LoadUpTo(s, root, b, [g], 1).2;
    AllLoaded(s, root, b, [g], 1, 0);
    PlanCoversIff(h);
    if h.memsz < TWO32 {
      forall k: nat | k < h.memsz ensures Readable(t.mem, root, h, k) {
        InLastPage(t, root, b, g, st[0], k);
        LoadedReadsAt(t, root, b, g, st[0], g.vaddr % PAGE + k);
      }
    } else {
      OutsideUnreadable(s, root, b, h, h.memsz - 1);
      assert !Readable(t.mem, root, h, h.memsz - 1);
    }
  }

  lemma OutsideUnreadable(s: Machine, root: nat, b: Blob, h: Header, k: nat)
    requires MachineOk(s) && IsSpace(s, root) && FreshSpace(s, root) && Sound(SegmentOf(h), |b|)
    requires USER_BASE <= h.vaddr && h.vaddr + k < USER_END && !InPages(SegmentOf(h), BytePage(h, k))
    ensures ReadUser(LoadUpTo(s, root, b, [SegmentOf(h)], 1).0.mem, root, h.vaddr + k).None?
  {
    hide MachineOk, FreshSpace, Sound, LoadUpTo, Leaf, SegPage, PageCount, Empty, PhysOf, PageNo;
    var g, q := SegmentOf(h), PageOf(h.vaddr + k);
    UserRegionPage(h.vaddr + k);
    forall p: nat | InUserRegion(g) && !Empty(g) && p < PageCount(g) ensures q != SegPage(g, p) {
      OutsidePage(g, BytePage(h, k), p);
    }
    OnlySegmentsMapped(s, root, b, [g], 1, q);
    PhysIsLeaf(LoadUpTo(s, root, b, [g], 1).0, root, h.vaddr + k);
  }

  lemma OutsidePage(g: Segment, x: nat, p: nat)
    requires InUserRegion(g) && !Empty(g) && p < PageCount(g) && !InPages(g, x) && x < 0x10_0000_0000
    ensures PageNo(x) != SegPage(g, p)
  {
    PageCountOf(g);
    InPagesIff(g, x);
    var y := FirstPage(g) + p;
    assert y < 0x10_0000_0000 && x != y;
    hide FirstPage, LastPage, PageCount, PageNo, InPages;
    if PageNo(x) == PageNo(y) {
      PageNoInjective(x, y);
    }
  }

  lemma {:induction false} NothingMapped(s: Machine, root: nat, g: Segment, n: nat)
    requires MachineOk(s) && IsSpace(s, root) && InUserRegion(g) && !Empty(g) && n <= PageCount(g)
    requires forall p: nat :: p < n ==> Leaf(s.mem, root, SegPage(g, p)) == 0
    ensures !AnyMapped(s.mem, root, g, n)
  {
    hide MachineOk, InUserRegion, Empty, PageCount, SegPage, Leaf, PageOf, VirtAt, PhysOf;
    if n > 0 {
      NothingMapped(s, root, g, n - 1);
      VirtAtPage(g, n - 1);
      PhysIsLeaf(s, root, VirtAt(g, n - 1));
    }
  }

  /** Loading an accepted plan into a fresh space never trips the check against
      already mapped pages, except for an empty segment on a page boundary, whose
      page count wraps. */
  lemma DefensiveCheckNeverFires(s: Machine, root: nat, b: Blob, segs: seq<Segment>, n: nat)
    requires MachineOk(s) && IsSpace(s, root) && AllSound(b, segs) && NoOverlap(segs) && n < |segs| &&
             FreshSpace(s, root)
    requires InUserRegion(segs[n]) && !Empty(segs[n])
    ensures !AnyMapped(LoadUpTo(s, root, b, segs, n).0.mem, root, segs[n], PageCount(segs[n]))
  {
    hide MachineOk, LoadUpTo, Sound, Leaf, InUserRegion, Empty, PageCount, SegPage, Overlap, FreshSpace, AnyMapped;
    var t, g := LoadUpTo(s, root, b, segs, n).0, segs[n];
    forall p: nat | p < PageCount(g) ensures Leaf(t.mem, root, SegPage(g, p)) == 0 {
      VirtAtPage(g, p);
      forall j, q: nat | 0 <= j < n && InUserRegion(segs[j]) && !Empty(segs[j]) && q < PageCount(segs[j])
        ensures SegPage(g, p) != SegPage(segs[j], q)
      {
        SegPagesApart(segs[j], q, g, p);
      }
      OnlySegmentsMapped(s, root, b, segs, n, SegPage(g, p));
    }
    NothingMapped(t, root, g, PageCount(g));
  }

  /** Such an empty segment is always refused, and changes nothing. */
  lemma EmptySegmentRefused(s: Machine, root: nat, b: Blob, g: Segment)
    requires MachineOk(s) && IsSpace(s, root) && Sound(g, |b|) && Empty(g)
    ensures LoadSegment(s, root, b, g).0 == s && LoadSegment(s, root, b, g).1 == E_RANGE
  {
    if InUserRegion(g) {
      PageCountOf(g);
    }
    hide PageCount, AnyMapped, Mapped, Filled, MachineOk, ContigScan;
  }

  /** A load, whether it succeeds or fails half way, changes no translation of
      another space and no data frame in use before it. */
  lemma {:induction false} LoadLeavesOthersAlone(s: Machine, root: nat, b: Blob, segs: seq<Segment>, n: nat,
                                                r: nat, q: VPage, f: nat)
    requires MachineOk(s) && IsSpace(s, root) && AllSound(b, segs) && n <= |segs|
    requires IsSpace(s, r) && r != root && UserPage(q) && IsData(s, f)
    ensures var t := LoadUpTo(s, root, b, segs, n).0;
            Leaf(t.mem, r, q) == Leaf(s.mem, r, q) && IsSpace(t, r) && IsData(t, f) && t.mem[f] == s.mem[f]
  {
    hide MachineOk, LoadSegment, Sound, Leaf, UserPage, IsData;
    if n > 0 {
      LoadLeavesOthersAlone(s, root, b, segs, n - 1, r, q, f);
      var (t, rc, st) := LoadUpTo(s, root, b, segs, n - 1);
      if rc == OK {
        LoadSegmentOther(t, root, b, segs[n - 1], r, q);
        LoadSegmentKeepsData(t, root, b, segs[n - 1], f);
      }
    }
  }
}
