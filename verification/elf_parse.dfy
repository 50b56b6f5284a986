/**
  The ELF64 executable parser of `telf_core.h`: header checks, the loadable
  program headers, and the rejection of overlapping segments. Field positions
  follow the System V gABI, chapter 4 "ELF Header" and chapter 5 "Program
  Header".
*/
module ElfParse {
  import opened Words

  const MAX_SEGMENTS: nat := 4
  const PHDR_SIZE: nat := 56
  const PAGE: nat := 4096

  const E_BAD_MAGIC := -1
  const E_BAD_CLASS := -2
  const E_BAD_DATA := -3
  const E_BAD_TYPE := -4
  const E_BAD_MACHINE := -5
  const E_BAD_VERSION := -6
  const E_TRUNC := -7
  const E_NO_LOAD := -8
  const E_TOO_MANY := -9
  const E_RANGE := -10
  const E_BAD_ALIGN := -11
  const E_PHDR := -12

  type Blob = b: seq<nat> | (forall i :: 0 <= i < |b| ==> b[i] < 256) && |b| < TWO64

  /** `telf_segment_t`; `prot` as three booleans. */
  datatype Segment = Segment(vaddr: nat, offset: nat, filesz: nat, memsz: nat,
                             readable: bool, writable: bool, executable: bool)

  datatype Plan = Plan(entry: nat, segs: seq<Segment>)

  /** `Outside`: bytes beyond the end of the file are read. */
  datatype Result<+T> = Ok(value: T) | Err(code: int) | Outside

  // ------------------------------------------------------- little-endian reads

  function Rd16(b: Blob, off: nat): (r: nat)
    requires off + 2 <= |b|
    ensures r < 0x1_0000
  {
    b[off] + 0x100 * b[off + 1]
  }

  function Rd32(b: Blob, off: nat): (r: nat)
    requires off + 4 <= |b|
    ensures r < TWO32
  {
    b[off] + 0x100 * b[off + 1] + 0x1_0000 * b[off + 2] + 0x100_0000 * b[off + 3]
  }

  function Rd64(b: Blob, off: nat): (r: nat)
    requires off + 8 <= |b|
    ensures r < TWO64
  {
    Rd32(b, off) + TWO32 * Rd32(b, off + 4)
  }

  // ---------------------------------------------------------- program headers

  /** `x & (x - 1)` is zero exactly for powers of two (and for 0). */
  predicate PowerOfTwo(x: nat) {
    x == 1 || (x > 0 && x % 2 == 0 && PowerOfTwo(x / 2))
  }

  /** Raw 64-bit fields of the program header at `off`. */
  datatype Header = Header(kind: nat, flags: nat, offset: nat, vaddr: nat, filesz: nat, memsz: nat, align: nat)

  function HeaderAt(b: Blob, off: nat): (h: Header)
    requires off + PHDR_SIZE <= |b|
    ensures h.offset < TWO64 && h.vaddr < TWO64 && h.filesz < TWO64 && h.memsz < TWO64 && h.align < TWO64
  {
    Header(Rd32(b, off), Rd32(b, off + 4), Rd64(b, off + 8), Rd64(b, off + 16),
           Rd64(b, off + 32), Rd64(b, off + 40), Rd64(b, off + 48))
  }

  /** The checks on one PT_LOAD header, in order; 0 when it passes. */
  function HeaderError(h: Header, size: nat): (code: int) {
    if h.offset > size || h.filesz > size - h.offset then E_TRUNC
    else if h.memsz < h.filesz then E_RANGE
    else if h.vaddr + h.memsz > TWO64 - 1 then E_RANGE
    else if h.align != 0 && !PowerOfTwo(h.align) then E_BAD_ALIGN
    else if h.align > 1 && h.vaddr % h.align != h.offset % h.align then E_BAD_ALIGN
    else 0
  }

  /** The plan entry for a header; offset and sizes are cut to 32 bits. */
  function SegmentOf(h: Header): (s: Segment) {
    Segment(h.vaddr, h.offset % TWO32, h.filesz % TWO32, h.memsz % TWO32,
            h.flags / 4 % 2 == 1, h.flags / 2 % 2 == 1, h.flags % 2 == 1)
  }

  function PhOff(b: Blob): nat requires |b| >= 64 { Rd64(b, 32) }
  function PhEntSize(b: Blob): nat requires |b| >= 64 { Rd16(b, 54) }
  function PhNum(b: Blob): nat requires |b| >= 64 { Rd16(b, 56) }

  /** Where program header `i` starts, on 64 bits. */
  function HeaderOffset(b: Blob, i: nat): nat
    requires |b| >= 64
  {
    OffsetOf(PhOff(b), i, PhEntSize(b))
  }

  function OffsetOf(base: nat, i: nat, size: nat): nat { Wrap64(base + i * size) }

  /** The bound check on a header at `off`, on 64 bits. */
  predicate InBounds(off: nat, size: nat) { Wrap64(off + PHDR_SIZE) <= size }

  /** The check keeps the header inside the file if and only if its sum does not
      wrap: a header in the last 56 bytes of the address range always passes. */
  lemma BoundCheckIff(off: nat, size: nat)
    requires off < TWO64 && 64 <= size < TWO64
    ensures (InBounds(off, size) ==> off + PHDR_SIZE <= size) <==> off + PHDR_SIZE < TWO64
  {
    if off + PHDR_SIZE >= TWO64 {
      DivModUnique(off + PHDR_SIZE, TWO64, 1, off + PHDR_SIZE - TWO64);
    }
  }

  /** Header `k` passes the bound check although it lies outside the file. */
  predicate Wild(b: Blob, k: nat)
    requires |b| >= 64
  {
    HeaderOffset(b, k) + PHDR_SIZE >= TWO64
  }

  /** The header loop from index `i` on, given the segments found so far. */
  function Headers(b: Blob, i: nat, segs: seq<Segment>): (r: Result<seq<Segment>>)
    requires |b| >= 64 && PhNum(b) <= MAX_SEGMENTS
    decreases PhNum(b) - i
  {
    if i >= PhNum(b) then Ok(segs)
    else
      var off := HeaderOffset(b, i);
      if !InBounds(off, |b|) then Err(E_TRUNC)
      else if off + PHDR_SIZE > |b| then Outside
      else
        var h := HeaderAt(b, off);
        if h.kind != 1 then Headers(b, i + 1, segs)
        else if |segs| == MAX_SEGMENTS then Err(E_TOO_MANY)
        else if HeaderError(h, |b|) != 0 then Err(HeaderError(h, |b|))
        else Headers(b, i + 1, segs + [SegmentOf(h)])
  }

  /** What header `k` adds to the plan. */
  function Planned(b: Blob, k: nat): (r: seq<Segment>)
    requires |b| >= 64
  {
    var off := HeaderOffset(b, k);
    if off + PHDR_SIZE <= |b| && HeaderAt(b, off).kind == 1 then [SegmentOf(HeaderAt(b, off))] else []
  }

  /** The segments of all PT_LOAD headers from index `i` on, in file order. */
  function Loadable(b: Blob, i: nat): (r: seq<Segment>)
    requires |b| >= 64
    decreases PhNum(b) - i
  {
    if i >= PhNum(b) then [] else Planned(b, i) + Loadable(b, i + 1)
  }

  /** Header `k` lies inside the file and, if it is loadable, passes its checks. */
  predicate HeaderGood(b: Blob, k: nat)
    requires |b| >= 64
  {
    var off := HeaderOffset(b, k);
    off + PHDR_SIZE <= |b| && (HeaderAt(b, off).kind == 1 ==> HeaderError(HeaderAt(b, off), |b|) == 0)
  }

  lemma HeadersStep(b: Blob, i: nat, segs: seq<Segment>)
    requires |b| >= 64 && i < PhNum(b) <= MAX_SEGMENTS && |segs| <= i
    ensures if HeaderGood(b, i) then Headers(b, i, segs) == Headers(b, i + 1, segs + Planned(b, i))
            else if Wild(b, i) then Headers(b, i, segs).Outside?
            else Headers(b, i, segs).Err?
    ensures Loadable(b, i) == Planned(b, i) + Loadable(b, i + 1) && !(HeaderGood(b, i) && Wild(b, i))
  {
    BoundCheckIff(HeaderOffset(b, i), |b|);
    BoundWraps(HeaderOffset(b, i), |b|);
    hide HeaderAt, HeaderError, HeaderOffset, SegmentOf, InBounds, PhNum;
    assert segs + [] == segs;
  }

  lemma BoundWraps(off: nat, size: nat)
    requires off < TWO64 && 64 <= size < TWO64
    ensures off + PHDR_SIZE <= size ==> InBounds(off, size)
    ensures off + PHDR_SIZE >= TWO64 ==> InBounds(off, size)
  {
    BoundCheckIff(off, size);
  }

  /** The loop comes to header `k`, which is wild. */
  ghost predicate WildReached(b: Blob, i: nat, k: nat)
    requires |b| >= 64
  {
    i <= k < PhNum(b) && Wild(b, k) && forall j :: i <= j < k ==> HeaderGood(b, j)
  }

  ghost predicate ReachesWild(b: Blob, i: nat)
    requires |b| >= 64
  {
    exists k :: WildReached(b, i, k)
  }

  /** Acceptance means: every header lies inside the file, every PT_LOAD header
      passes its checks, and the plan lists exactly those, in order. Bytes outside
      the file are read if and only if a wild header follows good ones. */
  lemma {:induction false} HeadersExact(b: Blob, i: nat, segs: seq<Segment>)
    requires |b| >= 64 && PhNum(b) <= MAX_SEGMENTS && |segs| <= i
    ensures Headers(b, i, segs).Ok? <==> forall k :: i <= k < PhNum(b) ==> HeaderGood(b, k)
    ensures Headers(b, i, segs).Ok? ==> Headers(b, i, segs).value == segs + Loadable(b, i)
    ensures Headers(b, i, segs).Outside? <==> ReachesWild(b, i)
    decreases PhNum(b) - i
  {
    hide HeaderGood, Wild, Planned, PhNum, HeaderOffset, SegmentOf, HeaderAt, HeaderError;
    if i < PhNum(b) {
      HeadersStep(b, i, segs);
      if HeaderGood(b, i) {
        OnePlanned(b, i);
        WildLater(b, i);
        HeadersExact(b, i + 1, segs + Planned(b, i));
        assert (segs + Planned(b, i)) + Loadable(b, i + 1) == segs + (Planned(b, i) + Loadable(b, i + 1));
      } else {
        NoneLater(b, i);
      }
    }
  }

  lemma WildLater(b: Blob, i: nat)
    requires |b| >= 64 && HeaderGood(b, i)
    ensures ReachesWild(b, i) <==> ReachesWild(b, i + 1)
  {
    hide HeaderAt, HeaderError, HeaderOffset, PhNum;
    if ReachesWild(b, i) {
      var k :| WildReached(b, i, k);
      assert WildReached(b, i + 1, k);
    }
    if ReachesWild(b, i + 1) {
      var k :| WildReached(b, i + 1, k);
      assert WildReached(b, i, k);
    }
  }

  lemma NoneLater(b: Blob, i: nat)
    requires |b| >= 64 && !HeaderGood(b, i) && i < PhNum(b)
    ensures ReachesWild(b, i) <==> Wild(b, i)
  {
    hide HeaderGood, Wild, PhNum;
    if Wild(b, i) {
      assert WildReached(b, i, i);
    }
  }

  lemma OnePlanned(b: Blob, k: nat)
    requires |b| >= 64
    ensures |Planned(b, k)| <= 1
  {
  }

  /** A segment whose bytes lie in the file and fit its memory image. */
  predicate Sound(s: Segment, size: nat) {
    s.offset + s.filesz <= size && s.filesz <= s.memsz && s.vaddr + s.memsz < TWO64
  }

  /** The memory size still covers the file bytes once both are on 32 bits, as they
      are when the header asks for less than 4 GiB. */
  predicate SizesFit(h: Header) { h.filesz % TWO32 <= h.memsz % TWO32 }

  /** So it is for header `k`, if it is a PT_LOAD header. */
  predicate HeaderFits(b: Blob, k: nat)
    requires |b| >= 64
  {
    var off := HeaderOffset(b, k);
    off + PHDR_SIZE <= |b| && HeaderAt(b, off).kind == 1 ==> SizesFit(HeaderAt(b, off))
  }

  /** So it is for every header from `i` on. */
  ghost predicate AllSizesFit(b: Blob, i: nat)
    requires |b| >= 64
  {
    forall k :: i <= k < PhNum(b) ==> HeaderFits(b, k)
  }

  /** An accepted header whose sizes fit gives a sound segment; below 4 GiB the
      segment is the header, uncut. */
  lemma HeaderSound(h: Header, size: nat)
    requires HeaderError(h, size) == 0
    ensures SizesFit(h) <==> Sound(SegmentOf(h), size)
    ensures size < TWO32 && h.memsz < TWO32 ==>
              var g := SegmentOf(h);
              SizesFit(h) && g.offset == h.offset && g.filesz == h.filesz && g.memsz == h.memsz
  {
    hide PowerOfTwo;
    CutBelow(h.offset, h.filesz);
    CutBelow(h.vaddr, h.memsz);
  }

  lemma CutBelow(x: nat, y: nat)
    ensures x % TWO32 <= x && y % TWO32 <= y
  {
  }

  ghost predicate AllSound(b: Blob, segs: seq<Segment>) { forall g :: g in segs ==> Sound(g, |b|) }

  lemma {:induction false} LoadableSound(b: Blob, i: nat)
    requires |b| >= 64 && forall k :: i <= k < PhNum(b) ==> HeaderGood(b, k)
    ensures AllSound(b, Loadable(b, i)) <==> AllSizesFit(b, i)
    decreases PhNum(b) - i
  {
    hide HeaderGood, HeaderFits, PhNum, Planned, Sound;
    if i < PhNum(b) {
      LoadableSound(b, i + 1);
      PlannedSound(b, i);
      var one, rest := Planned(b, i), Loadable(b, i + 1);
      assert Loadable(b, i) == one + rest;
      assert AllSound(b, one + rest) <==> AllSound(b, one) && AllSound(b, rest);
    }
  }

  lemma PlannedSound(b: Blob, k: nat)
    requires |b| >= 64 && HeaderGood(b, k)
    ensures AllSound(b, Planned(b, k)) <==> HeaderFits(b, k)
  {
    hide HeaderAt, HeaderError, HeaderOffset, SegmentOf, Sound, SizesFit;
    var h := HeaderAt(b, HeaderOffset(b, k));
    if h.kind == 1 {
      HeaderSound(h, |b|);
      assert SegmentOf(h) in Planned(b, k);
    }
  }

  // -------------------------------------------------------- overlap rejection

  /** The test of the nested loop for one pair of segments. */
  predicate Overlap(s: Segment, t: Segment) {
    s.vaddr / PAGE * PAGE < t.vaddr + t.memsz && t.vaddr / PAGE * PAGE < s.vaddr + s.memsz
  }

  ghost predicate NoOverlap(segs: seq<Segment>) {
    forall i, j :: 0 <= i < j < |segs| ==> !Overlap(segs[i], segs[j])
  }

  /** First and last 4 KiB page of a segment, by number. */
  function FirstPage(s: Segment): nat { s.vaddr / PAGE }

  function LastPage(s: Segment): nat
    requires s.vaddr + s.memsz > 0
  {
    (s.vaddr + s.memsz - 1) / PAGE
  }

  /** The page of byte `k` of a header's memory. */
  function BytePage(h: Header, k: nat): nat { (h.vaddr + k) / PAGE }

  /** Page `x` is one the loader maps for the segment. */
  predicate InPages(s: Segment, x: nat) { FirstPage(s) <= x && x * PAGE < s.vaddr + s.memsz }

  lemma InPagesIff(s: Segment, x: nat)
    requires s.vaddr + s.memsz > 0
    ensures InPages(s, x) <==> FirstPage(s) <= x <= LastPage(s)
  {
    assert x <= LastPage(s) ==> x * PAGE <= s.vaddr + s.memsz - 1;
  }

  /** The plan keeps sizes on 32 bits: its pages cover every byte the header asks
      for if and only if that is less than 4 GiB. */
  lemma PlanCoversIff(h: Header)
    ensures (forall k: nat :: k < h.memsz ==> InPages(SegmentOf(h), BytePage(h, k))) <==> h.memsz < TWO32
    ensures h.memsz >= TWO32 ==> !InPages(SegmentOf(h), BytePage(h, h.memsz - 1))
  {
    if h.memsz >= TWO32 {
      assert BytePage(h, h.memsz - 1) * PAGE > h.vaddr + h.memsz - 1 - PAGE;
    }
  }

  /** Segments that pass the test have no 4 KiB page in common. */
  lemma NoOverlapNoSharedPage(s: Segment, t: Segment, k: nat)
    requires !Overlap(s, t) && s.vaddr + s.memsz > 0 && t.vaddr + t.memsz > 0
    requires FirstPage(s) <= k <= LastPage(s)
    ensures !(FirstPage(t) <= k <= LastPage(t))
  {
  }

  // ------------------------------------------------------------------- parse

  /** The checks on the file header, in order; 0 when it passes. */
  function EhdrError(b: Blob): (code: int) {
    if |b| < 64 then E_TRUNC
    else if b[0] != 0x7F || b[1] != 0x45 || b[2] != 0x4C || b[3] != 0x46 then E_BAD_MAGIC
    else if b[4] != 2 then E_BAD_CLASS
    else if b[5] != 1 then E_BAD_DATA
    else if b[6] != 1 then E_BAD_VERSION
    else if Rd16(b, 16) != 2 then E_BAD_TYPE
    else if Rd16(b, 18) != 62 then E_BAD_MACHINE
    else if Rd32(b, 20) != 1 then E_BAD_VERSION
    else if PhEntSize(b) < PHDR_SIZE then E_PHDR
    else if PhNum(b) == 0 then E_NO_LOAD
    else if PhNum(b) > MAX_SEGMENTS then E_TOO_MANY
    else 0
  }

  /** What `telf_parse` answers. */
  ghost function Parse(b: Blob): (r: Result<Plan>) {
    if EhdrError(b) != 0 then Err(EhdrError(b))
    else
      var r := Headers(b, 0, []);
      if r.Err? then Err(r.code)
      else if r.Outside? then Outside
      else if r.value == [] then Err(E_NO_LOAD)
      else if !NoOverlap(r.value) then Err(E_RANGE)
      else Ok(Plan(Rd64(b, 24), r.value))
  }

  /** `telf_parse` */
  method ParseElf(b: Blob) returns (r: Result<Plan>)
    ensures r == Parse(b)
  {
    hide EhdrError, Headers, Rd64, NoOverlap;
    if EhdrError(b) != 0 {
      return Err(EhdrError(b));
    }
    EhdrGood(b);
    var found := ReadHeaders(b);
    if found.Err? {
      return Err(found.code);
    }
    if found.Outside? {
      return Outside;
    }
    if found.value == [] {
      return Err(E_NO_LOAD);
    }
    var clash := FindOverlap(found.value);
    if clash {
      return Err(E_RANGE);
    }
    r := Ok(Plan(Rd64(b, 24), found.value));
  }

  lemma EhdrGood(b: Blob)
    requires EhdrError(b) == 0
    ensures |b| >= 64 && PhNum(b) <= MAX_SEGMENTS
  {
    hide Rd16, Rd32;
  }

  /** The loop over the program headers. */
  method ReadHeaders(b: Blob) returns (r: Result<seq<Segment>>)
    requires |b| >= 64 && PhNum(b) <= MAX_SEGMENTS
    ensures r == Headers(b, 0, [])
  {
    hide HeaderAt, HeaderError, HeaderOffset, SegmentOf, PhNum, InBounds;
    var segs: seq<Segment> := [];
    var i := 0;
    while i < PhNum(b)
      invariant i <= PhNum(b) && Headers(b, 0, []) == Headers(b, i, segs)
    {
      var off := HeaderOffset(b, i);
      if !InBounds(off, |b|) {
        return Err(E_TRUNC);
      }
      if off + PHDR_SIZE > |b| {
        return Outside;
      }
      var h := HeaderAt(b, off);
      if h.kind == 1 {
        if |segs| == MAX_SEGMENTS {
          return Err(E_TOO_MANY);
        }
        if HeaderError(h, |b|) != 0 {
          return Err(HeaderError(h, |b|));
        }
        segs := segs + [SegmentOf(h)];
      }
      i := i + 1;
    }
    r := Ok(segs);
  }

  /** The nested loop over pairs of segments. */
  method FindOverlap(segs: seq<Segment>) returns (clash: bool)
    ensures clash == !NoOverlap(segs)
  {
    var i := 0;
    while i < |segs|
      invariant i <= |segs|
      invariant forall k, l :: 0 <= k < i && k < l < |segs| ==> !Overlap(segs[k], segs[l])
    {
      var j := i + 1;
      while j < |segs|
        invariant i < j <= |segs|
        invariant forall l :: i < l < j ==> !Overlap(segs[i], segs[l])
      {
        if Overlap(segs[i], segs[j]) {
          return true;
        }
        j := j + 1;
      }
      i := i + 1;
    }
    return false;
  }

  /** An accepted file yields a plan of segments no two of which share a page, and
      they are sound if and only if the sizes fit. */
  lemma ParseSound(b: Blob)
    requires Parse(b).Ok?
    ensures var segs := Parse(b).value.segs;
            && |b| >= 64 && segs == Loadable(b, 0) && segs != [] && NoOverlap(segs)
            && (AllSound(b, segs) <==> AllSizesFit(b, 0))
  {
    hide Loadable, Headers, AllSound, AllSizesFit, NoOverlap, EhdrError, HeaderGood, Rd64, PhNum;
    EhdrGood(b);
    HeadersExact(b, 0, []);
    LoadableSound(b, 0);
    assert [] + Loadable(b, 0) == Loadable(b, 0);
  }

  /** Bytes outside the file are read if and only if the file header passes its
      checks and a wild program header follows good ones. */
  lemma ParseOutsideIff(b: Blob)
    ensures Parse(b).Outside? <==> EhdrError(b) == 0 && |b| >= 64 && ReachesWild(b, 0)
  {
    hide EhdrError, Headers, NoOverlap, Rd64, ReachesWild;
    if EhdrError(b) == 0 {
      EhdrGood(b);
      HeadersExact(b, 0, []);
    }
  }

  /** Such a file: 64 bytes, its only program header 56 bytes before the end of the
      address range. */
  function WildByte(i: nat): (x: nat)
    ensures x < 256
  {
    if i == 0 then 0x7F else if i == 1 then 0x45 else if i == 2 then 0x4C else if i == 3 then 0x46
    else if i == 4 || i == 16 then 2
    else if i == 5 || i == 6 || i == 20 || i == 56 then 1
    else if i == 18 then 62
    else if i == 32 then 0xC8
    else if 32 < i < 40 then 0xFF
    else if i == 54 then 56
    else 0
  }

  function WildFile(): (b: Blob)
    ensures |b| == 64 && forall i :: 0 <= i < 64 ==> b[i] == WildByte(i)
  {
    seq(64, (i: nat) => WildByte(i))
  }

  lemma WildFileReadsOutside()
    ensures EhdrError(WildFile()) == 0 && PhOff(WildFile()) == TWO64 - PHDR_SIZE && Parse(WildFile()).Outside?
  {
    hide Parse, EhdrError, WildFile;
    var b := WildFile();
    WildFields(b);
    assert HeaderOffset(b, 0) == TWO64 - PHDR_SIZE;
    assert WildReached(b, 0, 0);
    ParseOutsideIff(b);
  }

  lemma WildFields(b: Blob)
    requires |b| == 64 && forall i :: 0 <= i < 64 ==> b[i] == WildByte(i)
    ensures EhdrError(b) == 0 && PhOff(b) == TWO64 - PHDR_SIZE && PhNum(b) == 1
  {
    assert Rd16(b, 16) == 2 && Rd16(b, 18) == 62 && Rd32(b, 20) == 1 && Rd16(b, 54) == 56 && Rd16(b, 56) == 1;
    assert Rd32(b, 32) == 0xFFFF_FFC8 && Rd32(b, 36) == 0xFFFF_FFFF;
  }

  /** Parsing reads inside the file, and a plan that it yields is sound. */
  ghost predicate Safe(b: Blob) { !Parse(b).Outside? && (Parse(b).Ok? ==> |b| >= 64 && AllSizesFit(b, 0)) }
}
