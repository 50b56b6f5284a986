/**
  What an accepted file says, byte by byte: positions and values of the System V
  gABI, chapter 4 "ELF Header" and chapter 5 "Program Header", and the plan entry
  each program header becomes.
*/
module ElfFormat {
  import opened Words
  import opened ElfParse

  // ------------------------------------------------------ little-endian words

  /** The word's bytes, least significant first, stand at `off`. */
  ghost predicate BytesAt(b: Blob, off: nat, w: nat, n: nat) {
    off + n <= |b| && forall i: nat :: i < n ==> Digit(w, i, 256) == b[off + i]
  }

  lemma ByteBound(b: Blob, i: nat)
    requires i < |b|
    ensures b[i] < 256
  {
  }

  lemma Rd16Bytes(b: Blob, off: nat)
    requires off + 2 <= |b|
    ensures BytesAt(b, off, Rd16(b, off), 2)
  {
    var w := Rd16(b, off);
    DivModUnique(w, 256, b[off + 1], b[off]);
    assert Digit(w, 1, 256) == Digit(w / 256, 0, 256);
  }

  lemma FourDigits(w: nat, x0: nat, x1: nat, x2: nat, x3: nat, rest: nat)
    requires x0 < 256 && x1 < 256 && x2 < 256 && x3 < 256
    requires w == x0 + 0x100 * x1 + 0x1_0000 * x2 + 0x100_0000 * x3 + TWO32 * rest
    ensures Digit(w, 0, 256) == x0 && Digit(w, 1, 256) == x1 && Digit(w, 2, 256) == x2 && Digit(w, 3, 256) == x3
    ensures forall i: nat :: Digit(w, i + 4, 256) == Digit(rest, i, 256)
  {
    var w1 := x1 + 0x100 * x2 + 0x1_0000 * x3 + 0x100_0000 * rest;
    var w2 := x2 + 0x100 * x3 + 0x1_0000 * rest;
    var w3 := x3 + 0x100 * rest;
    DivModUnique(w, 256, w1, x0);
    DivModUnique(w1, 256, w2, x1);
    DivModUnique(w2, 256, w3, x2);
    DivModUnique(w3, 256, rest, x3);
    assert Digit(w, 1, 256) == Digit(w1, 0, 256);
    assert Digit(w, 2, 256) == Digit(w1, 1, 256) == Digit(w2, 0, 256);
    assert Digit(w, 3, 256) == Digit(w1, 2, 256) == Digit(w2, 1, 256) == Digit(w3, 0, 256);
    forall i: nat ensures Digit(w, i + 4, 256) == Digit(rest, i, 256) {
      assert Digit(w, i + 4, 256) == Digit(w1, i + 3, 256);
      assert Digit(w1, i + 3, 256) == Digit(w2, i + 2, 256);
      assert Digit(w2, i + 2, 256) == Digit(w3, i + 1, 256);
    }
  }

  lemma Rd32Bytes(b: Blob, off: nat)
    requires off + 4 <= |b|
    ensures BytesAt(b, off, Rd32(b, off), 4)
  {
    FourDigits(Rd32(b, off), b[off], b[off + 1], b[off + 2], b[off + 3], 0);
    hide Digit;
    forall i: nat | i < 4 ensures Digit(Rd32(b, off), i, 256) == b[off + i] {
      assert i == 0 || i == 1 || i == 2 || i == 3;
    }
  }

  lemma Rd64Bytes(b: Blob, off: nat)
    requires off + 8 <= |b|
    ensures BytesAt(b, off, Rd64(b, off), 8)
  {
    var w, hi := Rd64(b, off), Rd32(b, off + 4);
    FourDigits(w, b[off], b[off + 1], b[off + 2], b[off + 3], hi);
    Rd32Bytes(b, off + 4);
    hide Digit, Rd32;
    forall i: nat | i < 8 ensures Digit(w, i, 256) == b[off + i] {
      if i >= 4 {
        assert Digit(w, (i - 4) + 4, 256) == Digit(hi, i - 4, 256) == b[off + 4 + (i - 4)];
      } else {
        assert i == 0 || i == 1 || i == 2 || i == 3;
      }
    }
  }

  /** Its bytes determine a word. */
  lemma {:induction false} WordUnique(w: nat, w': nat, n: nat, bound: nat)
    requires w < bound && w' < bound && bound == Pow256(n)
    requires forall i: nat :: i < n ==> Digit(w, i, 256) == Digit(w', i, 256)
    ensures w == w'
  {
    if n > 0 {
      assert Digit(w, 0, 256) == Digit(w', 0, 256);
      forall i: nat | i < n - 1 ensures Digit(w / 256, i, 256) == Digit(w' / 256, i, 256) {
        assert Digit(w, i + 1, 256) == Digit(w', i + 1, 256);
      }
      WordUnique(w / 256, w' / 256, n - 1, bound / 256);
    }
  }

  function Pow256(n: nat): nat { if n == 0 then 1 else 256 * Pow256(n - 1) }

  lemma SameWord(b: Blob, off: nat, w: nat, w': nat)
    requires BytesAt(b, off, w, 8) && BytesAt(b, off, w', 8) && w < TWO64 && w' < TWO64
    ensures w == w'
  {
    assert Pow256(4) == TWO32 && Pow256(8) == TWO64;
    hide Pow256, Digit;
    WordUnique(w, w', 8, TWO64);
  }

  // ---------------------------------------------------------- program headers

  /** The fields of the program header at `off` are these bytes of the file. */
  lemma HeaderBytes(b: Blob, off: nat)
    requires off + PHDR_SIZE <= |b|
    ensures var h := HeaderAt(b, off);
            && BytesAt(b, off, h.kind, 4) && BytesAt(b, off + 4, h.flags, 4)
            && BytesAt(b, off + 8, h.offset, 8) && BytesAt(b, off + 16, h.vaddr, 8)
            && BytesAt(b, off + 32, h.filesz, 8) && BytesAt(b, off + 40, h.memsz, 8)
            && BytesAt(b, off + 48, h.align, 8)
  {
    hide Rd32, Rd64, BytesAt;
    Rd32Bytes(b, off);
    Rd32Bytes(b, off + 4);
    Rd64Bytes(b, off + 8);
    Rd64Bytes(b, off + 16);
    Rd64Bytes(b, off + 32);
    Rd64Bytes(b, off + 40);
    Rd64Bytes(b, off + 48);
  }

  /** Bits of the lowest byte of a word are bits of the word. */
  lemma LowBits(w: nat)
    ensures Digit(Digit(w, 0, 256), 0, 2) == w % 2
    ensures Digit(Digit(w, 0, 256), 1, 2) == w / 2 % 2
    ensures Digit(Digit(w, 0, 256), 2, 2) == w / 4 % 2
  {
    var x := w % 256;
    assert Digit(x, 1, 2) == Digit(x / 2, 0, 2);
    assert Digit(x, 2, 2) == Digit(x / 2, 1, 2) == Digit(x / 2 / 2, 0, 2);
    hide Digit;
    LowByte(w / 256, x);
  }

  lemma LowByte(q: nat, x: nat)
    requires x < 256
    ensures var w := 256 * q + x;
            w % 2 == x % 2 && w / 2 % 2 == x / 2 % 2 && w / 4 % 2 == x / 2 / 2 % 2
  {
    var w, y, z := 256 * q + x, x / 2, x / 2 / 2;
    DivModUnique(w, 2, 128 * q + y, x % 2);
    DivModUnique(w / 2, 2, 64 * q + z, y % 2);
    DivModUnique(w, 4, 64 * q + z, 2 * (y % 2) + x % 2);
    DivModUnique(64 * q + z, 2, 32 * q + z / 2, z % 2);
  }

  /** Plan entry `g` stands for the program header at `off`: R, W and X are bits 2, 1
      and 0 of its flags byte, the address is read whole, offset and sizes on their
      four low bytes. */
  ghost predicate Describes(b: Blob, off: nat, g: Segment) {
    && off + PHDR_SIZE <= |b|
    && (g.readable <==> Digit(b[off + 4], 2, 2) == 1)
    && (g.writable <==> Digit(b[off + 4], 1, 2) == 1)
    && (g.executable <==> Digit(b[off + 4], 0, 2) == 1)
    && BytesAt(b, off + 16, g.vaddr, 8)
    && BytesAt(b, off + 8, g.offset, 4) && BytesAt(b, off + 32, g.filesz, 4) && BytesAt(b, off + 40, g.memsz, 4)
    && g.offset < TWO32 && g.filesz < TWO32 && g.memsz < TWO32
  }

  /** A word cut to 32 bits keeps its four low bytes. */
  lemma CutBytes(b: Blob, off: nat, w: nat)
    requires BytesAt(b, off, w, 8)
    ensures BytesAt(b, off, w % TWO32, 4)
  {
    hide Digit;
    forall i: nat | i < 4 ensures Digit(w % TWO32, i, 256) == b[off + i] {
      CutDigit(w, i);
    }
  }

  lemma CutDigit(w: nat, i: nat)
    requires i < 4
    ensures Digit(w % TWO32, i, 256) == Digit(w, i, 256)
  {
    var lo, hi := w % TWO32, w / TWO32;
    var x0, x1, x2, x3 := lo % 256, lo / 256 % 256, lo / 256 / 256 % 256, lo / 256 / 256 / 256;
    assert lo == x0 + 0x100 * x1 + 0x1_0000 * x2 + 0x100_0000 * x3;
    FourDigits(lo, x0, x1, x2, x3, 0);
    FourDigits(w, x0, x1, x2, x3, hi);
    hide Digit;
    assert i == 0 || i == 1 || i == 2 || i == 3;
  }

  lemma SegmentDescribes(b: Blob, off: nat)
    requires off + PHDR_SIZE <= |b|
    ensures Describes(b, off, SegmentOf(HeaderAt(b, off)))
  {
    hide HeaderAt, Digit;
    var h := HeaderAt(b, off);
    HeaderBytes(b, off);
    LowBits(h.flags);
    assert Digit(h.flags, 0, 256) == b[off + 4 + 0];
    CutBytes(b, off + 8, h.offset);
    CutBytes(b, off + 32, h.filesz);
    CutBytes(b, off + 40, h.memsz);
    hide BytesAt;
  }

  // -------------------------------------------------------------- whole files

  /** Header `k` is PT_LOAD: its type word is 1. */
  ghost predicate IsLoad(b: Blob, k: nat)
    requires |b| >= 64
  {
    var off := HeaderOffset(b, k);
    off + PHDR_SIZE <= |b| && b[off..off + 4] == [1, 0, 0, 0]
  }

  /** Number of PT_LOAD headers before header `k`. */
  ghost function LoadsBefore(b: Blob, k: nat): (n: nat)
    requires |b| >= 64
  {
    if k == 0 then 0 else LoadsBefore(b, k - 1) + if IsLoad(b, k - 1) then 1 else 0
  }

  lemma KindIsOne(b: Blob, off: nat)
    requires off + PHDR_SIZE <= |b|
    ensures HeaderAt(b, off).kind == 1 <==> b[off..off + 4] == [1, 0, 0, 0]
  {
    var w := Rd32(b, off);
    ByteBound(b, off);
    assert b[off..off + 4] == [b[off], b[off + 1], b[off + 2], b[off + 3]];
    hide Rd64;
  }

  lemma PlannedIs(b: Blob, k: nat)
    requires |b| >= 64
    ensures Planned(b, k) == if IsLoad(b, k) then [SegmentOf(HeaderAt(b, HeaderOffset(b, k)))] else []
  {
    hide HeaderAt, HeaderOffset, SegmentOf;
    if HeaderOffset(b, k) + PHDR_SIZE <= |b| {
      KindIsOne(b, HeaderOffset(b, k));
    }
  }

  lemma {:induction false} LoadableAt(b: Blob, i: nat, k: nat)
    requires |b| >= 64 && i <= k <= PhNum(b)
    ensures |Loadable(b, i)| == LoadsBefore(b, PhNum(b)) - LoadsBefore(b, i)
    ensures LoadsBefore(b, i) <= LoadsBefore(b, k) <= LoadsBefore(b, PhNum(b))
    ensures k < PhNum(b) && IsLoad(b, k) ==>
              var j := LoadsBefore(b, k) - LoadsBefore(b, i);
              j < |Loadable(b, i)| && Loadable(b, i)[j] == SegmentOf(HeaderAt(b, HeaderOffset(b, k)))
    decreases PhNum(b) - i
  {
    hide HeaderAt, HeaderOffset, SegmentOf, PhNum, IsLoad, Planned, LoadsBefore;
    if i < PhNum(b) {
      PlannedIs(b, i);
      LoadsNext(b, i);
      var one, rest := Planned(b, i), Loadable(b, i + 1);
      assert Loadable(b, i) == one + rest;
      LoadableAt(b, i + 1, if k == i then i + 1 else k);
    }
  }

  lemma LoadsNext(b: Blob, i: nat)
    requires |b| >= 64
    ensures LoadsBefore(b, i + 1) == LoadsBefore(b, i) + if IsLoad(b, i) then 1 else 0
  {
  }

  /** For every accepted file: the plan has one entry for each PT_LOAD header, in file
      order, each as its bytes say, and the entry point is that of the file header. */
  lemma PlanIsFile(b: Blob, k: nat)
    requires Parse(b).Ok?
    ensures var p := Parse(b).value;
            && |b| >= 64 && |p.segs| == LoadsBefore(b, PhNum(b)) && BytesAt(b, 24, p.entry, 8)
            && (k < PhNum(b) && IsLoad(b, k) ==>
                  LoadsBefore(b, k) < |p.segs| && Describes(b, HeaderOffset(b, k), p.segs[LoadsBefore(b, k)]))
  {
    hide Parse, EhdrError, Headers, Loadable, Describes, BytesAt, HeaderOffset, PhNum, LoadsBefore;
    ParseSound(b);
    EntryIs(b);
    LoadableAt(b, 0, 0);
    LoadsNone(b);
    if k < PhNum(b) && IsLoad(b, k) {
      LoadableAt(b, 0, k);
      SegmentDescribes(b, HeaderOffset(b, k));
    }
  }

  lemma LoadsNone(b: Blob)
    requires |b| >= 64
    ensures LoadsBefore(b, 0) == 0
  {
  }

  lemma EntryIs(b: Blob)
    requires Parse(b).Ok?
    ensures |b| >= 64 && BytesAt(b, 24, Parse(b).value.entry, 8)
  {
    EhdrGood(b);
    Rd64Bytes(b, 24);
    hide EhdrError, Headers, NoOverlap, Rd64, BytesAt;
  }

  /** Where the program headers are, by the bytes of the file header. */
  lemma HeaderPlaces(b: Blob, k: nat)
    requires |b| >= 64
    ensures BytesAt(b, 32, PhOff(b), 8) && BytesAt(b, 54, PhEntSize(b), 2) && BytesAt(b, 56, PhNum(b), 2)
    ensures HeaderOffset(b, k) == (PhOff(b) + k * PhEntSize(b)) % TWO64
  {
    Rd64Bytes(b, 32);
    Rd16Bytes(b, 54);
    Rd16Bytes(b, 56);
    hide Rd64, Rd16, BytesAt;
  }

  // -------------------------------------------------------------- the checks

  const MAGIC: seq<nat> := [0x7F, 0x45, 0x4C, 0x46]

  /** The bytes of a 64-bit little-endian executable for x86-64. */
  predicate Identified(b: Blob) {
    |b| >= 64 && b[..4] == MAGIC && b[4..7] == [2, 1, 1] && b[16..24] == [2, 0, 62, 0, 1, 0, 0, 0]
  }

  /** The file header passes if and only if the file is that of a 64-bit little-endian
      executable for x86-64 with one to four program headers of at least 56 bytes. */
  lemma EhdrAcceptsIff(b: Blob)
    ensures EhdrError(b) == 0 <==>
              Identified(b) && b[54] + 256 * b[55] >= 56 && 1 <= b[56] + 256 * b[57] <= 4
  {
    if |b| >= 64 {
      assert b[..4] == [b[0], b[1], b[2], b[3]] && b[4..7] == [b[4], b[5], b[6]];
      assert b[16..24] == [b[16], b[17], b[18], b[19], b[20], b[21], b[22], b[23]];
      ByteBound(b, 16);
      ByteBound(b, 18);
      ByteBound(b, 20);
    }
  }

  /** Which field a refusal blames: everything that is tested before it is right. */
  lemma EhdrBlames(b: Blob)
    ensures EhdrError(b) == E_TRUNC <==> |b| < 64
    ensures EhdrError(b) == E_BAD_MAGIC <==> |b| >= 64 && b[..4] != MAGIC
    ensures EhdrError(b) == E_BAD_CLASS <==> |b| >= 64 && b[..4] == MAGIC && b[4] != 2
    ensures EhdrError(b) == E_BAD_DATA <==> |b| >= 64 && b[..5] == MAGIC + [2] && b[5] != 1
    ensures EhdrError(b) == E_BAD_TYPE <==> |b| >= 64 && b[..7] == MAGIC + [2, 1, 1] && b[16..18] != [2, 0]
    ensures EhdrError(b) == E_BAD_MACHINE <==>
              |b| >= 64 && b[..7] == MAGIC + [2, 1, 1] && b[16..18] == [2, 0] && b[18..20] != [62, 0]
    ensures EhdrError(b) == E_BAD_VERSION <==>
              && |b| >= 64 && b[..6] == MAGIC + [2, 1]
              && (b[6] != 1 || (b[16..20] == [2, 0, 62, 0] && b[20..24] != [1, 0, 0, 0]))
    ensures EhdrError(b) == E_PHDR <==> Identified(b) && b[54] + 256 * b[55] < 56
    ensures EhdrError(b) == E_NO_LOAD <==> Identified(b) && b[54] + 256 * b[55] >= 56 && b[56] == 0 == b[57]
    ensures EhdrError(b) == E_TOO_MANY <==>
              Identified(b) && b[54] + 256 * b[55] >= 56 && b[56] + 256 * b[57] > 4
  {
    if |b| >= 64 {
      assert b[..4] == [b[0], b[1], b[2], b[3]] && b[..5] == b[..4] + [b[4]] && b[..6] == b[..4] + [b[4], b[5]];
      assert b[..7] == b[..4] + [b[4], b[5], b[6]];
      assert b[16..18] == [b[16], b[17]] && b[18..20] == [b[18], b[19]] && b[16..20] == [b[16], b[17], b[18], b[19]];
      assert b[20..24] == [b[20], b[21], b[22], b[23]];
      assert b[4..7] == [b[4], b[5], b[6]] && b[16..24] == b[16..20] + b[20..24];
      ByteBound(b, 16);
      ByteBound(b, 18);
      ByteBound(b, 20);
    }
  }

  ghost predicate IsPower(x: nat) { exists n: nat :: x == Pow2(n) }

  lemma {:induction false} PowerOfTwoIff(x: nat)
    ensures PowerOfTwo(x) <==> IsPower(x)
    decreases x
  {
    if x == 1 {
      assert x == Pow2(0);
    } else if x > 0 && x % 2 == 0 {
      PowerOfTwoIff(x / 2);
      HalfIsPower(x);
    } else {
      OddIsNoPower(x);
    }
  }

  lemma HalfIsPower(x: nat)
    requires x > 0 && x % 2 == 0
    ensures IsPower(x) <==> IsPower(x / 2)
  {
    if IsPower(x) {
      var n: nat :| x == Pow2(n);
      assert x / 2 == Pow2(n - 1);
    }
    if IsPower(x / 2) {
      var n: nat :| x / 2 == Pow2(n);
      assert x == Pow2(n + 1);
    }
  }

  lemma OddIsNoPower(x: nat)
    requires x != 1 && (x == 0 || x % 2 == 1)
    ensures !IsPower(x)
  {
    forall n: nat ensures x != Pow2(n) {
      assert n > 0 ==> Pow2(n) == 2 * Pow2(n - 1);
    }
  }

  /** A PT_LOAD header is refused for the first of three reasons: its bytes are not in
      the file, its memory is smaller than its bytes or passes the address range, or
      its alignment is not a power of two that address and offset agree on. */
  lemma HeaderRefusedFor(h: Header, size: nat)
    ensures var inFile := h.offset + h.filesz <= size;
            var inMemory := h.filesz <= h.memsz && h.vaddr + h.memsz < TWO64;
            var aligned := h.align == 0 || (IsPower(h.align) && h.vaddr % h.align == h.offset % h.align);
            HeaderError(h, size)
              == if !inFile then E_TRUNC else if !inMemory then E_RANGE else if !aligned then E_BAD_ALIGN else 0
  {
    hide PowerOfTwo, Pow2;
    PowerOfTwoIff(h.align);
  }

  // --------------------------------------------------------------- overlaps

  /** Two segments overlap, to the test of the loader, if and only if some 4 KiB page
      belongs to both, unless one of them is empty and starts on a page boundary. */
  lemma OverlapIsSharedPage(s: Segment, t: Segment)
    requires s.vaddr + s.memsz > FirstPage(s) * PAGE && t.vaddr + t.memsz > FirstPage(t) * PAGE
    ensures Overlap(s, t) <==> exists x: nat :: InPages(s, x) && InPages(t, x)
  {
    if Overlap(s, t) {
      var x := if FirstPage(s) >= FirstPage(t) then FirstPage(s) else FirstPage(t);
      assert InPages(s, x) && InPages(t, x);
    }
    if x: nat :| InPages(s, x) && InPages(t, x) {
      assert FirstPage(s) * PAGE <= x * PAGE && FirstPage(t) * PAGE <= x * PAGE;
    }
  }

  // ------------------------------------------------------------ the verdict

  /** Header `k` is the first, from `i` on, that is not good. */
  ghost predicate FirstBad(b: Blob, i: nat, k: nat)
    requires |b| >= 64
  {
    i <= k < PhNum(b) && !HeaderGood(b, k) && forall j :: i <= j < k ==> HeaderGood(b, j)
  }

  /** What the loop blames a header for. */
  function Blame(b: Blob, k: nat): int
    requires |b| >= 64
  {
    var off := HeaderOffset(b, k);
    if off + PHDR_SIZE > |b| then E_TRUNC else HeaderError(HeaderAt(b, off), |b|)
  }

  lemma BadStops(b: Blob, i: nat, segs: seq<Segment>)
    requires |b| >= 64 && i < PhNum(b) <= MAX_SEGMENTS && |segs| <= i && !HeaderGood(b, i) && !Wild(b, i)
    ensures Headers(b, i, segs) == Err(Blame(b, i))
  {
    BoundCheckIff(HeaderOffset(b, i), |b|);
    BoundWraps(HeaderOffset(b, i), |b|);
    hide HeaderAt, HeaderError, HeaderOffset, SegmentOf, InBounds, PhNum;
  }

  lemma {:induction false} FirstBadStops(b: Blob, i: nat, segs: seq<Segment>, k: nat)
    requires |b| >= 64 && PhNum(b) <= MAX_SEGMENTS && |segs| <= i && FirstBad(b, i, k) && !Wild(b, k)
    ensures Headers(b, i, segs) == Err(Blame(b, k))
    decreases k - i
  {
    hide Headers, HeaderGood, Wild, Planned, Blame, PhNum;
    if i == k {
      BadStops(b, i, segs);
    } else {
      HeadersStep(b, i, segs);
      OnePlanned(b, i);
      FirstBadStops(b, i + 1, segs + Planned(b, i), k);
    }
  }

  /** The verdict on a file whose header is in order: the first bad program header is
      blamed; without one, it must have a PT_LOAD header and no two segments that
      overlap, and then it is accepted. */
  lemma ParseVerdict(b: Blob, k: nat)
    requires EhdrError(b) == 0
    ensures |b| >= 64
    ensures FirstBad(b, 0, k) && !Wild(b, k) ==> Parse(b) == Err(Blame(b, k))
    ensures (forall j :: 0 <= j < PhNum(b) ==> HeaderGood(b, j)) ==>
              && (LoadsBefore(b, PhNum(b)) == 0 ==> Parse(b) == Err(E_NO_LOAD))
              && (LoadsBefore(b, PhNum(b)) > 0 && !NoOverlap(Loadable(b, 0)) ==> Parse(b) == Err(E_RANGE))
              && (LoadsBefore(b, PhNum(b)) > 0 && NoOverlap(Loadable(b, 0)) ==> Parse(b).Ok?)
  {
    hide EhdrError, Headers, HeaderGood, Loadable, NoOverlap, Rd64, LoadsBefore, PhNum, Wild, Blame;
    EhdrGood(b);
    HeadersExact(b, 0, []);
    LoadableAt(b, 0, 0);
    LoadsNone(b);
    assert [] + Loadable(b, 0) == Loadable(b, 0);
    if FirstBad(b, 0, k) && !Wild(b, k) {
      FirstBadStops(b, 0, [], k);
    }
  }
}
