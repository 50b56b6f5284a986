/**
  What a loaded program may do at user level: not only do its pages translate,
  every one of the four table entries on the way grants the access.
*/
module ElfAccess {
  import opened Words
  import opened Frames
  import opened Paging
  import opened Spaces
  import opened SpaceRuns
  import opened ElfParse
  import opened ElfFormat
  import opened ElfLoad
  import opened ElfImage

  /** Table entries are writable, and those of this space open to user mode. */
  ghost predicate Open(s: Machine, root: nat) { TablesWritable(s) && TablesUser(s, root) }

  /** A new space is open: it has no tables yet. */
  lemma CreatedOpen(s: Machine, kernelRoot: nat, root: nat)
    requires MachineOk(s) && OwnersLive(s) && TablesWritable(s) && CreateSpace(s, kernelRoot, true).1 == Some(root)
    ensures Open(CreateSpace(s, kernelRoot, true).0, root)
  {
    hide MachineOk, CreateSpace, TablesWritable, User, Present, Entry;
    CreateTables(s, kernelRoot, true, root);
    NewIsNew(s, kernelRoot, true);
  }

  lemma {:induction false} MapRunOpen(s: Machine, root: nat, g: Segment, start: nat, n: nat)
    requires MachineOk(s) && IsSpace(s, root) && Open(s, root)
    ensures Open(MapRun(s, root, g, start, n).0, root)
  {
    hide MachineOk, MapPage, FlagsOf, VirtAt, TablesWritable, TablesUser;
    if n > 0 {
      MapRunOpen(s, root, g, start, n - 1);
      var (t, ok) := MapRun(s, root, g, start, n - 1);
      if ok {
        FlagsOfFields(g);
        MapKeepsTables(t, root, VirtAt(g, n - 1), (start + n - 1) * PAGE, FlagsOf(g), root);
      }
    }
  }

  lemma SameOpen(s: Machine, t: Machine, root: nat)
    requires Open(s, root) && t.mem == s.mem && t.own == s.own
    ensures Open(t, root)
  {
  }

  lemma MappedOpen(s: Machine, root: nat, g: Segment)
    requires MachineOk(s) && IsSpace(s, root) && InUserRegion(g) && LowRun(s.frames, PageCount(g)).Some? &&
             Open(s, root)
    ensures Open(Mapped(s, root, g).0, root)
  {
    hide MachineOk, MapRun, LowRun, PageCount, TakeRun, InUserRegion, Open;
    var n, a := PageCount(g), LowRun(s.frames, PageCount(g)).value;
    LowRunOk(s, n);
    RunTakenOk(s, a, n);
    var s1 := s.(frames := TakeRun(s.frames, a, n));
    SameOpen(s, s1, root);
    MapRunOpen(s1, root, g, a, n);
  }

  lemma PassOpen(s: Machine, root: nat, b: Blob, g: Segment)
    requires MachineOk(s) && IsSpace(s, root) && Sound(g, |b|) && Open(s, root)
    ensures Open(LoadSegment(s, root, b, g).0, root)
  {
    hide LowRun, PageCount, MachineOk, Mapped, Filled, LoadSegment, InUserRegion, Empty, Sound, TablesWritable;
    hide TablesUser;
    LoadSegmentCases(s, root, b, g);
    var (t, rc, a) := LoadSegment(s, root, b, g);
    if t != s || rc == OK {
      MappedOpen(s, root, g);
      if rc == OK {
        LoadSegmentPhases(s, root, b, g);
        SameTables(Mapped(s, root, g).0, t.mem, t.frames, root);
      }
    }
  }

  lemma {:induction false} LoadOpen(s: Machine, root: nat, b: Blob, segs: seq<Segment>, n: nat)
    requires MachineOk(s) && IsSpace(s, root) && AllSound(b, segs) && n <= |segs| && Open(s, root)
    ensures Open(LoadUpTo(s, root, b, segs, n).0, root)
  {
    hide MachineOk, LoadSegment, Sound, Open;
    if n > 0 {
      LoadOpen(s, root, b, segs, n - 1);
      var (t, rc, _) := LoadUpTo(s, root, b, segs, n - 1);
      if rc == OK {
        PassOpen(t, root, b, segs[n - 1]);
      }
    }
  }

  lemma SegmentAddress(s: Machine, root: nat, b: Blob, g: Segment, a: nat, k: nat)
    requires Sound(g, |b|) && Loaded(s, root, b, g, a) && k < g.memsz
    ensures USER_BASE <= FirstPage(g) * PAGE + k < USER_END
  {
    hide Leaf, LeafEntry, SegPage, PageCount;
  }

  /** After a load that returns OK into an open space, a user-mode access to any
      byte of any segment passes all four levels, reads always, writes exactly when
      the program header asks for a writable segment. */
  lemma LoadIsAccessible(s: Machine, root: nat, b: Blob, j: nat, k: nat, write: bool)
    requires MachineOk(s) && IsSpace(s, root) && Safe(b) && Open(s, root)
    requires LoadFile(s, root, b).1 == OK && Parse(b).Ok?
    requires j < |Parse(b).value.segs| && k < Parse(b).value.segs[j].memsz
    ensures var g, t := Parse(b).value.segs[j], LoadFile(s, root, b).0;
            UserAccess(t.mem, root, PageOf(FirstPage(g) * PAGE + k), write) <==> (write ==> g.writable)
  {
    hide Parse, MachineOk, LoadUpTo, Sound, AllSizesFit, Image, TablesWritable, TablesUser, UserAccess, PageOf, Leaf;
    hide PageHas, ReadUser, Present, User, Writable, NoExec, Loaded, FirstPage;
    ParseSound(b);
    var segs := Parse(b).value.segs;
    var (t, _, st) := LoadUpTo(s, root, b, segs, |segs|);
    var g := segs[j];
    var virt := FirstPage(g) * PAGE + k;
    LoadOpen(s, root, b, segs, |segs|);
    AllLoaded(s, root, b, segs, |segs|, j);
    SegmentAddress(t, root, b, g, st[j], k);
    UserRegionPage(virt);
    AccessIsPageHas(t, root, virt, write);
    PageHasIsLeaf(t, root, virt, write);
    SegmentShows(s, root, b, segs, j, k);
    ImageGrants(t.mem, root, b, g, k, write);
  }

  lemma ImageGrants(m: Memory, root: nat, b: Blob, g: Segment, k: nat, write: bool)
    requires Sound(g, |b|) && k < g.memsz && Image(m, root, b, g, k)
    ensures Grants(Leaf(m, root, PageOf(FirstPage(g) * PAGE + k)), write) <==> (write ==> g.writable)
  {
    hide Leaf, PageOf, FirstPage, Present, User, Writable, NoExec, ReadUser;
  }

  /** So it is for a program loaded into a new space, after any history. */
  lemma ProgramAccess(s: Machine, kernelRoot: nat, root: nat, b: Blob, j: nat, k: nat, write: bool)
    requires MachineOk(s) && OwnersLive(s) && TablesWritable(s) && Safe(b)
    requires CreateSpace(s, kernelRoot, true).1 == Some(root)
    requires var t := CreateSpace(s, kernelRoot, true).0;
             MachineOk(t) && IsSpace(t, root) && LoadFile(t, root, b).1 == OK
    requires Parse(b).Ok? && j < |Parse(b).value.segs| && k < Parse(b).value.segs[j].memsz
    ensures var g, t := Parse(b).value.segs[j], LoadFile(CreateSpace(s, kernelRoot, true).0, root, b).0;
            UserAccess(t.mem, root, PageOf(FirstPage(g) * PAGE + k), write) <==> (write ==> g.writable)
  {
    hide Parse, MachineOk, Safe, LoadFile, CreateSpace, UserAccess, PageOf, OwnersLive, TablesWritable, Open, FirstPage;
    CreatedOpen(s, kernelRoot, root);
    LoadIsAccessible(CreateSpace(s, kernelRoot, true).0, root, b, j, k, write);
  }

  // ------------------------------------------------- in terms of the file alone

  /** Program header `k` of the file, read byte by byte: the address, the place in the
      file and the two sizes. */
  ghost predicate HeaderSays(b: Blob, k: nat, vaddr: nat, offset: nat, filesz: nat, memsz: nat) {
    && |b| >= 64 && k < PhNum(b) && IsLoad(b, k)
    && var off := HeaderOffset(b, k);
       && BytesAt(b, off + 16, vaddr, 8) && BytesAt(b, off + 8, offset, 8)
       && BytesAt(b, off + 32, filesz, 8) && BytesAt(b, off + 40, memsz, 8)
       && vaddr < TWO64 && offset < TWO64 && filesz < TWO64 && memsz < TWO64
  }

  /** The plan entry of a header below 4 GiB has just these values. */
  lemma EntrySays(b: Blob, k: nat, vaddr: nat, offset: nat, filesz: nat, memsz: nat)
    requires Parse(b).Ok? && HeaderSays(b, k, vaddr, offset, filesz, memsz) && |b| < TWO32 && memsz < TWO32
    ensures var j, segs := LoadsBefore(b, k), Parse(b).value.segs;
            && j < |segs| && Describes(b, HeaderOffset(b, k), segs[j])
            && segs[j].vaddr == vaddr && segs[j].offset == offset && segs[j].filesz == filesz && segs[j].memsz == memsz
  {
    hide Parse, HeaderOffset, PhNum, LoadsBefore, Loadable, BytesAt, SegmentOf, Describes, HeaderError;
    var off := HeaderOffset(b, k);
    PlanIsFile(b, k);
    ParseSound(b);
    LoadableAt(b, 0, k);
    LoadsNone(b);
    HeaderValues(b, off, vaddr, offset, filesz, memsz);
    AcceptedHeader(b, k);
    HeaderSound(HeaderAt(b, off), |b|);
    EntryVaddr(HeaderAt(b, off));
  }

  lemma EntryVaddr(h: Header)
    ensures SegmentOf(h).vaddr == h.vaddr
  {
  }

  lemma HeaderValues(b: Blob, off: nat, vaddr: nat, offset: nat, filesz: nat, memsz: nat)
    requires off + PHDR_SIZE <= |b| && vaddr < TWO64 && offset < TWO64 && filesz < TWO64 && memsz < TWO64
    requires BytesAt(b, off + 16, vaddr, 8) && BytesAt(b, off + 8, offset, 8)
    requires BytesAt(b, off + 32, filesz, 8) && BytesAt(b, off + 40, memsz, 8)
    ensures var h := HeaderAt(b, off); h.vaddr == vaddr && h.offset == offset && h.filesz == filesz && h.memsz == memsz
  {
    hide BytesAt;
    var h := HeaderAt(b, off);
    HeaderBytes(b, off);
    SameWord(b, off + 16, h.vaddr, vaddr);
    SameWord(b, off + 8, h.offset, offset);
    SameWord(b, off + 32, h.filesz, filesz);
    SameWord(b, off + 40, h.memsz, memsz);
  }

  lemma AcceptedHeader(b: Blob, k: nat)
    requires Parse(b).Ok? && |b| >= 64 && k < PhNum(b) && IsLoad(b, k)
    ensures HeaderError(HeaderAt(b, HeaderOffset(b, k)), |b|) == 0
  {
    hide Headers, NoOverlap, HeaderError, HeaderAt, HeaderOffset, PhNum, Rd64, EhdrError;
    EhdrGood(b);
    HeadersExact(b, 0, []);
    KindIsOne(b, HeaderOffset(b, k));
    assert HeaderGood(b, k);
  }

  /** What the program finds at an address of a page-aligned PT_LOAD header below 4 GiB
      after a load that returns OK: the byte of the file at the same distance from the
      header's file offset, or zero beyond its file size; it may write there iff bit 1
      of the header's flags byte is set and execute iff bit 0 is; and user mode gets
      through all four levels. Everything is read off the bytes of the file. */
  lemma ProgramIsFile(s: Machine, root: nat, b: Blob, k: nat, n: nat,
                      vaddr: nat, offset: nat, filesz: nat, memsz: nat, write: bool)
    requires MachineOk(s) && IsSpace(s, root) && Open(s, root) && Safe(b) && |b| < TWO32
    requires LoadFile(s, root, b).1 == OK && Parse(b).Ok?
    requires HeaderSays(b, k, vaddr, offset, filesz, memsz) && vaddr % PAGE == 0 && n < memsz < TWO32
    ensures var m, off := LoadFile(s, root, b).0.mem, HeaderOffset(b, k);
            var e := Leaf(m, root, PageOf(vaddr + n));
            && off + PHDR_SIZE <= |b| && offset + filesz <= |b| && filesz <= memsz
            && ReadUser(m, root, vaddr + n) == Some(if n < filesz then b[offset + n] else 0)
            && (Writable(e) <==> Digit(b[off + 4], 1, 2) == 1) && (NoExec(e) <==> Digit(b[off + 4], 0, 2) == 0)
            && (UserAccess(m, root, PageOf(vaddr + n), write) <==> (write ==> Digit(b[off + 4], 1, 2) == 1))
  {
    hide Parse, MachineOk, Safe, LoadFile, UserAccess, PageOf, Open, HeaderOffset, PhNum, LoadsBefore, BytesAt, Leaf;
    hide ReadUser, Present, User, Writable, NoExec, Digit;
    EntrySays(b, k, vaddr, offset, filesz, memsz);
    var j := LoadsBefore(b, k);
    LoadIsFaithful(s, root, b, j, n);
    LoadIsAccessible(s, root, b, j, n, write);
    DigitIsBit(b[HeaderOffset(b, k) + 4], 0);
  }

  lemma DigitIsBit(w: nat, i: nat)
    ensures Digit(w, i, 2) == 0 || Digit(w, i, 2) == 1
  {
  }
}
