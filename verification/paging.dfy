/**
  The 4-level page tables of `tvmm.c` as values: physical memory as a sequence
  of 4 KiB pages of 64-bit words, the frame map, and who owns which table
  frame. Table entries are the machine words themselves; their fields are cut
  out by position (Intel SDM Vol. 3A, section 4.5).
*/
module Paging {
  import opened Words
  import opened Frames

  // ------------------------------------------------------------- entry words

  const ENTRIES: nat := 512
  const TWO40: nat := 0x100_0000_0000
  const TWO52: nat := 0x10_0000_0000_0000
  const TWO63: nat := 0x8000_0000_0000_0000

  predicate Present(e: nat) { e % 2 == 1 }
  predicate Writable(e: nat) { e / 2 % 2 == 1 }
  predicate User(e: nat) { e / 4 % 2 == 1 }
  predicate Huge(e: nat) { e / 128 % 2 == 1 }
  predicate NoExec(e: nat) { e / TWO63 % 2 == 1 }

  /** Frame number held in bits 12..51 (`e & ADDR_MASK`, in frames). */
  function FrameOf(e: nat): (f: nat)
    ensures f < TWO40
  {
    e / PAGE_SIZE % TWO40
  }

  /** Flag words carry no address bits. */
  predicate IsFlags(flags: nat) { flags < TWO64 && FrameOf(flags) == 0 }

  /** `frame | PRESENT | WRITE | (flags & USER)` */
  function TableEntry(frame: nat, flags: nat): (e: nat) {
    frame * PAGE_SIZE + 3 + (if User(flags) then 4 else 0)
  }

  /** `(phys & ADDR_MASK) | flags | PRESENT`: the low and high bits are those of
      `flags`, the address bits are joined. */
  function LeafEntry(phys: nat, flags: nat): (e: nat) {
    Pack(flags % PAGE_SIZE + (if Present(flags) then 0 else 1), BitOr(FrameOf(phys), FrameOf(flags)), flags / TWO52)
  }

  lemma TableEntryFields(frame: nat, flags: nat)
    requires frame < TWO40
    ensures var e := TableEntry(frame, flags);
            Present(e) && Writable(e) && !Huge(e) && (User(e) <==> User(flags)) && FrameOf(e) == frame
  {
  }

  /** A word is its low 12 bits, its 40-bit frame number and its high 12 bits. */
  function Pack(lo: nat, frame: nat, hi: nat): nat {
    lo + frame * PAGE_SIZE + hi * TWO52
  }

  lemma PackFields(lo: nat, frame: nat, hi: nat)
    requires lo < PAGE_SIZE && frame < TWO40
    ensures var e := Pack(lo, frame, hi); e % PAGE_SIZE == lo && FrameOf(e) == frame && e / TWO52 == hi
  {
    var e := Pack(lo, frame, hi);
    assert e / PAGE_SIZE == frame + hi * TWO40;
  }

  lemma PresentBit(e: nat)
    ensures Present(e) <==> e % PAGE_SIZE % 2 == 1
  {
  }

  lemma WritableBit(e: nat)
    ensures Writable(e) <==> e % PAGE_SIZE / 2 % 2 == 1
  {
    var q, r := e / PAGE_SIZE, e % PAGE_SIZE;
    assert e / 2 == 2 * (1024 * q) + r / 2;
  }

  lemma UserBit(e: nat)
    ensures User(e) <==> e % PAGE_SIZE / 2 / 2 % 2 == 1
  {
    var q, r := e / PAGE_SIZE, e % PAGE_SIZE;
    assert e / 4 == 2 * (512 * q) + r / 4;
  }

  lemma HighBit(e: nat)
    ensures NoExec(e) <==> e / TWO52 / 2048 % 2 == 1
  {
  }

  lemma LeafLow(flags: nat)
    ensures var lo := flags % PAGE_SIZE + (if Present(flags) then 0 else 1);
            lo < PAGE_SIZE && lo % 2 == 1 && lo / 2 == flags % PAGE_SIZE / 2
  {
    PresentBit(flags);
  }

  lemma JoinedFrames(a: nat, b: nat)
    requires a < TWO40 && b < TWO40
    ensures BitOr(a, b) < TWO40
  {
    hide Pow2, BitOr;
    PowerOf40();
    BitOrBelow(a, b, 40);
  }

  lemma LeafEntryFields(phys: nat, flags: nat)
    ensures var e := LeafEntry(phys, flags);
            && Present(e) && FrameOf(e) == BitOr(FrameOf(phys), FrameOf(flags))
            && (Writable(e) <==> Writable(flags)) && (User(e) <==> User(flags)) && (NoExec(e) <==> NoExec(flags))
            && (IsFlags(flags) ==> FrameOf(e) == FrameOf(phys))
  {
    hide FrameOf, Pack, Present, Writable, User, NoExec, BitOr;
    LeafLow(flags);
    JoinedFrames(FrameOf(phys), FrameOf(flags));
    OrZero(FrameOf(phys));
    var e := LeafEntry(phys, flags);
    var lo := flags % PAGE_SIZE + (if Present(flags) then 0 else 1);
    PackFields(lo, BitOr(FrameOf(phys), FrameOf(flags)), flags / TWO52);
    PresentBit(e);
    WritableBit(e);
    WritableBit(flags);
    UserBit(e);
    UserBit(flags);
    HighBit(e);
    HighBit(flags);
  }

  /** Bit by bit, the frame is that of `phys` joined with that of `flags`. */
  lemma LeafEntryBits(phys: nat, flags: nat, k: nat)
    ensures Digit(FrameOf(LeafEntry(phys, flags)), k, 2) == 1
       <==> Digit(FrameOf(phys), k, 2) == 1 || Digit(FrameOf(flags), k, 2) == 1
  {
    hide FrameOf, LeafEntry, BitOr, Digit;
    LeafEntryFields(phys, flags);
    BitOrAt(FrameOf(phys), FrameOf(flags), k);
  }

  lemma OrZero(a: nat)
    ensures BitOr(a, 0) == a
  {
  }

  // ------------------------------------------------------- memory and trees

  type Page = seq<nat>
  type Memory = seq<Page>

  function ZeroPage(): (p: Page)
    ensures |p| == ENTRIES && forall i :: 0 <= i < ENTRIES ==> p[i] == 0
  {
    seq(ENTRIES, _ => 0)
  }

  /** All of the physmap window, in whole pages. */
  ghost predicate MemoryOk(m: Memory) {
    |m| == LOW_FRAMES && forall f :: 0 <= f < |m| ==> |m[f]| == ENTRIES
  }

  /** Entry `i` of the table in frame `f`. */
  function Entry(m: Memory, f: nat, i: nat): (e: nat) {
    if f < |m| && i < |m[f]| then m[f][i] else 0
  }

  /** Position of a table in a tree: the PML4 in frame `id`, or the table
      behind slot `idx` of another table. */
  datatype Node = Root(id: nat) | Child(parent: Node, idx: nat)

  function Depth(n: Node): nat {
    if n.Root? then 0 else 1 + Depth(n.parent)
  }

  /** The space a table belongs to. */
  function RootId(n: Node): (id: nat) {
    if n.Root? then n.id else RootId(n.parent)
  }

  /** Slots of a table that belong to user space: 1..255 of a PML4, all others. */
  predicate UserSlot(n: Node, i: nat) {
    if n.Root? then 1 <= i < 256 else i < ENTRIES
  }

  /** Page tables and frame map of the machine; `own` says which frame holds
      which table of which space. */
  datatype Machine = Machine(mem: Memory, own: map<nat, Node>, frames: FrameMap)

  /** Entry `i` of the table in frame `f`, if present, leads to the frame that
      holds the table behind that slot, and to no other. */
  ghost predicate LinkOk(s: Machine, f: nat, i: nat)
    requires f in s.own
  {
    var e := Entry(s.mem, f, i);
    && !Huge(e)
    && (Present(e) ==> FrameOf(e) in s.own && s.own[FrameOf(e)] == Child(s.own[f], i))
  }

  ghost predicate Linked(s: Machine) {
    forall f, i :: f in s.own && Depth(s.own[f]) < 3 && UserSlot(s.own[f], i) ==> LinkOk(s, f, i)
  }

  /** Table frames lie in the window, are in use, and roots are where they say. */
  ghost predicate OwnedOk(s: Machine) {
    forall f :: f in s.own ==>
      f < LOW_FRAMES && f !in s.frames.free && Depth(s.own[f]) <= 3 && (s.own[f].Root? ==> s.own[f].id == f)
  }

  ghost predicate MachineOk(s: Machine) {
    MemoryOk(s.mem) && WellFormed(s.frames) && 0 !in s.frames.free && OwnedOk(s) && Linked(s)
  }

  lemma MachineMemory(s: Machine)
    requires MachineOk(s)
    ensures MemoryOk(s.mem) && 0 !in s.frames.free
  {
  }

  ghost predicate IsSpace(s: Machine, root: nat) {
    root in s.own && s.own[root] == Root(root)
  }

  /** No table belongs to a space that does not exist. */
  ghost predicate OwnersLive(s: Machine) { forall f :: f in s.own ==> IsSpace(s, RootId(s.own[f])) }

  // ------------------------------------------------------------ translation

  /** A virtual page by its four table indices. */
  datatype VPage = VPage(i4: nat, i3: nat, i2: nat, i1: nat)

  /** Table indices of page number `k`. */
  function PageNo(k: nat): (p: VPage)
    ensures p.i4 < ENTRIES && p.i3 < ENTRIES && p.i2 < ENTRIES && p.i1 < ENTRIES
  {
    VPage(k / 0x800_0000 % ENTRIES, k / 0x4_0000 % ENTRIES, k / 0x200 % ENTRIES, k % ENTRIES)
  }

  /** The index macros: bits 39.., 30.., 21.. and 12.. of the address, 9 each. */
  function PageOf(virt: nat): (p: VPage)
    ensures p.i4 < ENTRIES && p.i3 < ENTRIES && p.i2 < ENTRIES && p.i1 < ENTRIES
  {
    PageNo(virt / PAGE_SIZE)
  }

  /** Page numbers of 36 bits are told apart by their indices. */
  lemma PageNoInjective(k: nat, l: nat)
    requires k < 0x10_0000_0000 && l < 0x10_0000_0000 && PageNo(k) == PageNo(l)
    ensures k == l
  {
    IndexDigits(k);
    IndexDigits(l);
    hide PageNo;
  }

  /** A page number put together from its indices. */
  lemma IndexDigits(k: nat)
    requires k < 0x10_0000_0000
    ensures var p := PageNo(k); k == p.i1 + 512 * (p.i2 + 512 * (p.i3 + 512 * p.i4))
  {
    var a := k / 512;
    var c := a / 512;
    assert k / 0x4_0000 == c;
    assert k / 0x800_0000 == c / 512;
  }

  ghost predicate UserPage(p: VPage) {
    1 <= p.i4 < 256 && p.i3 < ENTRIES && p.i2 < ENTRIES && p.i1 < ENTRIES
  }

  datatype Option<+T> = None | Some(value: T)

  /** `table_lookup` */
  function Lookup(m: Memory, f: nat, i: nat): (r: Option<nat>) {
    if Present(Entry(m, f, i)) then Some(FrameOf(Entry(m, f, i))) else None
  }

  /** `table_lookup` on a table that may already be missing. */
  function Follow(m: Memory, t: Option<nat>, i: nat): (r: Option<nat>) {
    if t.None? then None else Lookup(m, t.value, i)
  }

  /** Frame of the page table (last level) that maps page `p`. */
  function PtOf(m: Memory, root: nat, p: VPage): (r: Option<nat>) {
    Follow(m, Follow(m, Lookup(m, root, p.i4), p.i3), p.i2)
  }

  /** The last-level entry that maps page `p`; 0 when there is none. */
  function Leaf(m: Memory, root: nat, p: VPage): (e: nat) {
    var t := PtOf(m, root, p);
    if t.None? then 0 else Entry(m, t.value, p.i1)
  }

  function NodeOf(root: nat, p: VPage): (n: Node)
    ensures Depth(n) == 3
  {
    assert Depth(Child(Root(root), p.i4)) == 1;
    Child(Child(Child(Root(root), p.i4), p.i3), p.i2)
  }

  /** Following a present link goes one level down the same tree. */
  lemma FollowOwned(s: Machine, f: nat, i: nat)
    requires MachineOk(s) && f in s.own && Depth(s.own[f]) < 3 && UserSlot(s.own[f], i)
    ensures Lookup(s.mem, f, i).Some? ==>
              var c := Lookup(s.mem, f, i).value; c in s.own && s.own[c] == Child(s.own[f], i)
  {
    assert LinkOk(s, f, i);
  }

  /** A page table reached by a walk is owned by exactly that walk. */
  lemma PtOwned(s: Machine, root: nat, p: VPage)
    requires MachineOk(s) && IsSpace(s, root) && UserPage(p)
    ensures PtOf(s.mem, root, p).Some? ==>
              var t := PtOf(s.mem, root, p).value; t in s.own && s.own[t] == NodeOf(root, p)
  {
    hide Present, FrameOf, MachineOk;
    FollowOwned(s, root, p.i4);
    var a := Lookup(s.mem, root, p.i4);
    if a.Some? {
      FollowOwned(s, a.value, p.i3);
      var b := Lookup(s.mem, a.value, p.i3);
      if b.Some? {
        FollowOwned(s, b.value, p.i2);
      }
    }
  }

  /** Distinct pages, of one space or of two, never share a last-level entry. */
  lemma LeavesUnshared(s: Machine, r: nat, p: VPage, r': nat, p': VPage)
    requires MachineOk(s) && IsSpace(s, r) && IsSpace(s, r') && UserPage(p) && UserPage(p')
    requires PtOf(s.mem, r, p).Some? && PtOf(s.mem, r, p) == PtOf(s.mem, r', p') && p.i1 == p'.i1
    ensures r == r' && p == p'
  {
    PtOwned(s, r, p);
    PtOwned(s, r', p');
  }

  // ----------------------------------------------------------- table_ensure

  function LowCap(v: FrameMap): nat { Min(LOW_FRAMES, v.total) }

  /** Frame `tpmm_alloc_low` would return, if any. */
  function LowFrame(v: FrameMap): (r: Option<nat>) {
    var c := Choice(v, LowCap(v));
    if c < LowCap(v) then Some(c) else None
  }

  function SetEntry(m: Memory, f: nat, i: nat, e: nat): (r: Memory)
    requires f < |m| && i < |m[f]|
  {
    var page: Page := m[f][i := e];
    m[f := page]
  }

  /** A fresh zeroed table in frame `c` wired into slot `i` of table `t`. */
  function WireTable(s: Machine, t: nat, i: nat, c: nat, flags: nat): (r: Machine)
    requires t in s.own && t < |s.mem| && c < |s.mem| && i < |s.mem[t]| && t != c
  {
    Machine(SetEntry(s.mem[c := ZeroPage()], t, i, TableEntry(c, flags)),
            s.own[c := Child(s.own[t], i)],
            Take(s.frames, c))
  }

  lemma EntryAfterWire(s: Machine, t: nat, i: nat, c: nat, flags: nat, f: nat, j: nat)
    requires MachineOk(s) && t in s.own && i < ENTRIES && c < LOW_FRAMES && c != t
    ensures Entry(WireTable(s, t, i, c, flags).mem, f, j)
         == if f == t && j == i then TableEntry(c, flags) else if f == c then 0 else Entry(s.mem, f, j)
  {
    hide TableEntry, Linked;
  }

  /** Wiring a fresh frame keeps the trees in order ... */
  lemma WireKeeps(s: Machine, t: nat, i: nat, c: nat, flags: nat)
    requires MachineOk(s) && t in s.own && Depth(s.own[t]) < 3 && UserSlot(s.own[t], i)
    requires c in s.frames.free && c < LOW_FRAMES && !Present(Entry(s.mem, t, i))
    ensures MachineOk(WireTable(s, t, i, c, flags))
  {
    var r := WireTable(s, t, i, c, flags);
    TableEntryFields(c, flags);
    forall f, j | f in r.own && Depth(r.own[f]) < 3 && UserSlot(r.own[f], j) ensures LinkOk(r, f, j) {
      EntryAfterWire(s, t, i, c, flags, f, j);
      if f != c && !(f == t && j == i) {
        assert LinkOk(s, f, j);
      }
    }
    hide Present, FrameOf, TableEntry, Huge, Linked, LinkOk;
  }

  lemma LookupAfterWire(s: Machine, t: nat, i: nat, c: nat, flags: nat, f: nat, j: nat)
    requires MachineOk(s) && t in s.own && i < ENTRIES && c in s.frames.free && c < LOW_FRAMES
    ensures Lookup(WireTable(s, t, i, c, flags).mem, f, j)
         == if f == t && j == i then Some(c) else if f == c then None else Lookup(s.mem, f, j)
  {
    EntryAfterWire(s, t, i, c, flags, f, j);
    TableEntryFields(c, flags);
    hide TableEntry, FrameOf, WireTable, Entry;
  }

  /** A walk finds the same page table as before, or the fresh empty one where
      it found none. */
  lemma WirePt(s: Machine, t: nat, i: nat, c: nat, flags: nat, root: nat, p: VPage)
    requires MachineOk(s) && t in s.own && Depth(s.own[t]) < 3 && UserSlot(s.own[t], i)
    requires c in s.frames.free && c < LOW_FRAMES && !Present(Entry(s.mem, t, i))
    requires IsSpace(s, root) && UserPage(p)
    ensures var was, now := PtOf(s.mem, root, p), PtOf(WireTable(s, t, i, c, flags).mem, root, p);
            now == was || (was.None? && now == Some(c))
  {
    assert c !in s.own;
    hide WireTable, Entry, Linked, MemoryOk, WellFormed;
    LookupAfterWire(s, t, i, c, flags, root, p.i4);
    FollowOwned(s, root, p.i4);
    LookupAfterWire(s, t, i, c, flags, c, p.i3);
    LookupAfterWire(s, t, i, c, flags, c, p.i2);
    var a := Lookup(s.mem, root, p.i4);
    if a.Some? {
      LookupAfterWire(s, t, i, c, flags, a.value, p.i3);
      FollowOwned(s, a.value, p.i3);
      var b := Lookup(s.mem, a.value, p.i3);
      if b.Some? {
        LookupAfterWire(s, t, i, c, flags, b.value, p.i2);
      }
    }
  }

  /** ... and changes no translation: the slot led nowhere before, and leads to
      an empty table now. */
  lemma WireSameLeaf(s: Machine, t: nat, i: nat, c: nat, flags: nat, root: nat, p: VPage)
    requires MachineOk(s) && t in s.own && Depth(s.own[t]) < 3 && UserSlot(s.own[t], i)
    requires c in s.frames.free && c < LOW_FRAMES && !Present(Entry(s.mem, t, i))
    requires IsSpace(s, root) && UserPage(p)
    ensures Leaf(WireTable(s, t, i, c, flags).mem, root, p) == Leaf(s.mem, root, p)
  {
    WirePt(s, t, i, c, flags, root, p);
    PtOwned(s, root, p);
    var pt := PtOf(s.mem, root, p);
    if pt.Some? {
      EntryAfterWire(s, t, i, c, flags, pt.value, p.i1);
    } else {
      EntryAfterWire(s, t, i, c, flags, c, p.i1);
    }
    hide WireTable, Entry, PtOf, MachineOk;
  }

  /** `table_ensure` on a table of a user tree. */
  function Ensure(s: Machine, t: nat, i: nat, flags: nat): (r: (Machine, Option<nat>))
    requires MachineOk(s) && t in s.own && Depth(s.own[t]) < 3 && UserSlot(s.own[t], i)
    ensures MachineOk(r.0)
    ensures r.1.Some? ==> r.1.value in r.0.own && r.0.own[r.1.value] == Child(s.own[t], i)
    ensures forall f :: f in s.own ==> f in r.0.own && r.0.own[f] == s.own[f]
  {
    var e := Entry(s.mem, t, i);
    assert LinkOk(s, t, i);
    if Present(e) then (s, Some(FrameOf(e)))
    else
      var c := LowFrame(s.frames);
      if c.None? then (s, None)
      else
        ChoiceIsComplete(s.frames, LowCap(s.frames));
        WireKeeps(s, t, i, c.value, flags);
        (WireTable(s, t, i, c.value, flags), c)
  }

  lemma EnsureSameLeaf(s: Machine, t: nat, i: nat, flags: nat, root: nat, p: VPage)
    requires MachineOk(s) && t in s.own && Depth(s.own[t]) < 3 && UserSlot(s.own[t], i)
    requires IsSpace(s, root) && UserPage(p)
    ensures Leaf(Ensure(s, t, i, flags).0.mem, root, p) == Leaf(s.mem, root, p)
  {
    ChoiceIsComplete(s.frames, LowCap(s.frames));
    hide Leaf, MachineOk, WireTable;
    if !Present(Entry(s.mem, t, i)) && LowFrame(s.frames).Some? {
      WireSameLeaf(s, t, i, LowFrame(s.frames).value, flags, root, p);
    }
  }

  // ------------------------------------------------------- map and unmap

  predicate KernelSlot(i: nat) { i == 0 || i >= 256 }

  /** `vmm_aspace_map`: the machine afterwards and whether it succeeded. */
  function MapPage(s: Machine, root: nat, virt: nat, phys: nat, flags: nat): (r: (Machine, bool))
    requires MachineOk(s) && IsSpace(s, root)
    ensures MachineOk(r.0)
    ensures forall f :: f in s.own ==> f in r.0.own && r.0.own[f] == s.own[f]
  {
    var p := PageOf(virt);
    if KernelSlot(p.i4) then (s, false)
    else
      var (s1, a) := Ensure(s, root, p.i4, flags);
      if a.None? then (s1, false)
      else
        var (s2, b) := Ensure(s1, a.value, p.i3, flags);
        if b.None? then (s2, false)
        else
          var (s3, c) := Ensure(s2, b.value, p.i2, flags);
          if c.None? then (s3, false)
          else
            LeafWriteKeeps(s3, c.value, p.i1, LeafEntry(phys, flags));
            (s3.(mem := SetEntry(s3.mem, c.value, p.i1, LeafEntry(phys, flags))), true)
  }

  lemma LeafWriteKeeps(s: Machine, t: nat, i: nat, e: nat)
    requires MachineOk(s) && t in s.own && Depth(s.own[t]) == 3 && i < ENTRIES
    ensures MachineOk(s.(mem := SetEntry(s.mem, t, i, e)))
  {
    var r := s.(mem := SetEntry(s.mem, t, i, e));
    forall f, j | f in r.own && Depth(r.own[f]) < 3 && UserSlot(r.own[f], j) ensures LinkOk(r, f, j) {
      assert LinkOk(s, f, j);
      assert Entry(r.mem, f, j) == Entry(s.mem, f, j);
    }
    hide Linked, LinkOk;
  }

  /** Writing a last-level entry leaves every walk where it was. */
  lemma LeafWriteSamePt(s: Machine, t: nat, i: nat, e: nat, root: nat, p: VPage)
    requires MachineOk(s) && t in s.own && Depth(s.own[t]) == 3 && i < ENTRIES
    requires IsSpace(s, root) && UserPage(p)
    ensures PtOf(SetEntry(s.mem, t, i, e), root, p) == PtOf(s.mem, root, p)
  {
    var m := SetEntry(s.mem, t, i, e);
    forall f, j | f != t ensures Lookup(m, f, j) == Lookup(s.mem, f, j) {
    }
    hide SetEntry, Lookup, Linked;
    FollowOwned(s, root, p.i4);
    var a := Lookup(s.mem, root, p.i4);
    if a.Some? {
      assert s.own[a.value] == Child(Root(root), p.i4);
      FollowOwned(s, a.value, p.i3);
    }
  }

  /** Writing the last-level entry of one page changes that page's entry in that
      space and no other entry of any space. */
  lemma LeafWriteOne(s: Machine, root: nat, p: VPage, e: nat, r: nat, q: VPage)
    requires MachineOk(s) && IsSpace(s, root) && IsSpace(s, r) && UserPage(p) && UserPage(q)
    requires PtOf(s.mem, root, p).Some?
    requires PtOf(s.mem, root, p).value in s.own && s.own[PtOf(s.mem, root, p).value] == NodeOf(root, p)
    ensures Leaf(SetEntry(s.mem, PtOf(s.mem, root, p).value, p.i1, e), r, q)
         == if r == root && q == p then e else Leaf(s.mem, r, q)
  {
    var t := PtOf(s.mem, root, p).value;
    LeafWriteSamePt(s, t, p.i1, e, r, q);
    var u := PtOf(s.mem, r, q);
    if u == Some(t) && q.i1 == p.i1 {
      LeavesUnshared(s, root, p, r, q);
    }
    hide PtOf, Linked;
  }

  lemma EnsureLookup(s: Machine, t: nat, i: nat, flags: nat)
    requires MachineOk(s) && t in s.own && Depth(s.own[t]) < 3 && UserSlot(s.own[t], i)
    ensures Ensure(s, t, i, flags).1.Some? ==>
              Lookup(Ensure(s, t, i, flags).0.mem, t, i) == Ensure(s, t, i, flags).1
  {
    ChoiceIsComplete(s.frames, LowCap(s.frames));
    hide MachineOk, WireTable, Choice;
    if !Present(Entry(s.mem, t, i)) && LowFrame(s.frames).Some? {
      LookupAfterWire(s, t, i, LowFrame(s.frames).value, flags, t, i);
    }
  }

  /** Links that exist stay. */
  lemma EnsureKeepsLookup(s: Machine, t: nat, i: nat, flags: nat, f: nat, j: nat)
    requires MachineOk(s) && t in s.own && Depth(s.own[t]) < 3 && UserSlot(s.own[t], i)
    requires f in s.own && Lookup(s.mem, f, j).Some?
    ensures Lookup(Ensure(s, t, i, flags).0.mem, f, j) == Lookup(s.mem, f, j)
  {
    ChoiceIsComplete(s.frames, LowCap(s.frames));
    assert f !in s.frames.free;
    hide MachineOk, WireTable, Choice;
    if !Present(Entry(s.mem, t, i)) && LowFrame(s.frames).Some? {
      LookupAfterWire(s, t, i, LowFrame(s.frames).value, flags, f, j);
    }
  }

  /** `vmm_aspace_map` refines an update of a finite map from (space, page) to
      entry words: on success it changes exactly one of them, on failure none,
      and the trees stay in order either way. */
  lemma MapRefines(s: Machine, root: nat, virt: nat, phys: nat, flags: nat, r: nat, q: VPage)
    requires MachineOk(s) && IsSpace(s, root) && IsSpace(s, r) && UserPage(q)
    ensures var (t, ok) := MapPage(s, root, virt, phys, flags);
            && MachineOk(t) && IsSpace(t, r)
            && (ok ==> UserPage(PageOf(virt)))
            && Leaf(t.mem, r, q)
               == if ok && r == root && q == PageOf(virt) then LeafEntry(phys, flags) else Leaf(s.mem, r, q)
  {
    hide MachineOk, Leaf, LeafEntry, Lookup, Ensure;
    var p := PageOf(virt);
    hide PageOf;
    if !KernelSlot(p.i4) {
      EnsureSameLeaf(s, root, p.i4, flags, r, q);
      EnsureLookup(s, root, p.i4, flags);
      var (s1, a) := Ensure(s, root, p.i4, flags);
      if a.Some? {
        EnsureSameLeaf(s1, a.value, p.i3, flags, r, q);
        EnsureLookup(s1, a.value, p.i3, flags);
        EnsureKeepsLookup(s1, a.value, p.i3, flags, root, p.i4);
        var (s2, b) := Ensure(s1, a.value, p.i3, flags);
        if b.Some? {
          EnsureSameLeaf(s2, b.value, p.i2, flags, r, q);
          EnsureLookup(s2, b.value, p.i2, flags);
          EnsureKeepsLookup(s2, b.value, p.i2, flags, root, p.i4);
          EnsureKeepsLookup(s2, b.value, p.i2, flags, a.value, p.i3);
          var (s3, c) := Ensure(s2, b.value, p.i2, flags);
          if c.Some? {
            assert PtOf(s3.mem, root, p) == c;
            LeafWriteKeeps(s3, c.value, p.i1, LeafEntry(phys, flags));
            LeafWriteOne(s3, root, p, LeafEntry(phys, flags), r, q);
          }
        }
      }
    }
  }

  /** `vmm_aspace_unmap` */
  function UnmapPage(s: Machine, root: nat, virt: nat): (r: Machine)
    requires MachineOk(s) && IsSpace(s, root)
  {
    var p := PageOf(virt);
    var t := PtOf(s.mem, root, p);
    if KernelSlot(p.i4) || t.None? then s
    else
      PtOwned(s, root, p);
      s.(mem := SetEntry(s.mem, t.value, p.i1, 0))
  }

  lemma UnmapRefines(s: Machine, root: nat, virt: nat, r: nat, q: VPage)
    requires MachineOk(s) && IsSpace(s, root) && IsSpace(s, r) && UserPage(q)
    ensures var t := UnmapPage(s, root, virt);
            && MachineOk(t) && IsSpace(t, r)
            && Leaf(t.mem, r, q) == if r == root && q == PageOf(virt) then 0 else Leaf(s.mem, r, q)
  {
    var p := PageOf(virt);
    hide PageOf;
    if !KernelSlot(p.i4) {
      PtOwned(s, root, p);
      var t := PtOf(s.mem, root, p);
      hide PtOf, MachineOk;
      if t.Some? {
        LeafWriteKeeps(s, t.value, p.i1, 0);
        LeafWriteOne(s, root, p, 0, r, q);
      }
    }
  }

  // ----------------------------------------------------- reading translations

  /** `vmm_aspace_phys`: the physical address, if any. */
  function PhysOf(m: Memory, root: nat, virt: nat): (r: Option<nat>) {
    var p := PageOf(virt);
    if KernelSlot(p.i4) then None
    else
      var pd := Follow(m, Lookup(m, root, p.i4), p.i3);
      if pd.None? then None
      else
        var e := Entry(m, pd.value, p.i2);
        if Huge(e) then Some(FrameOf(e) * PAGE_SIZE)
        else
          var pt := Lookup(m, pd.value, p.i2);
          if pt.None? then None
          else
            var pte := Entry(m, pt.value, p.i1);
            if !Present(pte) then None else Some(FrameOf(pte) * PAGE_SIZE)
  }

  /** In an ordered machine the answer is the page's last-level entry. */
  lemma PhysIsLeaf(s: Machine, root: nat, virt: nat)
    requires MachineOk(s) && IsSpace(s, root)
    ensures PhysOf(s.mem, root, virt)
         == if KernelSlot(PageOf(virt).i4) || !Present(Leaf(s.mem, root, PageOf(virt))) then None
            else Some(FrameOf(Leaf(s.mem, root, PageOf(virt))) * PAGE_SIZE)
  {
    var p := PageOf(virt);
    if !KernelSlot(p.i4) {
      FollowOwned(s, root, p.i4);
      var a := Lookup(s.mem, root, p.i4);
      if a.Some? {
        FollowOwned(s, a.value, p.i3);
        var b := Lookup(s.mem, a.value, p.i3);
        if b.Some? {
          assert s.own[a.value] == Child(Root(root), p.i4);
          assert LinkOk(s, b.value, p.i2);
        }
      }
    }
    hide MachineOk, PageOf, FrameOf, Huge, Present;
  }

  /** After a successful map the page translates to the frame given, joined with
      the address bits of `flags` if it has any. */
  lemma MapThenPhys(s: Machine, root: nat, virt: nat, phys: nat, flags: nat)
    requires MachineOk(s) && IsSpace(s, root)
    ensures var (t, ok) := MapPage(s, root, virt, phys, flags);
            && (ok ==> PhysOf(t.mem, root, virt) == Some(BitOr(FrameOf(phys), FrameOf(flags)) * PAGE_SIZE))
            && (ok && IsFlags(flags) ==> PhysOf(t.mem, root, virt) == Some(FrameOf(phys) * PAGE_SIZE))
  {
    var (t, ok) := MapPage(s, root, virt, phys, flags);
    if ok {
      MapOkIsUser(s, root, virt, phys, flags);
      MapRefines(s, root, virt, phys, flags, root, PageOf(virt));
      PhysIsLeaf(t, root, virt);
      LeafEntryFields(phys, flags);
    }
    hide MapPage, PhysOf, Leaf, PageOf, FrameOf, Present, LeafEntry, BitOr;
  }

  lemma MapOkIsUser(s: Machine, root: nat, virt: nat, phys: nat, flags: nat)
    requires MachineOk(s) && IsSpace(s, root) && MapPage(s, root, virt, phys, flags).1
    ensures UserPage(PageOf(virt))
  {
    hide PageOf;
  }

  // ----------------------------------------------- mapping only takes frames

  lemma EnsureTakes(s: Machine, t: nat, i: nat, flags: nat)
    requires MachineOk(s) && t in s.own && Depth(s.own[t]) < 3 && UserSlot(s.own[t], i)
    ensures Ensure(s, t, i, flags).0.frames.free <= s.frames.free
  {
    hide Choice, Present, FrameOf, Entry, TableEntry, Linked;
  }

  lemma MapTakes(s: Machine, root: nat, virt: nat, phys: nat, flags: nat)
    requires MachineOk(s) && IsSpace(s, root)
    ensures MapPage(s, root, virt, phys, flags).0.frames.free <= s.frames.free
  {
    hide MachineOk, LeafEntry, Ensure, PageOf, SetEntry;
    var p := PageOf(virt);
    if !KernelSlot(p.i4) {
      EnsureTakes(s, root, p.i4, flags);
      var (s1, a) := Ensure(s, root, p.i4, flags);
      if a.Some? {
        EnsureTakes(s1, a.value, p.i3, flags);
        var (s2, b) := Ensure(s1, a.value, p.i3, flags);
        if b.Some? {
          EnsureTakes(s2, b.value, p.i2, flags);
        }
      }
    }
  }

  // --------------------------------------------------- when mapping succeeds

  /** Free frames that a table can be made of. */
  ghost function LowFree(v: FrameMap): set<nat> { set f | f in v.free && f < LowCap(v) }

  /** Number of tables missing on the walk of `p`. */
  function Missing(m: Memory, root: nat, p: VPage): nat {
    var a := Lookup(m, root, p.i4);
    var b := Follow(m, a, p.i3);
    var c := Follow(m, b, p.i2);
    if a.None? then 3 else if b.None? then 2 else if c.None? then 1 else 0
  }

  /** `table_ensure` needs one free low frame if the entry is not present; the table
      made of it is empty. */
  lemma EnsureNeeds(s: Machine, t: nat, i: nat, flags: nat)
    requires MachineOk(s) && t in s.own && Depth(s.own[t]) < 3 && UserSlot(s.own[t], i)
    ensures var (u, c) := Ensure(s, t, i, flags);
            if Lookup(s.mem, t, i).Some? then u == s && c == Lookup(s.mem, t, i)
            else
              && (c.Some? <==> |LowFree(s.frames)| > 0)
              && (c.Some? ==> |LowFree(u.frames)| == |LowFree(s.frames)| - 1
                              && forall j :: Lookup(u.mem, c.value, j).None?)
  {
    hide Present, Entry, TableEntry, Choice, MachineOk, FrameOf, SetEntry;
    if !Present(Entry(s.mem, t, i)) {
      LowFreeIff(s.frames);
      var c := LowFrame(s.frames);
      if c.Some? {
        LowFrameFacts(s);
        LowTaken(s.frames, c.value);
        InWindow(s, t);
        forall j ensures Lookup(WireTable(s, t, i, c.value, flags).mem, c.value, j).None? {
          EntryAfterWire(s, t, i, c.value, flags, c.value, j);
          ZeroAbsent();
        }
      }
    }
  }

  lemma InWindow(s: Machine, t: nat)
    requires MachineOk(s) && t in s.own
    ensures t < |s.mem| == LOW_FRAMES && |s.mem[t]| == ENTRIES
  {
  }

  lemma ZeroAbsent()
    ensures !Present(0)
  {
  }

  lemma LowFreeIff(v: FrameMap)
    ensures LowFrame(v).Some? <==> |LowFree(v)| > 0
    ensures LowFrame(v).Some? ==> LowFrame(v).value in LowFree(v)
  {
    ChoiceIsComplete(v, LowCap(v));
    hide Choice;
    assert LowFrame(v).Some? ==> LowFrame(v).value in LowFree(v);
    if |LowFree(v)| > 0 {
      var f :| f in LowFree(v);
    }
  }

  lemma LowTaken(v: FrameMap, c: nat)
    requires c in LowFree(v)
    ensures |LowFree(Take(v, c))| == |LowFree(v)| - 1
  {
    assert LowFree(Take(v, c)) == LowFree(v) - {c};
  }

  lemma LowFrameFacts(s: Machine)
    requires MachineOk(s) && LowFrame(s.frames).Some?
    ensures var c := LowFrame(s.frames).value;
            c in s.frames.free && 0 < c < LOW_FRAMES && c !in s.own && c < s.frames.total
  {
    ChoiceIsComplete(s.frames, LowCap(s.frames));
    hide Choice, Linked;
  }

  /** Mapping succeeds if and only if the page is in a user slot and there are free
      low frames for all the tables missing on its walk. */
  lemma MapSucceedsIff(s: Machine, root: nat, virt: nat, phys: nat, flags: nat)
    requires MachineOk(s) && IsSpace(s, root)
    ensures MapPage(s, root, virt, phys, flags).1 <==>
              !KernelSlot(PageOf(virt).i4) && Missing(s.mem, root, PageOf(virt)) <= |LowFree(s.frames)|
  {
    hide MachineOk, LeafEntry, Ensure, PageOf, SetEntry, LowFree, Lookup;
    var p := PageOf(virt);
    if !KernelSlot(p.i4) {
      EnsureNeeds(s, root, p.i4, flags);
      var (s1, a) := Ensure(s, root, p.i4, flags);
      if a.Some? {
        EnsureNeeds(s1, a.value, p.i3, flags);
        var (s2, b) := Ensure(s1, a.value, p.i3, flags);
        if b.Some? {
          assert Depth(s1.own[a.value]) == 1;
          EnsureNeeds(s2, b.value, p.i2, flags);
        }
      }
    }
  }

  // ------------------------------------------- writes that touch no table

  /** Writing pages that hold no table keeps the trees and every entry. */
  lemma DataWriteKeeps(s: Machine, m: Memory)
    requires MachineOk(s) && MemoryOk(m) && forall f :: f in s.own ==> m[f] == s.mem[f]
    ensures MachineOk(s.(mem := m))
  {
    var t := s.(mem := m);
    forall f, i | f in t.own && Depth(t.own[f]) < 3 && UserSlot(t.own[f], i) ensures LinkOk(t, f, i) {
      assert LinkOk(s, f, i);
    }
  }

  lemma DataWriteSameLeaf(s: Machine, m: Memory, r: nat, q: VPage)
    requires MachineOk(s) && MemoryOk(m) && forall f :: f in s.own ==> m[f] == s.mem[f]
    requires IsSpace(s, r) && UserPage(q)
    ensures Leaf(m, r, q) == Leaf(s.mem, r, q)
  {
    forall f, i | f in s.own ensures Entry(m, f, i) == Entry(s.mem, f, i) {
    }
    PtOwned(s, r, q);
    hide Present, FrameOf, Entry;
    FollowOwned(s, r, q.i4);
    var a := Lookup(s.mem, r, q.i4);
    if a.Some? {
      FollowOwned(s, a.value, q.i3);
    }
  }
}
