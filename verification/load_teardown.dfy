/**
  A loaded program's frames: a load into a fresh space leaves every table and
  every data frame to that space alone, so destroying it afterwards gives back
  all the load took, but for the PDPT frames.
*/
module LoadTeardown {
  import opened Words
  import opened Finite
  import opened Frames
  import opened Paging
  import opened Spaces
  import opened Teardown
  import opened ElfParse
  import opened ElfLoad
  import opened ElfImage

  /** The entry of `g` for the place of `f` leads to `f`. */
  ghost predicate LinkedFrom(m: Memory, all: map<nat, Node>, g: nat, f: nat) {
    && f in all && g in all && all[f].Child? && all[f].parent == all[g] && UserSlot(all[g], all[f].idx)
    && Present(Entry(m, g, all[f].idx)) && FrameOf(Entry(m, g, all[f].idx)) == f
  }

  /** The frames of the space are its own, and every one of them can be reached. */
  ghost predicate Held(s: Machine, all: map<nat, Node>, root: nat) {
    && FramesOwned(s, all, root)
    && forall f :: f in all && all[f].Child? ==> exists g :: LinkedFrom(s.mem, all, g, f)
  }

  /** From `s` to `t` the space got the frames `lo..hi` and free frames, and those
      are the frames no longer free. */
  ghost predicate Grew(s: Machine, all: map<nat, Node>, t: Machine, all': map<nat, Node>, lo: nat, hi: nat) {
    && t.frames.total == s.frames.total
    && (forall f :: f in all ==> f in all' && all'[f] == all[f])
    && (forall f: nat :: f in s.frames.free <==> f in t.frames.free || (f in all' && f !in all && !(lo <= f < hi)))
    && (forall f: nat :: lo <= f < hi ==> f in all' && f !in all)
  }

  lemma GrewNothing(s: Machine, all: map<nat, Node>)
    ensures Grew(s, all, s, all, 0, 0)
  {
  }

  /** `table_ensure` keeps the space's frames its own. */
  lemma EnsureHeld(s: Machine, all: map<nat, Node>, root: nat, t: nat, i: nat, flags: nat)
    returns (all': map<nat, Node>)
    requires MachineOk(s) && Held(s, all, root)
    requires t in s.own && RootId(s.own[t]) == root && Depth(s.own[t]) < 3 && UserSlot(s.own[t], i)
    ensures var u := Ensure(s, t, i, flags).0; Held(u, all', root) && Grew(s, all, u, all', 0, 0)
  {
    var e, c := Entry(s.mem, t, i), LowFrame(s.frames);
    if Present(e) || c.None? {
      GrewNothing(s, all);
      all' := all;
      hide MachineOk, Held;
    } else {
      LowFrameFacts(s);
      all' := all[c.value := Child(s.own[t], i)];
      WireHeld(s, all, root, t, i, c.value, flags);
      hide MachineOk, Held, Grew, WireTable, Choice;
    }
  }

  lemma WireHeld(s: Machine, all: map<nat, Node>, root: nat, t: nat, i: nat, c: nat, flags: nat)
    requires MachineOk(s) && Held(s, all, root) && t in s.own && RootId(s.own[t]) == root
    requires Depth(s.own[t]) < 3 && UserSlot(s.own[t], i) && !Present(Entry(s.mem, t, i))
    requires c in s.frames.free && 0 < c < LOW_FRAMES && c !in s.own && c < s.frames.total && t < LOW_FRAMES &&
             |s.mem| == LOW_FRAMES && |s.mem[t]| == ENTRIES
    ensures var u, all' := WireTable(s, t, i, c, flags), all[c := Child(s.own[t], i)];
            Held(u, all', root) && Grew(s, all, u, all', 0, 0)
  {
    var u, all' := WireTable(s, t, i, c, flags), all[c := Child(s.own[t], i)];
    forall f, j ensures Entry(u.mem, f, j) == if f == t && j == i then TableEntry(c, flags)
                                              else if f == c then 0 else Entry(s.mem, f, j)
    {
      EntryAfterWire(s, t, i, c, flags, f, j);
    }
    TableEntryFields(c, flags);
    assert c !in all;
    hide Entry, TableEntry, Present, FrameOf, Huge, MachineOk, SetEntry;
    WireOwned(s, all, root, t, i, c, u);
  }

  lemma WireOwned(s: Machine, all: map<nat, Node>, root: nat, t: nat, i: nat, c: nat, u: Machine)
    requires Held(s, all, root) && t in s.own && RootId(s.own[t]) == root
    requires Depth(s.own[t]) < 3 && UserSlot(s.own[t], i) && !Present(Entry(s.mem, t, i))
    requires c in s.frames.free && 0 < c < s.frames.total && c !in s.own && c !in all
    requires u.own == s.own[c := Child(s.own[t], i)] && u.frames == Take(s.frames, c)
    requires Present(Entry(u.mem, t, i)) && FrameOf(Entry(u.mem, t, i)) == c && !Huge(Entry(u.mem, t, i))
    requires forall j :: !Present(Entry(u.mem, c, j)) && !Huge(Entry(u.mem, c, j))
    requires forall f, j :: (f != t || j != i) && f != c ==> Entry(u.mem, f, j) == Entry(s.mem, f, j)
    ensures var all' := all[c := Child(s.own[t], i)];
            Held(u, all', root) && Grew(s, all, u, all', 0, 0)
  {
    hide Entry, Present, FrameOf, Huge, FramesOwned, LinkedFrom, Take, UserSlot, Depth, RootId;
    var all' := all[c := Child(s.own[t], i)];
    TableListed(s, all, root, t);
    WireFramesOwned(s, all, root, t, i, c, u);
    forall f | f in all' && all'[f].Child? ensures exists g :: LinkedFrom(u.mem, all', g, f) {
      if f == c {
        LinkNew(u.mem, all', t, c);
      } else {
        var g :| LinkedFrom(s.mem, all, g, f);
        LinkOld(s.mem, u.mem, all, all', t, i, c, g, f);
      }
    }
    TookOne(s, all, u, c, Child(s.own[t], i));
  }

  lemma TableListed(s: Machine, all: map<nat, Node>, root: nat, t: nat)
    requires FramesOwned(s, all, root) && t in s.own && RootId(s.own[t]) == root
    ensures t in all && all[t] == s.own[t]
  {
  }

  lemma TookOne(s: Machine, all: map<nat, Node>, u: Machine, c: nat, n: Node)
    requires c in s.frames.free && c !in all && u.frames == Take(s.frames, c)
    ensures Grew(s, all, u, all[c := n], 0, 0)
  {
  }

  lemma LinkNew(m: Memory, all: map<nat, Node>, t: nat, c: nat)
    requires t in all && c in all && all[c].Child? && all[c].parent == all[t] && UserSlot(all[t], all[c].idx)
    requires Present(Entry(m, t, all[c].idx)) && FrameOf(Entry(m, t, all[c].idx)) == c
    ensures LinkedFrom(m, all, t, c)
  {
  }

  /** A link survives the change of an entry that was not present. */
  lemma LinkOld(m: Memory, m': Memory, all: map<nat, Node>, all': map<nat, Node>, t: nat, i: nat, c: nat, g: nat,
                f: nat)
    requires LinkedFrom(m, all, g, f) && !Present(Entry(m, t, i)) && c !in all
    requires forall x :: x in all ==> x in all' && all'[x] == all[x]
    requires forall x, j :: (x != t || j != i) && x != c ==> Entry(m', x, j) == Entry(m, x, j)
    ensures LinkedFrom(m', all', g, f)
  {
    hide Entry, Present, FrameOf;
  }

  lemma WireFramesOwned(s: Machine, all: map<nat, Node>, root: nat, t: nat, i: nat, c: nat, u: Machine)
    requires FramesOwned(s, all, root) && t in s.own && RootId(s.own[t]) == root && t in all && all[t] == s.own[t]
    requires Depth(s.own[t]) < 3 && UserSlot(s.own[t], i) && !Present(Entry(s.mem, t, i))
    requires c in s.frames.free && 0 < c < s.frames.total && c !in s.own && c !in all
    requires u.own == s.own[c := Child(s.own[t], i)] && u.frames == Take(s.frames, c)
    requires Present(Entry(u.mem, t, i)) && FrameOf(Entry(u.mem, t, i)) == c && !Huge(Entry(u.mem, t, i))
    requires forall j :: !Present(Entry(u.mem, c, j)) && !Huge(Entry(u.mem, c, j))
    requires forall f, j :: (f != t || j != i) && f != c ==> Entry(u.mem, f, j) == Entry(s.mem, f, j)
    ensures FramesOwned(u, all[c := Child(s.own[t], i)], root)
  {
    hide Entry, Present, FrameOf, Huge;
    var all' := all[c := Child(s.own[t], i)];
    forall f, j | f in all' && Depth(all'[f]) < 4 && UserSlot(all'[f], j) ensures StepOwned(u.mem, all', f, j) {
      if f != c {
        assert StepOwned(s.mem, all, f, j);
        StepAfterWire(s.mem, u.mem, all, t, i, c, f, j);
      }
    }
  }

  lemma StepAfterWire(m: Memory, m': Memory, all: map<nat, Node>, t: nat, i: nat, c: nat, f: nat, j: nat)
    requires f in all && t in all && StepOwned(m, all, f, j) && c !in all && f != c
    requires Present(Entry(m', t, i)) && FrameOf(Entry(m', t, i)) == c && !Huge(Entry(m', t, i))
    requires (f != t || j != i) ==> Entry(m', f, j) == Entry(m, f, j)
    ensures StepOwned(m', all[c := Child(all[t], i)], f, j)
  {
    hide Entry, Present, FrameOf, Huge;
  }

  // --------------------------------------------------------------- mapping

  /** The three `table_ensure` calls of a mapping. */
  function Tables(s: Machine, root: nat, p: VPage, flags: nat): (r: (Machine, Option<nat>))
    requires MachineOk(s) && IsSpace(s, root) && UserPage(p)
    ensures MachineOk(r.0) && (r.1.Some? ==> r.1.value in r.0.own && r.0.own[r.1.value] == NodeOf(root, p))
  {
    var (s1, a) := Ensure(s, root, p.i4, flags);
    if a.None? then (s1, None)
    else
      var (s2, b) := Ensure(s1, a.value, p.i3, flags);
      if b.None? then (s2, None)
      else
        assert Depth(s1.own[a.value]) == 1;
        Ensure(s2, b.value, p.i2, flags)
  }

  lemma MapIsTables(s: Machine, root: nat, virt: nat, phys: nat, flags: nat)
    requires MachineOk(s) && IsSpace(s, root) && UserPage(PageOf(virt))
    ensures var p := PageOf(virt);
            var (u, c) := Tables(s, root, p, flags);
            var (t, ok) := MapPage(s, root, virt, phys, flags);
            && (ok <==> c.Some?)
            && (!ok ==> t == u)
            && (ok ==> c.value < |u.mem| && p.i1 < |u.mem[c.value]|
                       && t == u.(mem := SetEntry(u.mem, c.value, p.i1, LeafEntry(phys, flags))))
  {
    hide Ensure, PageOf, LeafEntry, SetEntry;
    var p := PageOf(virt);
    var (u, c) := Tables(s, root, p, flags);
    if c.Some? {
      InWindow(u, c.value);
    }
    hide MachineOk;
  }

  lemma TablesSameLeaf(s: Machine, root: nat, p: VPage, flags: nat)
    requires MachineOk(s) && IsSpace(s, root) && UserPage(p)
    ensures var (u, c) := Tables(s, root, p, flags);
            c.Some? ==> Entry(u.mem, c.value, p.i1) == Leaf(s.mem, root, p)
  {
    hide MachineOk, Lookup, Ensure, Entry;
    EnsureSameLeaf(s, root, p.i4, flags, root, p);
    EnsureLookup(s, root, p.i4, flags);
    var (s1, a) := Ensure(s, root, p.i4, flags);
    if a.Some? {
      EnsureSameLeaf(s1, a.value, p.i3, flags, root, p);
      EnsureLookup(s1, a.value, p.i3, flags);
      EnsureKeepsLookup(s1, a.value, p.i3, flags, root, p.i4);
      var (s2, b) := Ensure(s1, a.value, p.i3, flags);
      if b.Some? {
        assert Depth(s1.own[a.value]) == 1;
        EnsureSameLeaf(s2, b.value, p.i2, flags, root, p);
        EnsureLookup(s2, b.value, p.i2, flags);
        EnsureKeepsLookup(s2, b.value, p.i2, flags, root, p.i4);
        EnsureKeepsLookup(s2, b.value, p.i2, flags, a.value, p.i3);
        var (u, c) := Ensure(s2, b.value, p.i2, flags);
        assert c.Some? ==> PtOf(u.mem, root, p) == c;
      }
    }
  }

  lemma TablesHeld(s: Machine, all: map<nat, Node>, root: nat, p: VPage, flags: nat) returns (all': map<nat, Node>)
    requires MachineOk(s) && IsSpace(s, root) && UserPage(p) && Held(s, all, root)
    ensures var u := Tables(s, root, p, flags).0; Held(u, all', root) && Grew(s, all, u, all', 0, 0)
  {
    hide MachineOk, Ensure, Held, Grew;
    all' := EnsureHeld(s, all, root, root, p.i4, flags);
    var (s1, a) := Ensure(s, root, p.i4, flags);
    if a.Some? {
      var all1 := all';
      assert RootId(s1.own[a.value]) == root && Depth(s1.own[a.value]) == 1;
      all' := EnsureHeld(s1, all1, root, a.value, p.i3, flags);
      var (s2, b) := Ensure(s1, a.value, p.i3, flags);
      TakesTwice(s, all, s1, all1, s2, all');
      if b.Some? {
        var all2 := all';
        assert RootId(s2.own[b.value]) == root && Depth(s2.own[b.value]) == 2;
        all' := EnsureHeld(s2, all2, root, b.value, p.i2, flags);
        TakesTwice(s, all, s2, all2, Ensure(s2, b.value, p.i2, flags).0, all');
      }
    }
  }

  lemma TakesTwice(s: Machine, a: map<nat, Node>, t: Machine, b: map<nat, Node>, u: Machine, c: map<nat, Node>)
    requires Grew(s, a, t, b, 0, 0) && Grew(t, b, u, c, 0, 0)
    ensures Grew(s, a, u, c, 0, 0)
  {
  }

  /** Frame `f` is in use, holds no table, and is not yet the space's. */
  ghost predicate Spare(s: Machine, all: map<nat, Node>, f: nat) {
    IsData(s, f) && 0 < f < s.frames.total && f !in all
  }

  lemma SpareStays(s: Machine, all: map<nat, Node>, root: nat, p: VPage, flags: nat, all': map<nat, Node>, f: nat)
    requires MachineOk(s) && IsSpace(s, root) && UserPage(p) && Spare(s, all, f)
    requires Grew(s, all, Tables(s, root, p, flags).0, all', 0, 0)
    ensures Spare(Tables(s, root, p, flags).0, all', f)
  {
    hide MachineOk, Ensure, IsData;
    EnsureKeepsData(s, root, p.i4, flags, f);
    var (s1, a) := Ensure(s, root, p.i4, flags);
    if a.Some? {
      EnsureKeepsData(s1, a.value, p.i3, flags, f);
      var (s2, b) := Ensure(s1, a.value, p.i3, flags);
      if b.Some? {
        assert Depth(s1.own[a.value]) == 1;
        EnsureKeepsData(s2, b.value, p.i2, flags, f);
      }
    }
    InUse(s, f);
  }

  lemma InUse(s: Machine, f: nat)
    requires IsData(s, f)
    ensures f !in s.frames.free && f !in s.own
  {
  }

  /** Writing a leaf that was not present makes its frame the space's. */
  lemma LeafHeld(s: Machine, all: map<nat, Node>, root: nat, t: nat, i: nat, e: nat, f: nat)
    requires MachineOk(s) && Held(s, all, root) && t in s.own && RootId(s.own[t]) == root && Depth(s.own[t]) == 3 &&
             i < ENTRIES
    requires t < |s.mem| && i < |s.mem[t]| && !Present(Entry(s.mem, t, i)) && Present(e) && FrameOf(e) == f &&
             Spare(s, all, f)
    ensures var u, all' := s.(mem := SetEntry(s.mem, t, i, e)), all[f := Child(s.own[t], i)];
            Held(u, all', root) && Grew(s, all, u, all', f, f + 1)
  {
    hide Entry, Present, FrameOf, Huge, MachineOk, SetEntry, FramesOwned, LinkedFrom, Spare, UserSlot, RootId;
    var u, all' := s.(mem := SetEntry(s.mem, t, i, e)), all[f := Child(s.own[t], i)];
    InWindow(s, t);
    EntryAfterSet(s.mem, t, i, e);
    TableListed(s, all, root, t);
    SpareInUse(s, all, f);
    LeafFramesOwned(s, all, root, t, i, f, u);
    DeepSlot(s.own[t], i);
    forall x | x in all' && all'[x].Child? ensures exists g :: LinkedFrom(u.mem, all', g, x) {
      if x == f {
        LinkNew(u.mem, all', t, f);
      } else {
        var g :| LinkedFrom(s.mem, all, g, x);
        LinkOld(s.mem, u.mem, all, all', t, i, f, g, x);
      }
    }
    OneLeaf(s, all, u, f, Child(s.own[t], i));
  }

  lemma DeepSlot(n: Node, i: nat)
    requires Depth(n) == 3 && i < ENTRIES
    ensures UserSlot(n, i)
  {
  }

  lemma EntryAfterSet(m: Memory, t: nat, i: nat, e: nat)
    requires t < |m| == LOW_FRAMES && |m[t]| == ENTRIES && i < ENTRIES
    ensures Entry(SetEntry(m, t, i, e), t, i) == e
    ensures forall x, j :: x != t || j != i ==> Entry(SetEntry(m, t, i, e), x, j) == Entry(m, x, j)
  {
  }

  lemma OneLeaf(s: Machine, all: map<nat, Node>, u: Machine, f: nat, n: Node)
    requires u.frames == s.frames && f !in all && f !in s.frames.free
    ensures Grew(s, all, u, all[f := n], f, f + 1)
  {
  }

  lemma LeafFramesOwned(s: Machine, all: map<nat, Node>, root: nat, t: nat, i: nat, f: nat, u: Machine)
    requires FramesOwned(s, all, root) && t in s.own && RootId(s.own[t]) == root && Depth(s.own[t]) == 3
    requires t in all && all[t] == s.own[t] && Spare(s, all, f) && u.own == s.own && u.frames == s.frames
    requires Present(Entry(u.mem, t, i)) && FrameOf(Entry(u.mem, t, i)) == f
    requires forall x, j :: x != t || j != i ==> Entry(u.mem, x, j) == Entry(s.mem, x, j)
    ensures FramesOwned(u, all[f := Child(s.own[t], i)], root)
  {
    hide Entry, Present, FrameOf, Huge;
    var all' := all[f := Child(s.own[t], i)];
    forall x, j | x in all' && Depth(all'[x]) < 4 && UserSlot(all'[x], j) ensures StepOwned(u.mem, all', x, j) {
      assert x != f && StepOwned(s.mem, all, x, j);
    }
  }

  lemma NodeRoot(root: nat, p: VPage)
    ensures RootId(NodeOf(root, p)) == root
  {
    assert RootId(Child(Child(Root(root), p.i4), p.i3)) == RootId(Child(Root(root), p.i4)) == root;
  }

  /** Mapping a spare frame at a page that is not mapped keeps the space's frames
      its own, and adds this one and the new tables. */
  lemma MapHeld(s: Machine, all: map<nat, Node>, root: nat, virt: nat, f: nat, flags: nat)
    returns (all': map<nat, Node>)
    requires MachineOk(s) && IsSpace(s, root) && Held(s, all, root) && IsFlags(flags) && Spare(s, all, f)
    requires UserPage(PageOf(virt)) && !Present(Leaf(s.mem, root, PageOf(virt)))
    ensures var (t, ok) := MapPage(s, root, virt, f * PAGE_SIZE, flags);
            Held(t, all', root) && Grew(s, all, t, all', f, if ok then f + 1 else f)
  {
    hide MachineOk, Held, Grew, Tables, MapPage, PageOf, LeafEntry, SetEntry, Leaf, NodeOf, Present, FrameOf;
    hide Spare, IsFlags, UserPage, Entry;
    var p := PageOf(virt);
    MapIsTables(s, root, virt, f * PAGE_SIZE, flags);
    TablesSameLeaf(s, root, p, flags);
    var (u, c) := Tables(s, root, p, flags);
    var all1 := TablesHeld(s, all, root, p, flags);
    all' := all1;
    SpareStays(s, all, root, p, flags, all1, f);
    if c.Some? {
      NodeRoot(root, p);
      SpareBound(u, all1, f);
      FrameEntry(f, flags);
      PageIndex(virt);
      LeafHeld(u, all1, root, c.value, p.i1, LeafEntry(f * PAGE_SIZE, flags), f);
      all' := all1[f := Child(u.own[c.value], p.i1)];
      SpareInUse(s, all, f);
      ThenOne(s, all, u, all1, MapPage(s, root, virt, f * PAGE_SIZE, flags).0, all', f);
    } else {
      NoneThere(s, all, u, all1, f);
    }
  }

  lemma PageIndex(virt: nat)
    ensures PageOf(virt).i1 < ENTRIES
  {
  }

  lemma FrameEntry(f: nat, flags: nat)
    requires IsFlags(flags) && f < LOW_FRAMES
    ensures Present(LeafEntry(f * PAGE_SIZE, flags)) && FrameOf(LeafEntry(f * PAGE_SIZE, flags)) == f
  {
    LeafEntryFields(f * PAGE_SIZE, flags);
    assert f * PAGE_SIZE / PAGE_SIZE == f;
    hide LeafEntry, Present;
  }

  lemma SpareBound(s: Machine, all: map<nat, Node>, f: nat)
    requires Spare(s, all, f)
    ensures f < LOW_FRAMES
  {
  }

  lemma SpareInUse(s: Machine, all: map<nat, Node>, f: nat)
    requires Spare(s, all, f)
    ensures f !in s.frames.free && f !in all
  {
  }

  lemma ThenOne(s: Machine, a: map<nat, Node>, t: Machine, b: map<nat, Node>, u: Machine, c: map<nat, Node>, f: nat)
    requires Grew(s, a, t, b, 0, 0) && Grew(t, b, u, c, f, f + 1) && f !in s.frames.free && f !in a
    ensures Grew(s, a, u, c, f, f + 1)
  {
  }

  lemma NoneThere(s: Machine, a: map<nat, Node>, t: Machine, b: map<nat, Node>, f: nat)
    requires Grew(s, a, t, b, 0, 0)
    ensures Grew(s, a, t, b, f, f)
  {
  }

  // ------------------------------------------------------- a run of mappings

  /** Number of pages mapped before the first failure. */
  function MapCount(s: Machine, root: nat, g: Segment, start: nat, n: nat): (m: nat)
    requires MachineOk(s) && IsSpace(s, root)
    ensures m <= n && (m == n <==> MapRun(s, root, g, start, n).1)
  {
    if MapRun(s, root, g, start, n).1 then n else MapCount(s, root, g, start, n - 1)
  }

  /** Mapping a run gives the space exactly the frames mapped and the new tables,
      also when it is broken off. */
  lemma {:induction false} MapRunHeld(s: Machine, all: map<nat, Node>, root: nat, g: Segment, start: nat, n: nat)
    returns (all': map<nat, Node>)
    requires MachineOk(s) && IsSpace(s, root) && Held(s, all, root) && InUserRegion(g) && !Empty(g) && n <= PageCount(g)
    requires forall f: nat :: start <= f < start + n ==> Spare(s, all, f)
    requires forall p: nat :: p < n ==> !Present(Leaf(s.mem, root, SegPage(g, p)))
    ensures var t, m := MapRun(s, root, g, start, n).0, MapCount(s, root, g, start, n);
            Held(t, all', root) && Grew(s, all, t, all', start, start + m)
  {
    hide MachineOk, Held, Grew, MapPage, FlagsOf, VirtAt, Present, Leaf, SegPage, PageCount, Spare, InUserRegion, Empty;
    hide IsFlags;
    all' := all;
    if n == 0 {
      GrewNothing(s, all);
      NoneThere(s, all, s, all, start);
    } else {
      var f, q := start + n - 1, SegPage(g, n - 1);
      all' := MapRunHeld(s, all, root, g, start, n - 1);
      var (t, ok) := MapRun(s, root, g, start, n - 1);
      if ok {
        var all1 := all';
        assert Spare(s, all, f) && !Present(Leaf(s.mem, root, q));
        NextPage(s, all, root, g, start, n, all1);
        FlagsOfFields(g);
        VirtAtPage(g, n - 1);
        all' := MapHeld(t, all1, root, VirtAt(g, n - 1), f, FlagsOf(g));
        var (u, ok') := MapPage(t, root, VirtAt(g, n - 1), f * PAGE_SIZE, FlagsOf(g));
        if ok' {
          SpareInUse(s, all, f);
          OneMoreFrame(s, all, t, all1, u, all', root, start, f);
        } else {
          NoMoreFrame(s, all, t, all1, u, all', start, f);
        }
      }
    }
  }

  lemma NoMoreFrame(s: Machine, a: map<nat, Node>, t: Machine, b: map<nat, Node>, u: Machine, c: map<nat, Node>,
                    lo: nat, f: nat)
    requires Grew(s, a, t, b, lo, f) && Grew(t, b, u, c, f, f)
    ensures Grew(s, a, u, c, lo, f)
  {
  }

  /** The next frame is still spare and the next page still unmapped. */
  lemma NextPage(s: Machine, all: map<nat, Node>, root: nat, g: Segment, start: nat, n: nat, all1: map<nat, Node>)
    requires MachineOk(s) && IsSpace(s, root) && InUserRegion(g) && !Empty(g) && 0 < n <= PageCount(g)
    requires Spare(s, all, start + n - 1) && !Present(Leaf(s.mem, root, SegPage(g, n - 1)))
    requires Grew(s, all, MapRun(s, root, g, start, n - 1).0, all1, start, start + n - 1)
    ensures var t := MapRun(s, root, g, start, n - 1).0;
            Spare(t, all1, start + n - 1) && !Present(Leaf(t.mem, root, SegPage(g, n - 1)))
  {
    hide MachineOk, MapRun, Present, Leaf, SegPage, PageCount, InUserRegion, Empty;
    VirtAtPage(g, n - 1);
    MapRunKeepsData(s, root, g, start, n - 1, start + n - 1);
    forall p: nat | p < n - 1 ensures SegPage(g, n - 1) != SegPage(g, p) {
      SegPagesDiffer(g, n - 1, p);
    }
    MapRunOther(s, root, g, start, n - 1, root, SegPage(g, n - 1));
  }

  lemma OneMoreFrame(s: Machine, a: map<nat, Node>, t: Machine, b: map<nat, Node>, u: Machine, c: map<nat, Node>,
                     root: nat, lo: nat, f: nat)
    requires lo <= f && Grew(s, a, t, b, lo, f) && Grew(t, b, u, c, f, f + 1) && Held(u, c, root)
    requires Held(t, b, root) && f !in s.frames.free
    ensures Grew(s, a, u, c, lo, f + 1)
  {
    hide LinkedFrom, StepOwned;
  }

  // -------------------------------------------------------------- a segment

  lemma {:induction false} NotMapped(s: Machine, root: nat, g: Segment, n: nat, p: nat)
    requires MachineOk(s) && IsSpace(s, root) && InUserRegion(g) && !Empty(g) && p < n <= PageCount(g)
    requires !AnyMapped(s.mem, root, g, n)
    ensures !Present(Leaf(s.mem, root, SegPage(g, p)))
  {
    hide MachineOk, InUserRegion, Empty, PageCount, SegPage, Leaf, PageOf, VirtAt, PhysOf, Present, UserPage;
    if p < n - 1 {
      NotMapped(s, root, g, n - 1, p);
    } else {
      VirtAtPage(g, p);
      UserIsNotKernel(SegPage(g, p));
      PhysIsLeaf(s, root, VirtAt(g, p));
    }
  }

  lemma UserIsNotKernel(q: VPage)
    ensures UserPage(q) ==> !KernelSlot(q.i4)
  {
  }

  /** Writing pages that hold no table keeps the space's frames its own. */
  lemma DataWriteHeld(s: Machine, m: Memory, all: map<nat, Node>, root: nat)
    requires MachineOk(s) && MemoryOk(m) && Held(s, all, root)
    requires forall f :: f in s.own ==> f < LOW_FRAMES && m[f] == s.mem[f]
    ensures Held(s.(mem := m), all, root)
  {
    hide MachineOk, MemoryOk, FramesOwned, LinkedFrom;
    MachineMemory(s);
    SameOwned(s, m, all, root);
    forall f | f in all && all[f].Child? ensures exists g :: LinkedFrom(m, all, g, f) {
      var g :| LinkedFrom(s.mem, all, g, f);
      SameLink(s, m, all, root, g, f);
    }
  }

  lemma SameOwned(s: Machine, m: Memory, all: map<nat, Node>, root: nat)
    requires MemoryOk(s.mem) && MemoryOk(m) && FramesOwned(s, all, root)
    requires forall f :: f in s.own ==> f < LOW_FRAMES && m[f] == s.mem[f]
    ensures FramesOwned(s.(mem := m), all, root)
  {
    forall f, j | f in s.own ensures Entry(m, f, j) == Entry(s.mem, f, j) {
    }
    hide Entry, Present, FrameOf, Huge, MemoryOk;
    forall f, j | f in all && Depth(all[f]) < 4 && UserSlot(all[f], j) ensures StepOwned(m, all, f, j) {
      assert StepOwned(s.mem, all, f, j);
    }
  }

  lemma SameLink(s: Machine, m: Memory, all: map<nat, Node>, root: nat, g: nat, f: nat)
    requires MemoryOk(s.mem) && MemoryOk(m) && FramesOwned(s, all, root) && LinkedFrom(s.mem, all, g, f)
    requires forall f :: f in s.own ==> f < LOW_FRAMES && m[f] == s.mem[f]
    ensures LinkedFrom(m, all, g, f)
  {
    assert Depth(all[g]) < Depth(all[f]) <= 4;
    assert g in s.own && m[g] == s.mem[g];
    hide StepOwned, Present, FrameOf;
  }

  /** Taking a free run leaves the space's frames its own and the run spare. */
  lemma RunIsSpare(s: Machine, all: map<nat, Node>, root: nat, a: nat, n: nat)
    requires MachineOk(s) && Held(s, all, root) && 0 < a && a + n <= LOW_FRAMES && a + n <= s.frames.total
    requires FreeRun(s.frames.free, a, n)
    ensures var t := s.(frames := TakeRun(s.frames, a, n));
            Held(t, all, root) && forall f: nat :: a <= f < a + n ==> Spare(t, all, f)
  {
    hide Linked, LinkedFrom, StepOwned;
  }

  /** From `s` to `t` the space got free frames, some more were lost, and those are
      the frames no longer free. */
  ghost predicate Took(s: Machine, all: map<nat, Node>, t: Machine, all': map<nat, Node>, lost: set<nat>) {
    && (forall f :: f in all ==> f in all' && all'[f] == all[f])
    && (forall f: nat :: f in s.frames.free <==> f in t.frames.free || (f in all' && f !in all) || f in lost)
    && (forall f: nat :: f in lost ==> f !in t.frames.free && f !in all')
  }

  lemma TakenThenMapped(s: Machine, all: map<nat, Node>, a: nat, m: nat, n: nat, t: Machine, all': map<nat, Node>)
    requires FreeRun(s.frames.free, a, n) && m <= n && forall f: nat :: a <= f < a + n ==> f !in all
    requires Grew(s.(frames := TakeRun(s.frames, a, n)), all, t, all', a, a + m)
    ensures Took(s, all, t, all', RunFrames(a + m, n - m))
  {
    hide RunFrames;
  }

  lemma TookNothing(s: Machine, all: map<nat, Node>)
    ensures Took(s, all, s, all, {})
  {
  }

  lemma TookTwice(s: Machine, a: map<nat, Node>, t: Machine, b: map<nat, Node>, u: Machine, c: map<nat, Node>,
                  lost: set<nat>)
    requires Took(s, a, t, b, {}) && Took(t, b, u, c, lost)
    ensures Took(s, a, u, c, lost)
  {
  }

  /** The frames a pass loses when the mapping breaks off: those of the run found
      that are not mapped yet. */
  function LostIn(s: Machine, root: nat, g: Segment): (r: set<nat>)
    requires MachineOk(s) && IsSpace(s, root)
  {
    if !InUserRegion(g) || AnyMapped(s.mem, root, g, PageCount(g)) || LowRun(s.frames, PageCount(g)).None? then {}
    else
      var n, a := PageCount(g), LowRun(s.frames, PageCount(g)).value;
      LowRunOk(s, n);
      RunTakenOk(s, a, n);
      var m := MapCount(s.(frames := TakeRun(s.frames, a, n)), root, g, a, n);
      RunFrames(a + m, n - m)
  }

  /** How a pass can end, and what it loses. */
  lemma PassCases(s: Machine, root: nat, b: Blob, g: Segment)
    requires MachineOk(s) && IsSpace(s, root) && Sound(g, |b|)
    ensures var (t, rc, _) := LoadSegment(s, root, b, g);
            || (t == s && rc != OK && LostIn(s, root, g) == {})
            || (InUserRegion(g) && !Empty(g) && LowRun(s.frames, PageCount(g)).Some?
                && !AnyMapped(s.mem, root, g, PageCount(g)) && (rc == OK <==> Mapped(s, root, g).1)
                && (rc != OK ==> t == Mapped(s, root, g).0))
  {
    hide LowRun, PageCount, MachineOk, Mapped, Filled, Empty, MapCount, RunFrames, AnyMapped, Sound, InUserRegion;
    hide TakeRun;
    if InUserRegion(g) && LowRun(s.frames, PageCount(g)).Some? {
      LowRunOk(s, PageCount(g));
      SegmentFits(g, LowRun(s.frames, PageCount(g)).value);
    }
  }

  /** A pass that succeeds loses nothing. */
  lemma LostIs(s: Machine, root: nat, g: Segment)
    requires MachineOk(s) && IsSpace(s, root) && InUserRegion(g) && LowRun(s.frames, PageCount(g)).Some?
    requires !AnyMapped(s.mem, root, g, PageCount(g))
    ensures var n, a := PageCount(g), LowRun(s.frames, PageCount(g)).value;
            var s1 := s.(frames := TakeRun(s.frames, a, n));
            && MachineOk(s1) && IsSpace(s1, root)
            && LostIn(s, root, g) == RunFrames(a + MapCount(s1, root, g, a, n), n - MapCount(s1, root, g, a, n))
            && (Mapped(s, root, g).1 ==> LostIn(s, root, g) == {})
  {
    hide PageCount, LowRun, MapRun, MachineOk, TakeRun, AnyMapped;
    MappedIsRun(s, root, g);
  }

  /** A pass, complete or broken off, leaves the space what it took but for the
      frames lost. */
  lemma SegmentHeld(s: Machine, all: map<nat, Node>, root: nat, b: Blob, g: Segment) returns (all': map<nat, Node>)
    requires MachineOk(s) && IsSpace(s, root) && Held(s, all, root) && Sound(g, |b|)
    ensures var t := LoadSegment(s, root, b, g).0; Held(t, all', root) && Took(s, all, t, all', LostIn(s, root, g))
  {
    hide MachineOk, Held, Took, LoadSegment, Mapped, LowRun, PageCount, InUserRegion, Empty, Sound, AnyMapped, LostIn;
    hide Filled, MemoryOk;
    PassCases(s, root, b, g);
    var (t, rc, _) := LoadSegment(s, root, b, g);
    TookNothing(s, all);
    all' := all;
    if t != s || rc == OK || LostIn(s, root, g) != {} {
      all' := MappedHeld(s, all, root, g);
      if rc == OK {
        LoadSegmentPhases(s, root, b, g);
        var u := Mapped(s, root, g).0;
        DataWriteHeld(u, t.mem, all', root);
        SameFrames(s, all, u, all', t, LostIn(s, root, g));
      }
    }
  }

  lemma MappedHeld(s: Machine, all: map<nat, Node>, root: nat, g: Segment) returns (all': map<nat, Node>)
    requires MachineOk(s) && IsSpace(s, root) && Held(s, all, root) && InUserRegion(g) && !Empty(g)
    requires LowRun(s.frames, PageCount(g)).Some? && !AnyMapped(s.mem, root, g, PageCount(g))
    ensures var u := Mapped(s, root, g).0; Held(u, all', root) && Took(s, all, u, all', LostIn(s, root, g))
  {
    hide MachineOk, Held, Grew, Took, Mapped, MapRun, LowRun, PageCount, TakeRun, FreeRun, Spare, Leaf, SegPage;
    hide Present, InUserRegion, Empty, AnyMapped, LostIn, RunFrames, MapCount;
    var n, a := PageCount(g), LowRun(s.frames, PageCount(g)).value;
    LowRunOk(s, n);
    RunTakenOk(s, a, n);
    RunIsSpare(s, all, root, a, n);
    var s1 := s.(frames := TakeRun(s.frames, a, n));
    forall p: nat | p < n ensures !Present(Leaf(s1.mem, root, SegPage(g, p))) {
      NotMapped(s, root, g, n, p);
    }
    all' := MapRunHeld(s1, all, root, g, a, n);
    MappedIsRun(s, root, g);
    LostIs(s, root, g);
    forall f: nat | a <= f < a + n ensures f !in all {
      SpareInUse(s1, all, f);
    }
    TakenThenMapped(s, all, a, MapCount(s1, root, g, a, n), n, Mapped(s, root, g).0, all');
  }

  lemma SameFrames(s: Machine, all: map<nat, Node>, u: Machine, all': map<nat, Node>, t: Machine, lost: set<nat>)
    requires Took(s, all, u, all', lost) && t.frames == u.frames
    ensures Took(s, all, t, all', lost)
  {
  }

  lemma MappedIsRun(s: Machine, root: nat, g: Segment)
    requires MachineOk(s) && IsSpace(s, root) && InUserRegion(g) && LowRun(s.frames, PageCount(g)).Some?
    ensures var a := LowRun(s.frames, PageCount(g)).value;
            var s1 := s.(frames := TakeRun(s.frames, a, PageCount(g)));
            MachineOk(s1) && IsSpace(s1, root) && Mapped(s, root, g) == MapRun(s1, root, g, a, PageCount(g))
  {
    hide PageCount, LowRun, MapRun, MachineOk, TakeRun;
    LowRunOk(s, PageCount(g));
    RunTakenOk(s, LowRun(s.frames, PageCount(g)).value, PageCount(g));
  }

  /** The frames lost by the segment loop up to segment `n`. */
  ghost function Lost(s: Machine, root: nat, b: Blob, segs: seq<Segment>, n: nat): (r: set<nat>)
    requires MachineOk(s) && IsSpace(s, root) && AllSound(b, segs) && n <= |segs|
    ensures LoadUpTo(s, root, b, segs, n).1 == OK ==> r == {}
  {
    if n == 0 then {}
    else
      var (t, rc, _) := LoadUpTo(s, root, b, segs, n - 1);
      if rc != OK then Lost(s, root, b, segs, n - 1)
      else
        OkLosesNothing(t, root, b, segs[n - 1]);
        LostIn(t, root, segs[n - 1])
  }

  lemma OkLosesNothing(s: Machine, root: nat, b: Blob, g: Segment)
    requires MachineOk(s) && IsSpace(s, root) && Sound(g, |b|)
    ensures LoadSegment(s, root, b, g).1 == OK ==> LostIn(s, root, g) == {}
  {
    hide MachineOk, LoadSegment, LowRun, PageCount, InUserRegion, Empty, AnyMapped, LostIn, Mapped;
    PassCases(s, root, b, g);
    if LoadSegment(s, root, b, g).1 == OK {
      LostIs(s, root, g);
    }
  }

  /** A load, complete or broken off, leaves the space what it took but for the
      frames lost. */
  lemma {:induction false} LoadHeld(s: Machine, all: map<nat, Node>, root: nat, b: Blob, segs: seq<Segment>, n: nat)
    returns (all': map<nat, Node>)
    requires MachineOk(s) && IsSpace(s, root) && Held(s, all, root) && AllSound(b, segs) && n <= |segs|
    ensures var t := LoadUpTo(s, root, b, segs, n).0;
            Held(t, all', root) && Took(s, all, t, all', Lost(s, root, b, segs, n))
  {
    hide MachineOk, Held, Took, LoadSegment, LostIn, Sound;
    all' := all;
    if n == 0 {
      TookNothing(s, all);
    } else {
      all' := LoadHeld(s, all, root, b, segs, n - 1);
      var (t, rc, _) := LoadUpTo(s, root, b, segs, n - 1);
      if rc == OK {
        var all1, g := all', segs[n - 1];
        all' := SegmentHeld(t, all1, root, b, g);
        TookTwice(s, all, t, all1, LoadSegment(t, root, b, g).0, all', LostIn(t, root, g));
      }
    }
  }

  // --------------------------------------------------------------- teardown

  /** Every frame of the space but a PDPT is freed by its destruction. */
  lemma HeldIsFreed(s: Machine, all: map<nat, Node>, root: nat, f: nat)
    requires MachineOk(s) && IsSpace(s, root) && Held(s, all, root) && f in all && Depth(all[f]) != 1
    ensures f in Freed(s.mem, root)
  {
    hide MachineOk, FramesOwned, LinkedFrom, FreedFrom, FreedSlots;
    var m := s.mem;
    HeldPlace(s, all, root, f);
    if all[f].Root? {
      RootFreed(m, root, 1);
    } else {
      var g :| LinkedFrom(m, all, g, f);
      LinkFacts(s, all, root, g, f);
      if Depth(all[g]) == 1 {
        FreedUnderPdpt(s, all, root, g, f);
      } else {
        var h :| LinkedFrom(m, all, h, g);
        LinkFacts(s, all, root, h, g);
        if Depth(all[h]) == 1 {
          FreedBelowTable(s, all, root, g, f, 1);
          FreedComplete(m, h, 2, 0, all[g].idx, f);
          PdptSlot(s, all, root, h, f);
        } else {
          var k :| LinkedFrom(m, all, k, h);
          LinkFacts(s, all, root, k, h);
          FreedBelowTable(s, all, root, g, f, 0);
          FreedComplete(m, h, 1, 0, all[g].idx, f);
          FreedComplete(m, k, 2, 0, all[h].idx, f);
          PdptSlot(s, all, root, k, f);
        }
      }
    }
  }

  lemma HeldPlace(s: Machine, all: map<nat, Node>, root: nat, f: nat)
    requires MachineOk(s) && FramesOwned(s, all, root) && f in all
    ensures Depth(all[f]) <= 4 && f % TWO32 == f && (all[f].Root? ==> f == root)
  {
  }

  lemma LinkFacts(s: Machine, all: map<nat, Node>, root: nat, g: nat, f: nat)
    requires MachineOk(s) && FramesOwned(s, all, root) && LinkedFrom(s.mem, all, g, f)
    ensures f in all && g in all && Depth(all[f]) == Depth(all[g]) + 1 <= 4 && f % TWO32 == f && all[f].idx < ENTRIES
    ensures Present(Entry(s.mem, g, all[f].idx)) && FrameOf(Entry(s.mem, g, all[f].idx)) == f
    ensures Depth(all[g]) < 3 ==> !Huge(Entry(s.mem, g, all[f].idx))
    ensures Depth(all[g]) == 0 ==> g == root && 1 <= all[f].idx < 256
    ensures Depth(all[g]) > 0 ==> all[g].Child?
  {
    HeldPlace(s, all, root, g);
    HeldPlace(s, all, root, f);
    assert StepOwned(s.mem, all, g, all[f].idx);
    hide MachineOk, Present, FrameOf, Entry, Huge;
  }

  /** A table or leaf frame is freed from the table it hangs on. */
  lemma FreedBelowTable(s: Machine, all: map<nat, Node>, root: nat, g: nat, f: nat, level: nat)
    requires MachineOk(s) && FramesOwned(s, all, root) && LinkedFrom(s.mem, all, g, f)
    ensures f in FreedFrom(s.mem, g, level, 0)
  {
    hide MachineOk, FramesOwned, LinkedFrom, FreedFrom, Present, Entry, FrameOf;
    LinkFacts(s, all, root, g, f);
    FreedComplete(s.mem, g, level, 0, all[f].idx, 0);
  }

  /** What is freed below a PDPT is freed by the destruction. */
  lemma PdptSlot(s: Machine, all: map<nat, Node>, root: nat, h: nat, x: nat)
    requires MachineOk(s) && IsSpace(s, root) && Held(s, all, root) && h in all && Depth(all[h]) == 1
    requires x in FreedFrom(s.mem, h, 2, 0)
    ensures x in Freed(s.mem, root)
  {
    hide MachineOk, FramesOwned, LinkedFrom, FreedFrom, FreedSlots, Present, Entry, FrameOf;
    assert all[h].Child?;
    var g :| LinkedFrom(s.mem, all, g, h);
    LinkFacts(s, all, root, g, h);
    SlotsComplete(s.mem, root, 1, all[h].idx, x);
  }

  lemma FreedUnderPdpt(s: Machine, all: map<nat, Node>, root: nat, g: nat, f: nat)
    requires MachineOk(s) && IsSpace(s, root) && Held(s, all, root) && LinkedFrom(s.mem, all, g, f)
    requires g in all && Depth(all[g]) == 1
    ensures f in Freed(s.mem, root)
  {
    hide MachineOk, FramesOwned, LinkedFrom, FreedFrom, FreedSlots;
    FreedBelowTable(s, all, root, g, f, 2);
    PdptSlot(s, all, root, g, f);
  }

  /** The PDPT frames of a space. */
  ghost function Pdpts(s: Machine, root: nat): set<nat> {
    set f | f in s.own && RootId(s.own[f]) == root && Depth(s.own[f]) == 1
  }

  /** Destroying gives back exactly the space's frames, but for its PDPTs. */
  lemma DestroyHeld(s: Machine, all: map<nat, Node>, root: nat, f: nat)
    requires MachineOk(s) && IsSpace(s, root) && Held(s, all, root)
    ensures f in ReleaseAll(s.frames, Freed(s.mem, root)).free
            <==> f in s.frames.free || (f in all && f !in Pdpts(s, root))
    ensures f in Pdpts(s, root) ==> f in all
  {
    hide MachineOk, ReleaseAll, Freed, LinkedFrom;
    DestroyReleases(s, all, root);
    PdptsListed(s, all, root, f);
    IdsOf(Freed(s.mem, root), f);
    if f in all && Depth(all[f]) != 1 {
      HeldIsFreed(s, all, root, f);
    }
  }

  lemma IdsOf(q: seq<nat>, f: nat)
    ensures f in Ids(q) <==> f in q
  {
  }

  lemma PdptsListed(s: Machine, all: map<nat, Node>, root: nat, f: nat)
    requires FramesOwned(s, all, root)
    ensures f in Pdpts(s, root) <==> f in all && Depth(all[f]) == 1
  {
    hide StepOwned;
  }

  /** A new space holds its PML4 and nothing else. */
  lemma CreatedHeld(s: Machine, kernelRoot: nat, root: nat)
    requires MachineOk(s) && OwnersLive(s) && kernelRoot !in s.frames.free &&
             CreateSpace(s, kernelRoot, true).1 == Some(root)
    ensures var t := CreateSpace(s, kernelRoot, true).0;
            && MachineOk(t) && IsSpace(t, root) && Held(t, map[root := Root(root)], root)
            && root in s.frames.free && t.frames.free == s.frames.free - {root}
  {
    CreateKeeps(s, kernelRoot, true, root, VPage(1, 0, 0, 0));
    LowFrameFacts(s);
    var t := CreateSpace(s, kernelRoot, true).0;
    assert forall i :: 1 <= i < 256 ==> Entry(t.mem, root, i) == 0;
    hide Leaf, Choice, KernelView, MachineOk;
    assert !Present(0) && !Huge(0);
    hide Entry;
  }

  /** The frames a load loses; none when it succeeds or the file is refused. */
  ghost function LostByLoad(s: Machine, root: nat, b: Blob): (r: set<nat>)
    requires MachineOk(s) && IsSpace(s, root) && Safe(b)
    ensures LoadFile(s, root, b).1 == OK ==> r == {}
  {
    if Parse(b).Err? then {}
    else
      ParseSound(b);
      Lost(s, root, b, Parse(b).value.segs, |Parse(b).value.segs|)
  }

  lemma FileHeld(s: Machine, all: map<nat, Node>, root: nat, b: Blob) returns (all': map<nat, Node>)
    requires MachineOk(s) && IsSpace(s, root) && Held(s, all, root) && Safe(b)
    ensures var t := LoadFile(s, root, b).0; Held(t, all', root) && Took(s, all, t, all', LostByLoad(s, root, b))
  {
    hide MachineOk, Held, Took, AllSizesFit, Parse, LoadUpTo, Lost, Sound;
    if Parse(b).Err? {
      TookNothing(s, all);
      all' := all;
    } else {
      ParseSound(b);
      all' := LoadHeld(s, all, root, b, Parse(b).value.segs, |Parse(b).value.segs|);
    }
  }

  /** Create a space, load a program into it, destroy it: every frame is free again
      that was free before, except the PDPT frames, which are never given back, and,
      when the load was broken off while mapping, the frames it lost. */
  lemma LoadThenDestroy(s: Machine, kernelRoot: nat, root: nat, b: Blob)
    requires MachineOk(s) && OwnersLive(s) && kernelRoot !in s.frames.free
    requires CreateSpace(s, kernelRoot, true).1 == Some(root) && Safe(b)
    requires var t := CreateSpace(s, kernelRoot, true).0; MachineOk(t) && IsSpace(t, root)
    ensures var t := CreateSpace(s, kernelRoot, true).0;
            var u := LoadFile(t, root, b).0;
            && ReleaseAll(u.frames, Freed(u.mem, root)).free == s.frames.free - Pdpts(u, root) - LostByLoad(t, root, b)
            && (LoadFile(t, root, b).1 == OK ==> LostByLoad(t, root, b) == {})
  {
    hide MachineOk, OwnersLive, CreateSpace, Safe, Held, ReleaseAll, Freed, Pdpts, LoadFile, LostByLoad;
    CreatedHeld(s, kernelRoot, root);
    var t, one := CreateSpace(s, kernelRoot, true).0, map[root := Root(root)];
    var u := LoadFile(t, root, b).0;
    var all := FileHeld(t, one, root, b);
    forall f: nat
      ensures f in ReleaseAll(u.frames, Freed(u.mem, root)).free
         <==> f in s.frames.free - Pdpts(u, root) - LostByLoad(t, root, b)
    {
      DestroyHeld(u, all, root, f);
      NotFreeTwice(u, all, root, f);
    }
  }

  lemma NotFreeTwice(s: Machine, all: map<nat, Node>, root: nat, f: nat)
    requires Held(s, all, root)
    ensures f in all ==> f !in s.frames.free
  {
    hide StepOwned, LinkedFrom;
  }
}
