/**
  What `vmm_aspace_destroy` gives back. The code walks the tables and frees
  what it passes; here the sequence of frames it frees is written down and
  proved free of repetitions, complete, and confined to the space.
*/
module Teardown {
  import opened Finite
  import opened Words
  import opened Frames
  import opened Paging

  /** Frames `free_table(table, level)` passes to `tpmm_free` from slot `i` on,
      in order. `tpmm_free` truncates the frame number to 32 bits. */
  function FreedFrom(m: Memory, table: nat, level: nat, i: nat): (r: seq<nat>)
    decreases level, ENTRIES - i
  {
    if i >= ENTRIES then []
    else
      var e := Entry(m, table, i);
      if !Present(e) then FreedFrom(m, table, level, i + 1)
      else
        (if level > 0 && !Huge(e) then FreedFrom(m, FrameOf(e), level - 1, 0) else [])
        + [FrameOf(e) % TWO32]
        + FreedFrom(m, table, level, i + 1)
  }

  /** Frames freed for one slot of a table. */
  function FreedSlot(m: Memory, table: nat, level: nat, i: nat): (r: seq<nat>) {
    var e := Entry(m, table, i);
    if !Present(e) then [] else FreedBelow(m, e, level) + [FrameOf(e) % TWO32]
  }

  /** Frames below entry `e` of a table at this level. */
  function FreedBelow(m: Memory, e: nat, level: nat): (r: seq<nat>) {
    if level > 0 && !Huge(e) then FreedFrom(m, FrameOf(e), level - 1, 0) else []
  }

  lemma FreedEnd(m: Memory, table: nat, level: nat)
    ensures FreedFrom(m, table, level, ENTRIES) == []
  {
  }

  lemma FreedUnfold(m: Memory, table: nat, level: nat, i: nat)
    requires i < ENTRIES
    ensures FreedFrom(m, table, level, i) == FreedSlot(m, table, level, i) + FreedFrom(m, table, level, i + 1)
  {
    hide Present, FrameOf, Entry, Huge;
  }

  /** Frames freed by `vmm_aspace_destroy` from PML4 slot `i` on. */
  function FreedSlots(m: Memory, root: nat, i: nat): (r: seq<nat>)
    decreases 256 - i
  {
    if i >= 256 then [root % TWO32]
    else if Present(Entry(m, root, i)) then FreedFrom(m, FrameOf(Entry(m, root, i)), 2, 0) + FreedSlots(m, root, i + 1)
    else FreedSlots(m, root, i + 1)
  }

  /** What root slot `i` contributes. */
  function RootSlot(m: Memory, root: nat, i: nat): (r: seq<nat>) {
    if Present(Entry(m, root, i)) then FreedFrom(m, FrameOf(Entry(m, root, i)), 2, 0) else []
  }

  lemma SlotsUnfold(m: Memory, root: nat, i: nat)
    ensures FreedSlots(m, root, i)
         == if i >= 256 then [root % TWO32] else RootSlot(m, root, i) + FreedSlots(m, root, i + 1)
  {
    hide Present, FrameOf, Entry, FreedFrom;
  }

  function Freed(m: Memory, root: nat): (r: seq<nat>) {
    FreedSlots(m, root, 1)
  }

  /** The frame map after freeing a sequence of frames. */
  function ReleaseAll(v: FrameMap, fs: seq<nat>): (r: FrameMap) {
    if fs == [] then v else Release(ReleaseAll(v, fs[..|fs| - 1]), fs[|fs| - 1])
  }

  /** `all` lists the frames of one space, its tables and its leaf frames: every
      present entry under a user slot leads to a frame of its own that is in use.
      Leaf frames of other spaces do not matter. */
  ghost predicate FramesOwned(s: Machine, all: map<nat, Node>, root: nat) {
    && (forall f :: f in s.own && RootId(s.own[f]) == root ==> f in all && all[f] == s.own[f])
    && (forall f :: f in all ==>
          0 < f < s.frames.total && f !in s.frames.free && Depth(all[f]) <= 4 && RootId(all[f]) == root)
    && (forall f :: f in all ==> if Depth(all[f]) <= 3 then f in s.own && s.own[f] == all[f] else f !in s.own)
    && (forall f, i :: f in all && Depth(all[f]) < 4 && UserSlot(all[f], i) ==> StepOwned(s.mem, all, f, i))
  }

  ghost predicate StepOwned(m: Memory, all: map<nat, Node>, f: nat, i: nat)
    requires f in all
  {
    var e := Entry(m, f, i);
    && (Present(e) ==> FrameOf(e) in all && all[FrameOf(e)] == Child(all[f], i))
    && (Depth(all[f]) < 3 ==> !Huge(e))
  }

  /** Slot of `t` through which the path from `n` up passes; -1 if it does not. */
  function Through(n: Node, t: Node): (j: int) {
    if n.Root? then -1 else if n.parent == t then n.idx else Through(n.parent, t)
  }

  lemma {:induction false} ThroughDeeper(n: Node, t: Node)
    ensures Through(n, t) >= 0 ==> Depth(t) < Depth(n)
  {
    if n.Child? && n.parent != t {
      ThroughDeeper(n.parent, t);
    }
  }

  /** A path through a child passes through that child's slot of the parent. */
  lemma {:induction false} ThroughChild(n: Node, t: Node, i: nat)
    requires Through(n, Child(t, i)) >= 0
    ensures Through(n, t) == i && n != Child(t, i)
  {
    ThroughDeeper(n, Child(t, i));
    if n.parent != Child(t, i) {
      ThroughChild(n.parent, t, i);
      ThroughDeeper(n.parent, Child(t, i));
    } else {
      assert Through(n.parent, t) == i;
    }
  }

  // ------------------------------------------------ what is freed, and once

  lemma OwnedStep(s: Machine, all: map<nat, Node>, root: nat, t: nat, i: nat)
    requires FramesOwned(s, all, root) && t in all && 1 <= Depth(all[t]) < 4 && i < ENTRIES
    ensures var e := Entry(s.mem, t, i);
            Present(e) ==>
              && FrameOf(e) in all && all[FrameOf(e)] == Child(all[t], i) && FrameOf(e) % TWO32 == FrameOf(e)
              && (Depth(all[t]) < 3 ==> !Huge(e))
    requires WellFormed(s.frames)
  {
    assert StepOwned(s.mem, all, t, i);
  }

  /** Everything freed from slot `i` of a table on hangs below that table, in
      slot `i` or later. */
  lemma {:induction false} FreedHangs(s: Machine, all: map<nat, Node>, root: nat, t: nat, level: nat, i: nat, x: nat)
    requires FramesOwned(s, all, root) && WellFormed(s.frames) && t in all && Depth(all[t]) + level == 3 && level <= 2
    requires x in FreedFrom(s.mem, t, level, i)
    ensures x in all && Through(all[x], all[t]) >= i
    decreases level, ENTRIES - i
  {
    hide FramesOwned, Present, Huge, FrameOf, Entry;
    if i < ENTRIES {
      OwnedStep(s, all, root, t, i);
      var e := Entry(s.mem, t, i);
      if x in FreedFrom(s.mem, t, level, i + 1) {
        FreedHangs(s, all, root, t, level, i + 1, x);
      } else if level > 0 && x in FreedFrom(s.mem, FrameOf(e), level - 1, 0) {
        FreedHangs(s, all, root, FrameOf(e), level - 1, 0, x);
        ThroughChild(all[x], all[t], i);
      }
    }
  }

  lemma {:induction false} FreedNoDup(s: Machine, all: map<nat, Node>, root: nat, t: nat, level: nat, i: nat)
    requires FramesOwned(s, all, root) && WellFormed(s.frames) && t in all && Depth(all[t]) + level == 3 && level <= 2
    ensures NoDup(FreedFrom(s.mem, t, level, i))
    decreases level, ENTRIES - i
  {
    hide FramesOwned, Present, Huge, FrameOf, Entry;
    if i < ENTRIES {
      FreedNoDup(s, all, root, t, level, i + 1);
      OwnedStep(s, all, root, t, i);
      var e := Entry(s.mem, t, i);
      var rest := FreedFrom(s.mem, t, level, i + 1);
      if Present(e) {
        var c := FrameOf(e);
        var sub := if level > 0 && !Huge(e) then FreedFrom(s.mem, c, level - 1, 0) else [];
        if level > 0 && !Huge(e) {
          FreedNoDup(s, all, root, c, level - 1, 0);
        }
        forall x | x in sub ensures x in all && Through(all[x], all[t]) == i && x != c {
          FreedHangs(s, all, root, c, level - 1, 0, x);
          ThroughChild(all[x], all[t], i);
        }
        forall x | x in rest ensures x in all && Through(all[x], all[t]) > i {
          FreedHangs(s, all, root, t, level, i + 1, x);
        }
        assert Through(all[c], all[t]) == i;
        NoDupConcat(sub, [c]);
        NoDupConcat(sub + [c], rest);
      }
    }
  }

  /** What is freed from PML4 slot `i` on is the PML4 itself or lies at least
      two levels below it, in slot `i` or later. */
  lemma {:induction false} SlotsHang(s: Machine, all: map<nat, Node>, root: nat, i: nat, x: nat)
    requires FramesOwned(s, all, root) && WellFormed(s.frames) && root in all && all[root] == Root(root) &&
             1 <= i <= 256
    requires x in FreedSlots(s.mem, root, i)
    ensures x == root || (x in all && Through(all[x], Root(root)) >= i && Depth(all[x]) >= 2)
    decreases 256 - i
  {
    assert i < 256 ==> StepOwned(s.mem, all, root, i);
    hide FramesOwned, Present, FrameOf, Entry, FreedFrom;
    if i < 256 {
      var e := Entry(s.mem, root, i);
      if x in FreedSlots(s.mem, root, i + 1) {
        SlotsHang(s, all, root, i + 1, x);
      } else {
        FreedHangs(s, all, root, FrameOf(e), 2, 0, x);
        ThroughChild(all[x], Root(root), i);
        ThroughDeeper(all[x], Child(Root(root), i));
      }
    }
  }

  lemma {:induction false} SlotsNoDup(s: Machine, all: map<nat, Node>, root: nat, i: nat)
    requires FramesOwned(s, all, root) && WellFormed(s.frames) && root in all && all[root] == Root(root) &&
             1 <= i <= 256
    ensures NoDup(FreedSlots(s.mem, root, i))
    decreases 256 - i
  {
    assert i < 256 ==> StepOwned(s.mem, all, root, i);
    hide FramesOwned, Present, FrameOf, Entry, FreedFrom, NoDup;
    if i < 256 {
      SlotsNoDup(s, all, root, i + 1);
      var e := Entry(s.mem, root, i);
      if Present(e) {
        var sub, rest := FreedFrom(s.mem, FrameOf(e), 2, 0), FreedSlots(s.mem, root, i + 1);
        FreedNoDup(s, all, root, FrameOf(e), 2, 0);
        forall x | x in sub ensures x !in rest {
          FreedHangs(s, all, root, FrameOf(e), 2, 0, x);
          ThroughChild(all[x], Root(root), i);
          if x in rest {
            SlotsHang(s, all, root, i + 1, x);
          }
        }
        NoDupConcat(sub, rest);
      }
    } else {
      SingletonNoDup(root % TWO32);
    }
  }

  lemma SingletonNoDup(x: nat)
    ensures NoDup([x])
  {
  }

  lemma NoIds()
    ensures Ids([]) == {}
  {
  }

  lemma LastId(a: seq<nat>, x: nat)
    requires NoDup(a + [x])
    ensures NoDup(a) && x in a + [x] && Ids(a + [x]) == Ids(a) + {x} && x !in Ids(a)
    ensures forall f :: f in a ==> f in a + [x]
    ensures forall f :: f in Ids(a) <==> f in a
  {
    assert (a + [x])[|a|] == x;
    assert forall i :: 0 <= i < |a| ==> (a + [x])[i] == a[i];
  }

  /** Freeing distinct frames in use frees exactly those frames. */
  lemma {:induction false} ReleaseAllExact(v: FrameMap, fs: seq<nat>)
    requires NoDup(fs) && forall f :: f in fs ==> f < v.total && f !in v.free
    ensures var r := ReleaseAll(v, fs);
            r.free == v.free + Ids(fs) && |r.free| == |v.free| + |fs| && r.total == v.total
  {
    hide NoDup, Ids;
    if fs == [] {
      NoIds();
    } else {
      var n := |fs| - 1;
      var a, x := fs[..n], fs[n];
      assert fs == a + [x];
      LastId(a, x);
      ReleaseAllExact(v, a);
      assert x !in ReleaseAll(v, a).free;
      assert v.free + (Ids(a) + {x}) == (v.free + Ids(a)) + {x};
    }
  }

  /** Every entry from slot `i` on is freed, with everything below it. */
  lemma {:induction false} FreedComplete(m: Memory, t: nat, level: nat, i: nat, j: nat, x: nat)
    requires i <= j < ENTRIES && Present(Entry(m, t, j))
    ensures FrameOf(Entry(m, t, j)) % TWO32 in FreedFrom(m, t, level, i)
    ensures level > 0 && !Huge(Entry(m, t, j)) && x in FreedFrom(m, FrameOf(Entry(m, t, j)), level - 1, 0) ==>
              x in FreedFrom(m, t, level, i)
    decreases j - i
  {
    hide Present, FrameOf, Entry, Huge;
    if i < j {
      FreedComplete(m, t, level, i + 1, j, x);
    }
  }

  lemma {:induction false} SlotsComplete(m: Memory, root: nat, i: nat, j: nat, x: nat)
    requires i <= j < 256 && Present(Entry(m, root, j)) && x in FreedFrom(m, FrameOf(Entry(m, root, j)), 2, 0)
    ensures x in FreedSlots(m, root, i)
    decreases j - i
  {
    hide Present, FrameOf, Entry, FreedFrom;
    if i < j {
      SlotsComplete(m, root, i + 1, j, x);
    }
  }

  lemma {:induction false} RootFreed(m: Memory, root: nat, i: nat)
    ensures root % TWO32 in FreedSlots(m, root, i)
    decreases 256 - i
  {
    hide Present, FrameOf, Entry, FreedFrom;
    if i < 256 {
      RootFreed(m, root, i + 1);
    }
  }

  lemma {:induction false} ThroughRoot(n: Node, id: nat)
    requires Through(n, Root(id)) >= 0
    ensures RootId(n) == id
  {
    if n.parent != Root(id) {
      ThroughRoot(n.parent, id);
    }
  }

  // ---------------------------------------------------------------- theorem

  /** `vmm_aspace_destroy` on a space whose leaf frames are its own frees a
      sequence of distinct frames in use, so the number of free frames grows by
      exactly its length; all of them belong to this space, and none of them is
      a PDPT frame: those are never given back. */
  lemma DestroyReleases(s: Machine, all: map<nat, Node>, root: nat)
    requires MachineOk(s) && IsSpace(s, root) && FramesOwned(s, all, root)
    ensures var fs := Freed(s.mem, root);
            var v := ReleaseAll(s.frames, fs);
            && NoDup(fs) && root in fs
            && v.free == s.frames.free + Ids(fs) && |v.free| == |s.frames.free| + |fs|
            && (forall x :: x in fs ==> x in all && RootId(all[x]) == root && Depth(all[x]) != 1)
  {
    var fs := Freed(s.mem, root);
    assert all[root] == Root(root);
    SlotsNoDup(s, all, root, 1);
    RootFreed(s.mem, root, 1);
    forall x | x in fs ensures x in all && RootId(all[x]) == root && Depth(all[x]) != 1 {
      SlotsHang(s, all, root, 1, x);
      if x != root {
        ThroughRoot(all[x], root);
      }
    }
    assert root % TWO32 == root;
    forall x | x in fs ensures x < s.frames.total && x !in s.frames.free {
    }
    hide MachineOk, FramesOwned, NoDup, Freed;
    ReleaseAllExact(s.frames, fs);
  }

  /** Nothing of another space is freed: no table of it ever, and a leaf frame only
      if this space holds it too. */
  lemma DestroySparesOthers(s: Machine, all: map<nat, Node>, root: nat, r: nat, q: VPage)
    requires MachineOk(s) && IsSpace(s, root) && FramesOwned(s, all, root) && IsSpace(s, r) && r != root && UserPage(q)
    ensures forall f :: f in s.own && RootId(s.own[f]) != root ==> f !in Freed(s.mem, root)
    ensures var e := Leaf(s.mem, r, q); Present(e) && FrameOf(e) in Freed(s.mem, root) ==> FrameOf(e) in all
  {
    DestroyReleases(s, all, root);
    hide Freed, ReleaseAll, Leaf, Present, FrameOf, MachineOk;
  }

  /** Completeness: for every user page the PD, the page table and the leaf frame
      on its walk are among the frames freed. */
  lemma DestroyIsComplete(s: Machine, all: map<nat, Node>, root: nat, q: VPage)
    requires MachineOk(s) && IsSpace(s, root) && FramesOwned(s, all, root) && UserPage(q)
    ensures var a := Lookup(s.mem, root, q.i4);
            var b := Follow(s.mem, a, q.i3);
            var c := Follow(s.mem, b, q.i2);
            && (b.Some? ==> b.value in Freed(s.mem, root))
            && (c.Some? ==> c.value in Freed(s.mem, root))
            && (c.Some? && Present(Entry(s.mem, c.value, q.i1)) ==>
                  FrameOf(Entry(s.mem, c.value, q.i1)) in Freed(s.mem, root))
  {
    assert all[root] == Root(root) && StepOwned(s.mem, all, root, q.i4);
    var m := s.mem;
    hide MachineOk, FramesOwned, Present, FrameOf, Entry, Huge, FreedFrom;
    var a := Lookup(m, root, q.i4);
    if a.Some? {
      assert Depth(all[a.value]) == 1;
      OwnedStep(s, all, root, a.value, q.i3);
      var b := Lookup(m, a.value, q.i3);
      if b.Some? {
        FreedComplete(m, a.value, 2, 0, q.i3, 0);
        SlotsComplete(m, root, 1, q.i4, b.value);
        OwnedStep(s, all, root, b.value, q.i2);
        var c := Lookup(m, b.value, q.i2);
        if c.Some? {
          FreedComplete(m, b.value, 1, 0, q.i2, 0);
          FreedComplete(m, a.value, 2, 0, q.i3, c.value);
          SlotsComplete(m, root, 1, q.i4, c.value);
          OwnedStep(s, all, root, c.value, q.i1);
          if Present(Entry(m, c.value, q.i1)) {
            var x := FrameOf(Entry(m, c.value, q.i1));
            FreedComplete(m, c.value, 0, 0, q.i1, 0);
            FreedComplete(m, b.value, 1, 0, q.i2, x);
            FreedComplete(m, a.value, 2, 0, q.i3, x);
            SlotsComplete(m, root, 1, q.i4, x);
          }
        }
      }
    }
  }

  /** The table owners without those of one space. */
  function Without(own: map<nat, Node>, root: nat): (r: map<nat, Node>) {
    map f | f in own && RootId(own[f]) != root :: own[f]
  }

  /** After teardown the remaining spaces are in order, and translate as before
      since no table was written. */
  lemma DestroyKeeps(s: Machine, all: map<nat, Node>, root: nat)
    requires MachineOk(s) && IsSpace(s, root) && FramesOwned(s, all, root)
    ensures MachineOk(Machine(s.mem, Without(s.own, root), ReleaseAll(s.frames, Freed(s.mem, root))))
    ensures forall r :: IsSpace(s, r) && r != root ==>
              IsSpace(Machine(s.mem, Without(s.own, root), ReleaseAll(s.frames, Freed(s.mem, root))), r)
  {
    DestroyReleases(s, all, root);
    var fs := Freed(s.mem, root);
    var t := Machine(s.mem, Without(s.own, root), ReleaseAll(s.frames, fs));
    ReleaseAllWellFormed(s.frames, fs);
    hide Freed, ReleaseAll, Present, FrameOf, Entry, Huge;
    forall f, i | f in t.own && Depth(t.own[f]) < 3 && UserSlot(t.own[f], i) ensures LinkOk(t, f, i) {
      assert LinkOk(s, f, i);
    }
  }

  lemma {:induction false} ReleaseAllWellFormed(v: FrameMap, fs: seq<nat>)
    requires WellFormed(v)
    ensures WellFormed(ReleaseAll(v, fs))
  {
    if fs != [] {
      ReleaseAllWellFormed(v, fs[..|fs| - 1]);
    }
  }

  lemma ReleaseOneMore(v: FrameMap, fs: seq<nat>, x: nat)
    ensures ReleaseAll(v, fs + [x]) == Release(ReleaseAll(v, fs), x)
    ensures ReleaseAll(v, []) == v
  {
    assert (fs + [x])[..|fs|] == fs;
  }

  lemma {:induction false} ReleaseAllSplit(v: FrameMap, a: seq<nat>, b: seq<nat>)
    ensures ReleaseAll(v, a + b) == ReleaseAll(ReleaseAll(v, a), b)
  {
    if b == [] {
      assert a + b == a;
    } else {
      var n := |b| - 1;
      ReleaseAllSplit(v, a, b[..n]);
      assert (a + b)[..|a + b| - 1] == a + b[..n];
    }
  }
}
