/**
  What every history of `tmalloc` and `tfree` keeps, and the exact requests for
  which the code's 64-bit arithmetic does not keep it.
*/
module HeapSafety {
  import opened Words
  import opened Finite
  import opened Heap

  // ------------------------------------------------------ taking a free block

  lemma FreeIds(st: Store, i: nat)
    requires Layout(st) && i < |st.free|
    ensures var rest := st.free[..i] + st.free[i + 1..];
            NoDup(rest) && forall x :: x in rest <==> x in st.free && x != st.free[i]
  {
    var rest := st.free[..i] + st.free[i + 1..];
    forall x | x in st.free && x != st.free[i] ensures x in rest {
      var j :| 0 <= j < |st.free| && st.free[j] == x;
      assert x == rest[if j < i then j else j - 1];
    }
  }

  lemma TakeWholeLayout(st: Store, i: nat, want: nat)
    requires Layout(st) && i < |st.free| && st.size[st.free[i]] >= want && want % 16 == 0 && want >= 16
    requires st.size[st.free[i]] < want + HEADER + 16
    ensures Layout(TakeFit(st, i, want)) && TakeFit(st, i, want).size == st.size[st.free[i] := want]
  {
    FreeIds(st, i);
    var t := TakeFit(st, i, want);
    assert forall b, c :: b in t.size && c in t.size && b != c && Apart(st, b, c) ==> Apart(t, b, c);
  }

  /** Where the rest of a split block starts, nothing else starts. */
  lemma RestIsNew(st: Store, b: nat, want: nat)
    requires Layout(st) && b in st.size && st.size[b] > want
    ensures b + HEADER + want !in st.size
  {
    hide NoDup, RegionOk;
    assert b + HEADER + want in st.size ==> Apart(st, b, b + HEADER + want);
  }

  lemma SplitApart(st: Store, t: Store, b: nat, want: nat, x: nat, y: nat)
    requires Layout(st) && b in st.size && st.size[b] >= want + HEADER
    requires t.size == st.size[b := want][b + HEADER + want := st.size[b] - want - HEADER]
    requires x in t.size && y in t.size && x != y
    ensures Apart(t, x, y)
  {
    hide NoDup, RegionOk, BlockOk;
    var rest := b + HEADER + want;
    var x', y' := if x == rest then b else x, if y == rest then b else y;
    if x' != y' {
      assert Apart(st, x', y');
    }
  }

  lemma SplitBlocks(st: Store, t: Store, b: nat, want: nat, x: nat)
    requires Layout(st) && b in st.size && st.size[b] >= want + HEADER + 16 && want % 16 == 0 && want >= 16
    requires t.size == st.size[b := want][b + HEADER + want := st.size[b] - want - HEADER] && t.bump == st.bump
    requires x in t.size
    ensures BlockOk(t, x)
  {
    hide NoDup, RegionOk, Apart;
    assert BlockOk(st, b);
    assert x in st.size ==> BlockOk(st, x);
  }

  lemma SplitFree(st: Store, t: Store, i: nat, rest: nat)
    requires NoDup(st.free) && i < |st.free| && rest !in st.free && t.free == st.free[i := rest]
    ensures NoDup(t.free) && forall x :: x in t.free <==> x == rest || (x in st.free && x != st.free[i])
  {
    assert t.free[i] == rest;
    forall x | x in st.free && x != st.free[i] ensures x in t.free {
      var j :| 0 <= j < |st.free| && st.free[j] == x;
      assert t.free[j] == x;
    }
  }

  lemma SplitLayout(st: Store, i: nat, want: nat)
    requires Layout(st) && i < |st.free| && want % 16 == 0 && want >= 16
    requires st.size[st.free[i]] >= want + HEADER + 16
    ensures var b := st.free[i];
            && Layout(TakeFit(st, i, want)) && b + HEADER + want !in st.size
            && TakeFit(st, i, want).size == st.size[b := want][b + HEADER + want := st.size[b] - want - HEADER]
  {
    var t, b := TakeFit(st, i, want), st.free[i];
    var rest := b + HEADER + want;
    assert want + HEADER + 16 < TWO64 by { assert BlockOk(st, b); }
    RestIsNew(st, b, want);
    SplitFree(st, t, i, rest);
    hide NoDup, Apart, BlockOk;
    forall x | x in t.size ensures BlockOk(t, x) {
      SplitBlocks(st, t, b, want, x);
    }
    forall x, y | x in t.size && y in t.size && x != y ensures Apart(t, x, y) {
      SplitApart(st, t, b, want, x, y);
    }
  }

  /** The handed-out sum after one more block, and no counter near its width. */
  lemma OneMoreHeld(st: Store, b: nat, want: nat, m: map<nat, nat>)
    requires StoreOk(st) && b !in st.held && want < 0x4000_0000
    requires st.held + {b} <= m.Keys && m[b] == want && forall x :: x in st.held ==> x in st.size && m[x] == st.size[x]
    ensures Wrap64(st.used + want) == Sum(m, st.held + {b}) && Inc32(st.count) == |st.held + {b}|
  {
    hide Layout, Sum, Extents;
    CountersSmall(st);
    SumTake(m, st.held + {b}, b);
    assert st.held + {b} - {b} == st.held;
    SumSame(m, st.size, st.held);
  }

  lemma WholeExtents(m: map<nat, nat>, b: nat, want: nat)
    requires b in m
    ensures m[b := want].Keys == m.Keys
    ensures Sum(m[b := want], m.Keys) == Sum(m, m.Keys) - m[b] + want
  {
    SumSet(m, m.Keys, b, want);
  }

  lemma SplitExtents(m: map<nat, nat>, b: nat, want: nat)
    requires b in m && m[b] >= want + HEADER && b + HEADER + want !in m
    ensures var n := m[b := want][b + HEADER + want := m[b] - want - HEADER];
            Sum(n, n.Keys) + HEADER * |n.Keys| == Sum(m, m.Keys) + HEADER * |m.Keys|
  {
    hide Sum;
    var rest, h := b + HEADER + want, m[b := want];
    var n := h[rest := m[b] - want - HEADER];
    WholeExtents(m, b, want);
    SumAdd(h, h.Keys, rest, m[b] - want - HEADER);
    assert n.Keys == h.Keys + {rest};
  }

  lemma FreeBlockFacts(st: Store, i: nat)
    requires Layout(st) && i < |st.free|
    ensures var b := st.free[i];
            b in st.size && b !in st.held && st.size[b] < 0x4000_0000 && b + HEADER + st.size[b] < TWO64
    ensures forall x :: x in st.held ==> x in st.size
  {
    assert st.free[i] in st.free;
    assert BlockOk(st, st.free[i]);
  }

  lemma Unwrapped(x: nat)
    requires x < TWO64
    ensures Wrap64(x) == x
  {
  }

  /** `TakeFit` field by field. */
  lemma TakeFitIs(st: Store, i: nat, want: nat)
    requires Layout(st) && i < |st.free| && st.free[i] in st.size && st.size[st.free[i]] >= want
    ensures var t, b := TakeFit(st, i, want), st.free[i];
            && t.held == st.held + {b} && t.used == Wrap64(st.used + want) && t.count == Inc32(st.count)
            && t.bump == st.bump && t.end == st.end && t.top == st.top && t.total == st.total
            && if st.size[b] >= want + HEADER + 16 then
                 && t.free == st.free[i := b + HEADER + want] && t.waste == st.waste
                 && t.size == st.size[b := want][b + HEADER + want := st.size[b] - want - HEADER]
               else
                 && t.free == st.free[..i] + st.free[i + 1..] && t.size == st.size[b := want]
                 && t.waste == st.waste + st.size[b] - want
  {
    FreeBlockFacts(st, i);
    hide Layout;
  }

  lemma TakeFitKeeps(st: Store, i: nat, want: nat)
    requires StoreOk(st) && i < |st.free| && st.free[i] in st.size && st.size[st.free[i]] >= want &&
             want % 16 == 0 && want >= 16
    ensures StoreOk(TakeFit(st, i, want))
  {
    hide Layout, Sum, TakeFit, Wrap64, Inc32;
    FreeBlockFacts(st, i);
    TakeFitIs(st, i, want);
    var t, b := TakeFit(st, i, want), st.free[i];
    if st.size[b] >= want + HEADER + 16 {
      SplitLayout(st, i, want);
      SplitExtents(st.size, b, want);
    } else {
      TakeWholeLayout(st, i, want);
      WholeExtents(st.size, b, want);
    }
    OneMoreHeld(st, b, want, t.size);
  }

  // ------------------------------------------------------- the bump region

  /** The chunk `grow_heap` asks for ends inside the address space. */
  predicate GrowthFits(st: Store, need: nat) { st.top + Pages(need) * PAGE < TWO64 }

  lemma GrowLayout(st: Store, need: nat, grant: bool)
    requires Layout(st) && GrowthFits(st, need)
    ensures Layout(Grow(st, need, grant))
  {
    hide NoDup;
    var t := Grow(st, need, grant);
    GrowRegion(st, need, grant);
    hide RegionOk, Grow, Pages;
    forall b | b in t.size ensures BlockOk(t, b) {
      assert BlockOk(st, b);
    }
    forall b, c | b in t.size && c in t.size && b != c ensures Apart(t, b, c) {
      assert Apart(st, b, c);
    }
  }

  lemma ChunkAligned(top: nat, pages: nat)
    requires top % PAGE == 0
    ensures (top + HEADER) % 16 == 0 && (top + pages * PAGE) % PAGE == 0
  {
    var k := top / PAGE;
    DivModUnique(top + HEADER, 16, 256 * k + 1, 0);
    DivModUnique(top + pages * PAGE, PAGE, k + pages, 0);
  }

  lemma GrowRegion(st: Store, need: nat, grant: bool)
    requires RegionOk(st) && GrowthFits(st, need)
    ensures var t := Grow(st, need, grant);
            && RegionOk(t) && st.bump <= t.bump && t.free == st.free && t.held == st.held && t.size == st.size
            && t.total - (t.end - t.bump) - t.waste == st.total - (st.end - st.bump) - st.waste
            && t.used == st.used && t.count == st.count && st.waste <= t.waste
  {
    hide Pages, Wrap64;
    var bytes := Pages(need) * PAGE;
    ChunkAligned(st.top, Pages(need));
    Unwrapped(st.top + HEADER);
    Unwrapped(st.top + bytes);
    Unwrapped(st.total + bytes);
  }

  lemma GrowKeeps(st: Store, need: nat, grant: bool)
    requires StoreOk(st) && GrowthFits(st, need)
    ensures StoreOk(Grow(st, need, grant))
  {
    GrowLayout(st, need, grant);
    GrowRegion(st, need, grant);
    hide Grow, Pages, Sum;
  }

  /** A granted chunk keeps the heap in order exactly when it ends inside the
      address space. */
  lemma GrowKeepsIff(st: Store, need: nat)
    requires StoreOk(st) && need < TWO64 && Pages(need) > 0
    ensures StoreOk(Grow(st, need, true)) <==> GrowthFits(st, need)
  {
    hide Layout, Accounts, Pages;
    if GrowthFits(st, need) {
      GrowKeeps(st, need, true);
    } else {
      WrappedChunk(st, need);
    }
  }

  lemma WrappedChunk(st: Store, need: nat)
    requires StoreOk(st) && need < TWO64 && Pages(need) > 0 && !GrowthFits(st, need)
    ensures !StoreOk(Grow(st, need, true))
  {
    hide NoDup, Apart, BlockOk, Accounts;
    var t := Grow(st, need, true);
    assert Pages(need) * PAGE < TWO64;
    assert st.top + HEADER < TWO64;
    assert t.end < t.bump;
  }

  lemma CarveKeeps(st: Store, want: nat)
    requires StoreOk(st) && st.bump + want + HEADER <= st.end && want % 16 == 0 && want >= 16
    ensures StoreOk(Carve(st, want)) && st.bump !in st.size
  {
    hide Layout, Sum, Wrap64, Inc32, Carve;
    CarveLayout(st, want);
    var t := CarveIs(st, want);
    CarveExtents(st.size, st.bump, want);
    OneMoreHeld(st, st.bump, want, t.size);
  }

  lemma CarveIs(st: Store, want: nat) returns (t: Store)
    requires st.bump + want + HEADER < TWO64
    ensures t == Carve(st, want) && t.size == st.size[st.bump := want] && t.held == st.held + {st.bump}
    ensures t.bump == st.bump + HEADER + want && t.end == st.end && t.total == st.total && t.waste == st.waste
    ensures t.used == Wrap64(st.used + want) && t.count == Inc32(st.count)
  {
    t := Carve(st, want);
  }

  lemma CarveExtents(m: map<nat, nat>, b: nat, want: nat)
    requires b !in m
    ensures var n := m[b := want];
            Sum(n, n.Keys) + HEADER * |n.Keys| == Sum(m, m.Keys) + HEADER * |m.Keys| + HEADER + want
  {
    hide Sum;
    SumAdd(m, m.Keys, b, want);
    assert m[b := want].Keys == m.Keys + {b};
  }

  lemma CarveLayout(st: Store, want: nat)
    requires Layout(st) && st.bump + want + HEADER <= st.end && want % 16 == 0 && want >= 16
    ensures Layout(Carve(st, want)) && st.bump !in st.size && want < 0x4000_0000
    ensures st.bump !in st.held && forall x :: x in st.held ==> x in st.size
    ensures st.bump + want + HEADER < TWO64
  {
    var t := Carve(st, want);
    assert forall b :: b in st.size ==> BlockOk(st, b) && b != st.bump;
    forall b, c | b in t.size && c in t.size && b != c ensures Apart(t, b, c) {
      assert b in st.size && c in st.size ==> Apart(st, b, c);
    }
  }
}
