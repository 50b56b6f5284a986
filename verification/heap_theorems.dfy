/** The heap's promises over single calls and over whole histories. */
module HeapTheorems {
  import opened Words
  import opened Finite
  import opened Heap
  import opened HeapSafety

  ghost predicate Listed(st: Store) { forall b :: b in st.free ==> b in st.size }

  /** A request rounds up to at least its size, unless rounding wraps. */
  lemma WantCovers(size: nat)
    requires size < TWO64
    ensures Want(size) < TWO64
    ensures size <= HEADER + Want(size) <==> size <= TWO64 - 16
    ensures size <= TWO64 - 16 ==> size <= Want(size)
  {
  }

  /** It is the least multiple of 16, at least 16, that does. */
  lemma WantIsLeast(size: nat, w: nat)
    requires size <= TWO64 - 16 && w % 16 == 0 && w >= 16 && w >= size
    ensures Want(size) <= w && (size <= Want(size) < size + 16 || Want(size) == 16)
  {
    WantCovers(size);
    Unwrapped(size + 15);
  }

  /** A chunk is the least number of whole pages for the request and for 64 KiB. */
  lemma PagesAreLeast(need: nat, p: nat)
    requires need <= TWO64 - PAGE && need <= p * PAGE && CHUNK <= p * PAGE
    ensures Pages(need) <= p && need <= Pages(need) * PAGE && CHUNK <= Pages(need) * PAGE
  {
    Unwrapped((if need > CHUNK then need else CHUNK) + PAGE - 1);
  }

  /** Taking a block from the free list: the rest stays in its place as a block if it
      can hold a header and 16 bytes, and otherwise goes with it, so that less than
      32 bytes are given up. */
  lemma TakeFitSplits(st: Store, i: nat, want: nat)
    requires i < |st.free| && st.free[i] in st.size && want + 2 * HEADER < TWO64 && want <= st.size[st.free[i]]
    ensures var b, t := st.free[i], TakeFit(st, i, want);
            var over := st.size[b] - want;
            && b in t.size && t.size[b] == want && 0 <= t.waste - st.waste < 32
            && (over < 32 ==> t.free == st.free[..i] + st.free[i + 1..] && t.waste == st.waste + over)
            && (over >= 32 ==>
                  var rest := b + HEADER + want;
                  && t.free == st.free[..i] + [rest] + st.free[i + 1..] && t.waste == st.waste
                  && rest in t.size && t.size[rest] == over - HEADER)
  {
    Unwrapped(want + HEADER + 16);
    assert st.free[i := st.free[i] + HEADER + want] == st.free[..i] + [st.free[i] + HEADER + want] + st.free[i + 1..];
  }

  /** The guard of first-fit: some free block is large enough. */
  predicate HasFit(st: Store, want: nat)
    requires forall b :: b in st.free ==> b in st.size
  {
    FirstFit(st, want, 0) < |st.free|
  }

  lemma HasFitIff(st: Store, want: nat)
    requires Listed(st)
    ensures HasFit(st, want) <==> exists b :: b in st.free && st.size[b] >= want
  {
  }

  lemma OkIsListed(st: Store)
    requires StoreOk(st)
    ensures Listed(st)
  {
  }

  lemma RoomExact(st: Store, want: nat)
    requires RegionOk(st) && st.bump + want + HEADER < TWO64
    ensures Room(st, want) <==> st.bump + want + HEADER <= st.end
  {
  }

  /** No pages at all when rounding up the request wraps. */
  predicate Oversized(want: nat) { want + HEADER > TWO64 - PAGE }

  /** The chunk holds the request but not the 16 bytes skipped at its start. */
  predicate ExactChunk(want: nat) { want + HEADER >= CHUNK && (want + HEADER) % PAGE == 0 }

  lemma PagesCover(want: nat)
    requires want % 16 == 0 && want + HEADER < TWO64
    ensures Oversized(want) ==> Pages(want + HEADER) == 0
    ensures !Oversized(want) ==>
              && Pages(want + HEADER) > 0 && want + HEADER <= Pages(want + HEADER) * PAGE
              && (Pages(want + HEADER) * PAGE < want + 2 * HEADER <==> ExactChunk(want))
  {
    var chunk := if want + HEADER > CHUNK then want + HEADER else CHUNK;
    if !Oversized(want) {
      Unwrapped(chunk + PAGE - 1);
    } else {
      DivModUnique(chunk + PAGE - 1, TWO64, 1, chunk + PAGE - 1 - TWO64);
    }
  }

  /** After growing, the wrapped test is the real one. */
  lemma GrownRoom(st: Store, want: nat, grant: bool)
    requires RegionOk(st) && want % 16 == 0 && st.bump + want + HEADER < TWO64
    requires !Room(st, want) && (grant ==> GrowthFits(st, want + HEADER))
    ensures var t := Grow(st, want + HEADER, grant);
            && t.bump + want + HEADER < TWO64
            && (Room(t, want) <==> t.bump + want + HEADER <= t.end)
            && (Room(t, want) <==> grant && !Oversized(want) && !ExactChunk(want))
  {
    PagesCover(want);
    hide Pages, Wrap64;
    RoomExact(st, want);
    var t, bytes := Grow(st, want + HEADER, grant), Pages(want + HEADER) * PAGE;
    if grant && bytes > 0 {
      GrowRegion(st, want + HEADER, grant);
      Unwrapped(st.top + HEADER);
      Unwrapped(st.top + bytes);
      PageBelow(t.end);
      RoomExact(t, want);
    }
  }

  lemma PageBelow(a: nat)
    requires a % PAGE == 0 && a < TWO64
    ensures a + PAGE <= TWO64
  {
  }

  lemma CarvedKeeps(st: Store, want: nat, grant: bool)
    requires StoreOk(st) && want % 16 == 0 && want >= 16 && st.bump + want + HEADER < TWO64
    requires !Room(st, want) && grant && Pages(want + HEADER) > 0 ==> GrowthFits(st, want + HEADER)
    ensures var t := Ready(st, want, grant);
            && StoreOk(t) && t.free == st.free && t.held == st.held && t.size == st.size && st.waste <= t.waste
            && (Room(t, want) ==> StoreOk(Carve(t, want)) && t.bump !in t.size && t.bump > 0)
            && (Room(t, want) <==> Room(st, want) || (grant && !Oversized(want) && !ExactChunk(want)))
  {
    hide Layout, Accounts, Sum, Grow, Carve, Pages, Room;
    RegionOf(st);
    Unwrapped(want + HEADER);
    var t := Ready(st, want, grant);
    if Room(st, want) {
      RoomExact(st, want);
    } else if grant && Pages(want + HEADER) > 0 {
      GrownRoom(st, want, grant);
      GrowKeeps(st, want + HEADER, grant);
      GrowRegion(st, want + HEADER, grant);
    } else {
      NotGrown(st, want + HEADER, grant);
      PagesCover(want);
    }
    if Room(t, want) {
      CarveKeeps(t, want);
      RegionOf(t);
      BumpPositive(t, want);
    }
  }

  lemma NotGrown(st: Store, need: nat, grant: bool)
    requires !grant || Pages(need) == 0
    ensures Grow(st, need, grant) == st
  {
  }

  lemma RegionOf(st: Store)
    requires StoreOk(st)
    ensures RegionOk(st)
  {
  }

  lemma BumpPositive(st: Store, want: nat)
    requires RegionOk(st) && st.bump + want + HEADER <= st.end
    ensures st.bump > 0
  {
  }

  // ---------------------------------------------------------------- tmalloc

  /** The request fits below the end of the address space, or a free block serves it. */
  predicate NoWrap(st: Store, size: nat)
    requires forall b :: b in st.free ==> b in st.size
  {
    HasFit(st, Want(size)) || st.bump + Want(size) + HEADER < TWO64
  }

  /** A block carved past the end of the address space is no block of the heap. */
  lemma WrappedCarveBreaks(st: Store, want: nat)
    requires RegionOk(st) && want < TWO64 && want % 16 == 0 && st.bump + want + HEADER >= TWO64
    ensures Room(st, want) && !Layout(Carve(st, want))
  {
    hide NoDup, Apart, Wrap64;
    var a := st.bump + want + HEADER;
    assert want + HEADER <= TWO64;
    WrapOnce(a);
    assert st.bump in Carve(st, want).size && !BlockOk(Carve(st, want), st.bump);
  }

  lemma WrapOnce(a: nat)
    requires TWO64 <= a < 2 * TWO64
    ensures Wrap64(a) == a - TWO64
  {
  }

  /** The call makes the heap grow past the end of the address space. */
  predicate Overgrows(st: Store, size: nat, grant: bool)
    requires forall b :: b in st.free ==> b in st.size
  {
    var need := Wrap64(Want(size) + HEADER);
    !HasFit(st, Want(size)) && !Room(st, Want(size)) && grant && Pages(need) > 0 && !GrowthFits(st, need)
  }

  /** `tmalloc` keeps the heap in order exactly when neither the bump arithmetic
      nor the growth runs past the address space. */
  lemma MallocKeepsIff(st: Store, size: nat, grant: bool)
    requires StoreOk(st) && size < TWO64
    ensures Listed(st) && (StoreOk(Malloc(st, size, grant).0) <==> NoWrap(st, size) && !Overgrows(st, size, grant))
  {
    hide Layout, Accounts, Sum, Grow, Carve, Pages, Room, TakeFit, Want, Wrap64;
    OkIsListed(st);
    RegionOf(st);
    WantCovers(size);
    var want := Want(size);
    if HasFit(st, want) {
      TakeFitKeeps(st, FirstFit(st, want, 0), want);
    } else if st.bump + want + HEADER < TWO64 {
      Unwrapped(want + HEADER);
      if Overgrows(st, size, grant) {
        OvergrownBreaks(st, want);
      } else {
        CarvedKeeps(st, want, grant);
      }
    } else {
      WrappedCarveBreaks(st, want);
    }
  }

  /** A chunk past the address space leaves the top of the heap below its base. */
  lemma OvergrownBreaks(st: Store, want: nat)
    requires StoreOk(st) && want % 16 == 0 && want + HEADER < TWO64 && st.bump + want + HEADER < TWO64
    requires Pages(want + HEADER) > 0 && !GrowthFits(st, want + HEADER)
    ensures var t := Grow(st, want + HEADER, true); !StoreOk(t) && !StoreOk(Carve(t, want))
  {
    hide NoDup, BlockOk, Apart, Accounts, Sum, Pages;
    var bytes := Pages(want + HEADER) * PAGE;
    ChunkSmall(want);
    assert st.top + bytes - TWO64 < HEAP_BASE;
    WrapOnce(st.top + bytes);
  }

  lemma ChunkSmall(want: nat)
    requires want % 16 == 0 && want + HEADER < TWO64
    ensures Pages(want + HEADER) * PAGE < TWO64
    ensures Pages(want + HEADER) * PAGE < want + HEADER + CHUNK + PAGE
  {
    PagesCover(want);
  }

  /** NULL exactly when no free block fits, the bump region is too small, and
      growing fails, wraps, or yields a chunk without room for its own first 16 bytes. */
  lemma MallocNullIff(st: Store, size: nat, grant: bool)
    requires StoreOk(st) && size < TWO64 && Listed(st) && NoWrap(st, size) && !Overgrows(st, size, grant)
    ensures var want := Want(size);
            Malloc(st, size, grant).1 == 0 <==>
              && !HasFit(st, want) && st.bump + want + HEADER > st.end
              && (!grant || Oversized(want) || ExactChunk(want))
  {
    hide Layout, Accounts, Sum, Grow, Carve, Pages, Room, TakeFit, Want, Wrap64, Oversized, ExactChunk;
    RegionOf(st);
    WantCovers(size);
    var want := Want(size);
    if HasFit(st, want) {
      FreeBlockHigh(st, FirstFit(st, want, 0));
    } else {
      Unwrapped(want + HEADER);
      CarvedKeeps(st, want, grant);
      RoomExact(st, want);
    }
  }

  lemma FreeBlockHigh(st: Store, i: nat)
    requires StoreOk(st) && i < |st.free|
    ensures st.free[i] in st.size && st.free[i] > 0 && st.free[i] !in st.held
  {
    assert st.free[i] in st.free;
    assert BlockOk(st, st.free[i]);
  }

  /** Where a request is served: from the first free block, in list order, that is
      large enough; without one, at the bump pointer if there is room; and only without
      room the heap grows. */
  lemma MallocWhere(st: Store, size: nat, grant: bool)
    requires StoreOk(st) && size < TWO64 && Listed(st) && NoWrap(st, size) && !Overgrows(st, size, grant)
    ensures var want, (t, p) := Want(size), Malloc(st, size, grant);
            && (forall i :: 0 <= i < |st.free| && st.size[st.free[i]] >= want
                            && (forall j :: 0 <= j < i ==> st.size[st.free[j]] < want) ==>
                  p == st.free[i] && t.bump == st.bump && t.top == st.top)
            && ((forall i :: 0 <= i < |st.free| ==> st.size[st.free[i]] < want) ==>
                  && t.free == st.free
                  && (st.bump + HEADER + want <= st.end ==>
                        p == st.bump && t.bump == st.bump + HEADER + want && t.top == st.top)
                  && (st.bump + HEADER + want > st.end && p != 0 ==>
                        && p == st.top + HEADER && t.bump == p + HEADER + want
                        && t.top == t.end == st.top + Pages(want + HEADER) * PAGE))
  {
    hide Layout, Accounts, Sum, Pages, Want, BlockOk;
    RegionOf(st);
    WantCovers(size);
    var want := Want(size);
    var i := FirstFit(st, want, 0);
    if i == |st.free| {
      MallocGrown(st, want, grant);
    } else {
      assert TakeFit(st, i, want).bump == st.bump && TakeFit(st, i, want).top == st.top;
    }
  }

  lemma MallocGrown(st: Store, want: nat, grant: bool)
    requires RegionOk(st) && want % 16 == 0 && 16 <= want < TWO64 && st.bump + want + HEADER < TWO64
    requires !Room(st, want) && grant && Pages(want + HEADER) > 0 ==> GrowthFits(st, want + HEADER)
    ensures var t := Ready(st, want, grant);
            && (Room(st, want) <==> st.bump + HEADER + want <= st.end)
            && (Room(st, want) ==> t == st && Carve(t, want).bump == st.bump + HEADER + want)
            && (!Room(st, want) && Room(t, want) ==>
                  && t.bump == st.top + HEADER && t.end == t.top == st.top + Pages(want + HEADER) * PAGE
                  && Carve(t, want).bump == t.bump + HEADER + want)
  {
    hide Pages;
    RoomExact(st, want);
    Unwrapped(want + HEADER);
    if Room(st, want) {
      Unwrapped(st.bump + HEADER + want);
    } else if grant && Pages(want + HEADER) > 0 {
      GrownRoom(st, want, grant);
      Unwrapped(Ready(st, want, grant).bump + HEADER + want);
    }
  }

  /** A returned block is new to its owner, holds the request unless rounding it
      wraps, and leaves every block in use alone. */
  lemma MallocGives(st: Store, size: nat, grant: bool)
    requires StoreOk(st) && size < TWO64 && Listed(st) && NoWrap(st, size) && !Overgrows(st, size, grant)
    requires Malloc(st, size, grant).1 != 0
    ensures var (t, p) := Malloc(st, size, grant);
            && p !in st.held && t.held == st.held + {p} && p in t.size && t.size[p] == Want(size)
            && (size <= HEADER + t.size[p] <==> size <= TWO64 - 16)
            && (size <= TWO64 - 16 ==> size <= t.size[p] < size + 16 || t.size[p] == 16)
            && st.waste <= t.waste
            && forall b :: b in st.held ==> b in st.size && b in t.size && t.size[b] == st.size[b] && Apart(t, b, p)
  {
    hide Accounts, Sum, Grow, Carve, Pages, Room, TakeFit, Want, Wrap64, BlockOk, RegionOk, NoDup, Apart;
    WantCovers(size);
    if size <= TWO64 - 16 {
      WantIsLeast(size, Want(size));
    }
    MallocKeepsIff(st, size, grant);
    GivenBlock(st, size, grant);
  }

  lemma GivenBlock(st: Store, size: nat, grant: bool)
    requires StoreOk(st) && size < TWO64 && Listed(st) && NoWrap(st, size) && !Overgrows(st, size, grant)
    requires Malloc(st, size, grant).1 != 0
    ensures var (t, p) := Malloc(st, size, grant);
            && p !in st.held && t.held == st.held + {p} && p in t.size && t.size[p] == Want(size) && st.waste <= t.waste
            && forall b :: b in st.held ==> b in st.size && b in t.size && t.size[b] == st.size[b]
  {
    hide Layout, Accounts, Sum, Grow, Pages, Room, Want, Wrap64, TakeFit;
    WantCovers(size);
    var want := Want(size);
    HeldListed(st);
    if HasFit(st, want) {
      var i := FirstFit(st, want, 0);
      FreeBlockHigh(st, i);
      TakeFitIs(st, i, want);
      SplitRestNotHeld(st, i, want);
    } else {
      Unwrapped(want + HEADER);
      CarvedKeeps(st, want, grant);
    }
  }

  lemma HeldListed(st: Store)
    requires StoreOk(st)
    ensures forall b :: b in st.held ==> b in st.size
  {
  }

  lemma SplitRestNotHeld(st: Store, i: nat, want: nat)
    requires StoreOk(st) && i < |st.free| && st.free[i] in st.size
    ensures st.size[st.free[i]] > want ==> st.free[i] + HEADER + want !in st.size
  {
    if st.size[st.free[i]] > want {
      RestIsNew(st, st.free[i], want);
    }
  }

  // ------------------------------------------------------------------ tfree

  /** Freeing keeps the heap in order exactly when the header is intact or its
      magic word is gone. */
  lemma FreeKeepsIff(st: Store, b: nat, sizeWord: nat, metaWord: nat)
    requires StoreOk(st) && b in st.held && sizeWord < TWO64
    ensures b in st.size
    ensures StoreOk(Free(st, b, sizeWord, metaWord)) <==> metaWord != MAGIC || sizeWord == st.size[b]
  {
    hide Sum, Wrap64, Dec32;
    HeldListed(st);
    assert BlockOk(st, b) && b > 0;
    var t := Free(st, b, sizeWord, metaWord);
    if metaWord == MAGIC {
      WholeExtents(st.size, b, sizeWord);
      if sizeWord == st.size[b] {
        FreeLayout(st, b);
        FreeCounters(st, b);
      }
    }
  }

  lemma FreeLayout(st: Store, b: nat)
    requires Layout(st) && b in st.held && b in st.size
    ensures Layout(Free(st, b, st.size[b], MAGIC))
  {
    var t := Free(st, b, st.size[b], MAGIC);
    assert BlockOk(st, b);
    assert t.size == st.size;
    NoDupConcat([b], st.free);
    hide NoDup, RegionOk;
    forall c | c in t.size ensures BlockOk(t, c) && (c in t.held || c in t.free) {
      assert BlockOk(st, c);
    }
    forall c, d | c in t.size && d in t.size && c != d ensures Apart(t, c, d) {
      assert Apart(st, c, d);
    }
  }

  lemma FreeCounters(st: Store, b: nat)
    requires StoreOk(st) && b in st.held && b in st.size
    ensures var t := Free(st, b, st.size[b], MAGIC);
            t.held <= t.size.Keys && t.used == Sum(t.size, t.held) && t.count == |t.held|
  {
    hide Layout, Sum;
    HeldListed(st);
    FreedFields(st, b);
    CountersSmall(st);
    var t := Free(st, b, st.size[b], MAGIC);
    SumTake(st.size, st.held, b);
    assert t.size == st.size;
    assert |st.held| == |st.held - {b}| + 1;
  }

  lemma FreedFields(st: Store, b: nat)
    requires StoreOk(st) && b in st.held && b in st.size
    ensures b > 0 && st.size[b] < TWO64
  {
    assert BlockOk(st, b);
  }

  /** Freeing a block and asking for its size again gives it back and restores
      the heap exactly; asking for less gives it back too. */
  lemma FreeThenMalloc(st: Store, b: nat, size: nat, grant: bool)
    requires StoreOk(st) && b in st.held && b in st.size && Want(size) <= st.size[b]
    ensures var t := Free(st, b, st.size[b], MAGIC);
            && Listed(t) && Malloc(t, size, grant).1 == b
            && (Want(size) == st.size[b] ==> Malloc(t, size, grant).0 == st)
  {
    hide Layout, Accounts, Want, Sum;
    FreedFields(st, b);
    FreeKeepsIff(st, b, st.size[b], MAGIC);
    var t := Free(st, b, st.size[b], MAGIC);
    OkIsListed(t);
    assert t.free[0] == b && FirstFit(t, Want(size), 0) == 0;
    if Want(size) == st.size[b] {
      LayoutOf(t);
      TakeFitIs(t, 0, Want(size));
      RestoredFields(st, b);
      var u := TakeFit(t, 0, Want(size));
      assert t.free[..0] + t.free[1..] == st.free;
      assert u.held == st.held && u.size == st.size;
    }
  }

  lemma LayoutOf(st: Store)
    requires StoreOk(st)
    ensures Layout(st)
  {
  }

  lemma RestoredFields(st: Store, b: nat)
    requires StoreOk(st) && b in st.held && b in st.size
    ensures var t := Free(st, b, st.size[b], MAGIC);
            Wrap64(t.used + st.size[b]) == st.used && Inc32(t.count) == st.count
  {
    hide Layout, Sum, Extents;
    HeldListed(st);
    FreedFields(st, b);
    CountersSmall(st);
    SumTake(st.size, st.held, b);
  }

  // -------------------------------------------------------------- histories

  datatype Op = Allocate(size: nat, grant: bool) | Release(block: nat, sizeWord: nat, metaWord: nat)

  /** Calls the heap is written for: no wrap, intact headers, and for a block
      already on the free list the link word `tfree` finds there. */
  ghost predicate Legal(st: Store, op: Op) {
    match op
    case Allocate(size, grant) => size < TWO64 && Listed(st) && NoWrap(st, size) && !Overgrows(st, size, grant)
    case Release(b, sizeWord, metaWord) =>
      && sizeWord < TWO64
      && (b == 0 || (b in st.free && metaWord != MAGIC) ||
          (b in st.held && b in st.size && (metaWord == MAGIC ==> sizeWord == st.size[b])))
  }

  function Step(st: Store, op: Op): (r: Store)
    requires forall b :: b in st.free ==> b in st.size
  {
    match op
    case Allocate(size, grant) => Malloc(st, size, grant).0
    case Release(b, sizeWord, metaWord) => Free(st, b, sizeWord, metaWord)
  }

  ghost predicate History(st: Store, ops: seq<Op>, end: Store)
    decreases |ops|
  {
    if ops == [] then end == st
    else Listed(st) && Legal(st, ops[0]) && History(Step(st, ops[0]), ops[1..], end)
  }

  lemma StepKeeps(st: Store, op: Op)
    requires StoreOk(st) && Legal(st, op)
    ensures Listed(st) && StoreOk(Step(st, op)) && st.waste <= Step(st, op).waste
  {
    hide Layout, Accounts, NoWrap, Overgrows, Malloc;
    OkIsListed(st);
    match op {
      case Allocate(size, grant) =>
        MallocKeepsIff(st, size, grant);
        MallocWaste(st, size, grant);
      case Release(b, sizeWord, metaWord) =>
        if b in st.held {
          FreeKeepsIff(st, b, sizeWord, metaWord);
        }
    }
  }

  lemma MallocWaste(st: Store, size: nat, grant: bool)
    requires StoreOk(st) && size < TWO64 && Listed(st) && NoWrap(st, size) && !Overgrows(st, size, grant)
    ensures st.waste <= Malloc(st, size, grant).0.waste
  {
    hide Layout, Accounts, Sum, Grow, Pages, Room, Want, Wrap64, TakeFit;
    WantCovers(size);
    var want := Want(size);
    if HasFit(st, want) {
      FreeBlockHigh(st, FirstFit(st, want, 0));
      TakeFitIs(st, FirstFit(st, want, 0), want);
    } else {
      Unwrapped(want + HEADER);
      CarvedKeeps(st, want, grant);
    }
  }

  /** Every history of legal calls keeps the heap in order, and waste only grows. */
  lemma {:induction false} HistoriesKeep(st: Store, ops: seq<Op>, end: Store)
    requires StoreOk(st) && History(st, ops, end)
    ensures StoreOk(end) && st.waste <= end.waste
    decreases |ops|
  {
    hide StoreOk, Legal, Step;
    if ops != [] {
      StepKeeps(st, ops[0]);
      HistoriesKeep(Step(st, ops[0]), ops[1..], end);
    }
  }

  /** From boot, whatever the history: any two blocks, free or in use, occupy
      disjoint aligned parts of the mapped heap below the bump pointer. */
  lemma HeapIsSafe(ops: seq<Op>, st: Store, b: nat, c: nat)
    requires History(Initial(), ops, st) && b in st.size && c in st.size && b != c
    ensures b + HEADER + st.size[b] <= c || c + HEADER + st.size[c] <= b
    ensures b % 16 == 0 && HEAP_BASE + HEADER <= b && b + HEADER + st.size[b] <= st.bump <= st.end == st.top
  {
    hide History, StoreOk, Initial;
    InitialOk();
    HistoriesKeep(Initial(), ops, st);
    OkReads(st, b, c);
  }

  lemma OkReads(st: Store, b: nat, c: nat)
    requires StoreOk(st) && b in st.size && c in st.size && b != c
    ensures b + HEADER + st.size[b] <= c || c + HEADER + st.size[c] <= b
    ensures b % 16 == 0 && HEAP_BASE + HEADER <= b && b + HEADER + st.size[b] <= st.bump <= st.end == st.top
  {
    hide NoDup, Sum, Extents;
    assert BlockOk(st, b) && Apart(st, b, c);
  }

  /** And every byte is accounted for: no block is listed twice, a block is free or
      in use, the counters are the sum and the number of the blocks in use, and the
      chunks are made up of blocks, the bump remainder and the waste. */
  lemma HeapAccounts(ops: seq<Op>, st: Store)
    requires History(Initial(), ops, st)
    ensures NoDup(st.free) && (forall b :: b in st.size ==> (b in st.free <==> b !in st.held))
    ensures st.held <= st.size.Keys && st.used == Sum(st.size, st.held) && st.count == |st.held|
    ensures st.total == st.top - HEAP_BASE == Extents(st) + (st.end - st.bump) + st.waste
  {
    hide History, StoreOk, Initial, Sum, Extents, NoDup;
    InitialOk();
    HistoriesKeep(Initial(), ops, st);
    OkAccounts(st);
  }

  lemma OkAccounts(st: Store)
    requires StoreOk(st)
    ensures NoDup(st.free) && (forall b :: b in st.size ==> (b in st.free <==> b !in st.held))
    ensures st.held <= st.size.Keys && st.used == Sum(st.size, st.held) && st.count == |st.held|
    ensures st.total == st.top - HEAP_BASE == Extents(st) + (st.end - st.bump) + st.waste
  {
    hide NoDup, Sum, Extents, BlockOk, Apart;
  }

  /** A heap with one fresh chunk. */
  function OneChunk(): (st: Store) {
    Store([], {}, map[], HEAP_BASE + 16, HEAP_BASE + CHUNK, HEAP_BASE + CHUNK, CHUNK, 0, 0, 16)
  }

  lemma OneChunkOk()
    ensures StoreOk(OneChunk())
  {
  }

  /** A request whose rounding wraps is served with 16 bytes. */
  lemma RoundingWraps()
    ensures var (t, p) := Malloc(OneChunk(), TWO64 - 1, false); p != 0 && p in t.size && t.size[p] == 16
  {
    WantCovers(TWO64 - 1);
  }

  /** A request for a gigabyte wraps past the end of the address space, passes
      the test and is "carved": the heap is not in order afterwards. */
  lemma BumpWraps()
    ensures StoreOk(OneChunk()) && !StoreOk(Malloc(OneChunk(), 0x4000_0000, false).0)
  {
    OneChunkOk();
    assert Want(0x4000_0000) == 0x4000_0000;
    hide StoreOk, Malloc, OneChunk;
    OneChunkWraps();
    MallocKeepsIff(OneChunk(), 0x4000_0000, false);
  }

  lemma OneChunkWraps()
    ensures !NoWrap(OneChunk(), 0x4000_0000)
  {
  }
}
