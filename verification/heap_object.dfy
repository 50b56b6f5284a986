/**
  `tmalloc` and `tfree` as they run: header words in memory, a free list linked
  through the blocks and edited through a pointer to the link, bump pointers and
  counters. Every call is proved to do what `Heap` says of the store.
*/
module KernelHeap {
  import opened Words
  import opened Finite
  import opened Heap
  import opened HeapSafety
  import opened HeapTheorems

  function Word(mem: map<nat, nat>, a: nat): (w: nat) { if a in mem then mem[a] else 0 }

  /** What the link to place `i` of the list must hold: its block, or 0 at the end. */
  ghost function Link(free: seq<nat>, i: nat): nat { if i < |free| then free[i] else 0 }

  ghost predicate ChainedHere(mem: map<nat, nat>, free: seq<nat>, size: map<nat, nat>, i: nat)
    requires i < |free|
  {
    free[i] in size && Word(mem, free[i]) == size[free[i]] && Word(mem, free[i] + 8) == Link(free, i + 1)
  }

  /** Memory holds the free list: sizes at offset 0, links at offset 8. */
  ghost predicate Chained(mem: map<nat, nat>, head: nat, free: seq<nat>, size: map<nat, nat>) {
    && head == Link(free, 0)
    && forall i :: 0 <= i < |free| ==> ChainedHere(mem, free, size, i)
  }

  /** Sizes after splitting `want` bytes off block `b`. */
  ghost function Halved(size: map<nat, nat>, b: nat, want: nat): map<nat, nat>
    requires b in size && size[b] >= want + HEADER
  {
    size[b := want][b + HEADER + want := size[b] - want - HEADER]
  }

  lemma HalvedAt(size: map<nat, nat>, b: nat, want: nat)
    requires b in size && size[b] >= want + HEADER && b + HEADER + want !in size
    ensures var h, rest := Halved(size, b, want), b + HEADER + want;
            && rest in h && h[rest] == size[b] - want - HEADER
            && forall c :: c in size ==> c in h && (c != b ==> h[c] == size[c])
  {
  }

  /** Memory that agrees on the headers of the list still holds it. */
  lemma SameHeaders(mem: map<nat, nat>, mem': map<nat, nat>, head: nat, free: seq<nat>, size: map<nat, nat>,
                    size': map<nat, nat>)
    requires Chained(mem, head, free, size)
    requires forall b :: b in free ==>
               && Word(mem', b) == Word(mem, b) && Word(mem', b + 8) == Word(mem, b + 8)
               && b in size && b in size' && size'[b] == size[b]
    ensures Chained(mem', head, free, size')
  {
    forall i | 0 <= i < |free| ensures ChainedHere(mem', free, size', i) {
      assert ChainedHere(mem, free, size, i) && free[i] in free;
    }
  }

  class KernelHeap {
    var mem: map<nat, nat>
    var freeList: nat
    var bump: nat
    var bumpEnd: nat
    var heapVirt: nat
    var totalBytes: nat
    var usedBytes: nat
    var blockCount: nat
    ghost var st: Store

    /** Fields and memory agree with the ghost store. */
    ghost predicate Tied()
      reads this
    {
      && bump == st.bump && bumpEnd == st.end && heapVirt == st.top
      && totalBytes == st.total && usedBytes == st.used && blockCount == st.count
      && Chained(mem, freeList, st.free, st.size)
    }

    ghost predicate Valid()
      reads this
    {
      Tied() && StoreOk(st)
    }

    constructor ()
      ensures Valid() && st == Initial()
    {
      hide StoreOk;
      mem, freeList, bump, bumpEnd, heapVirt := map[], 0, 0, 0, HEAP_BASE;
      totalBytes, usedBytes, blockCount := 0, 0, 0;
      st := Initial();
      InitialOk();
    }

    /** A store by the owner of block `b` anywhere in its extent, header included,
        leaves the free list and all counters alone. */
    method ClientStore(a: nat, v: nat, ghost b: nat)
      requires Valid() && b in st.held && b in st.size && b <= a && a + 8 <= b + HEADER + st.size[b]
      requires a % 8 == 0
      modifies `mem
      ensures Valid() && st == old(st) && mem == old(mem)[a := v]
    {
      hide StoreOk;
      OwnedWord(st, b, a);
      mem := mem[a := v];
      SameHeaders(old(mem), mem, freeList, st.free, st.size, st.size);
    }

    /** The word `pp` points to: the list head for 0, else a link in memory. */
    function Cell(pp: nat): nat
      reads this
    {
      if pp == 0 then freeList else Word(mem, pp)
    }

    method SetCell(pp: nat, v: nat)
      modifies `mem, `freeList
      ensures if pp == 0 then freeList == v && mem == old(mem)
              else freeList == old(freeList) && mem == old(mem)[pp := v]
    {
      if pp == 0 {
        freeList := v;
      } else {
        mem := mem[pp := v];
      }
    }

    /** The walk of `tmalloc`: the place of the first fit, and the link to it. */
    method Walk(want: nat) returns (pp: nat, ghost i: nat)
      requires Valid() && Listed(st)
      ensures i == FirstFit(st, want, 0) && pp == LinkAddress(st.free, i) && Cell(pp) == Link(st.free, i)
    {
      hide StoreOk;
      OkNonNull(st);
      pp, i := 0, 0;
      while Cell(pp) != 0 && Word(mem, Cell(pp)) < want
        invariant i <= |st.free| && pp == LinkAddress(st.free, i) && Cell(pp) == Link(st.free, i)
        invariant FirstFit(st, want, 0) == FirstFit(st, want, i)
        decreases |st.free| - i
      {
        assert ChainedHere(mem, st.free, st.size, i);
        pp := Cell(pp) + 8;
        i := i + 1;
      }
      assert i < |st.free| ==> st.free[i] in st.free && ChainedHere(mem, st.free, st.size, i);
    }

    /** Hands out the whole block the link at `pp` leads to. */
    method TakeWhole(pp: nat, want: nat, ghost i: nat)
      requires Valid() && i < |st.free| && pp == LinkAddress(st.free, i) && Cell(pp) == Link(st.free, i)
      requires st.free[i] in st.size && want <= st.size[st.free[i]] < want + HEADER + 16
      modifies `mem, `freeList
      ensures Chained(mem, freeList, st.free[..i] + st.free[i + 1..], st.size[st.free[i] := want])
    {
      hide StoreOk, Chained;
      OkNonNull(st);
      OkSpaced(st);
      LinkApart(st.free, i);
      ChainedAt(mem, freeList, st.free, st.size, i);
      hide Spaced;
      var b := Cell(pp);
      SetCell(pp, Word(mem, b + 8));
      mem := mem[b := want][b + 8 := MAGIC];
      WholeChained(old(mem), old(freeList), mem, freeList, st.free, st.size, i, want);
    }

    /** Hands out the front of the block the link at `pp` leads to. */
    method TakeFront(pp: nat, want: nat, ghost i: nat)
      requires Valid() && i < |st.free| && pp == LinkAddress(st.free, i) && Cell(pp) == Link(st.free, i)
      requires st.free[i] in st.size && st.size[st.free[i]] >= want + HEADER + 16 && want % 16 == 0
      modifies `mem, `freeList
      ensures var b := st.free[i];
              Chained(mem, freeList, st.free[i := b + HEADER + want], Halved(st.size, b, want))
    {
      hide StoreOk, Chained, Spaced, ClearOf, Halved, Word, Relinked, OnlyHere;
      OkNonNull(st);
      OkSpaced(st);
      RestClear(st, i, want);
      LinkApart(st.free, i);
      ChainedAt(mem, freeList, st.free, st.size, i);
      assert st.free[i] in st.free && (i > 0 ==> st.free[i - 1] in st.free);
      CellWord(mem, pp, st.free[i], Link(st.free, i + 1));
      FrontWords(mem, freeList, st.free, i, want, st.size[st.free[i]] - want - HEADER);
      var b := Cell(pp);
      var rest := b + HEADER + want;
      SetCell(pp, Word(mem, b + 8));
      mem := mem[rest := Word(mem, b) - want - HEADER];
      mem := mem[rest + 8 := Cell(pp)];
      SetCell(pp, rest);
      mem := mem[b := want][b + 8 := MAGIC];
      SplitChained(old(mem), old(freeList), mem, freeList, st.free, st.size, i, want);
    }

    /** The found block: split if the rest can hold a block, then handed out. */
    method TakeAt(pp: nat, want: nat, ghost i: nat) returns (b: nat)
      requires Valid() && i < |st.free| && pp == LinkAddress(st.free, i) && Cell(pp) == Link(st.free, i)
      requires st.free[i] in st.size && st.size[st.free[i]] >= want && want % 16 == 0
      modifies this
      ensures Tied() && st == TakeFit(old(st), i, want) && b == old(st).free[i]
    {
      hide StoreOk, TakeFit, Wrap64, Inc32, Chained;
      ghost var s := st;
      b := Cell(pp);
      HeadWord(mem, freeList, st, i, want);
      LayoutOf(st);
      TakeFitIs(st, i, want);
      if Word(mem, b) >= Wrap64(want + HEADER + 16) {
        TakeFront(pp, want, i);
      } else {
        TakeWhole(pp, want, i);
      }
      usedBytes := Wrap64(usedBytes + want);
      blockCount := Inc32(blockCount);
      st := TakeFit(st, i, want);
    }

    /** `grow_heap`, told whether frames and mappings were obtained. */
    method GrowHeap(need: nat, grant: bool)
      requires Tied()
      modifies this
      ensures Tied() && st == Grow(old(st), need, grant) && mem == old(mem)
    {
      hide Wrap64, Chained;
      var pages := Pages(need);
      hide Pages;
      st := Grow(st, need, grant);
      if !grant || pages == 0 {
        return;
      }
      bump := Wrap64(heapVirt + HEADER);
      bumpEnd := Wrap64(heapVirt + pages * PAGE);
      heapVirt := bumpEnd;
      totalBytes := Wrap64(totalBytes + pages * PAGE);
    }

    /** The bump carve at the end of `tmalloc`. */
    method CarveBump(want: nat, grant: bool) returns (p: nat)
      requires Valid() && want % 16 == 0
      modifies this
      ensures Tied()
      ensures var t := Ready(old(st), want, grant);
              if Room(t, want) then st == Carve(t, want) && p == t.bump else st == t && p == 0
    {
      hide Wrap64, Chained, StoreOk, Grow, Word;
      ghost var s := st;
      if Wrap64(bump + want + HEADER) > bumpEnd {
        GrowHeap(Wrap64(want + HEADER), grant);
      }
      BumpIsNew(s, want, grant);
      if Wrap64(bump + want + HEADER) > bumpEnd {
        return 0;
      }
      p := bump;
      HeaderAt(mem, freeList, st, p, want);
      mem := mem[p := want][p + 8 := MAGIC];
      bump := Wrap64(bump + HEADER + want);
      usedBytes := Wrap64(usedBytes + want);
      blockCount := Inc32(blockCount);
      st := Carve(st, want);
    }

    /** `tmalloc` */
    method Allocate(size: nat, grant: bool) returns (p: nat)
      requires Valid() && size < TWO64
      modifies this
      ensures Tied() && Listed(old(st)) && (st, p) == Malloc(old(st), size, grant)
      ensures Valid() <==> NoWrap(old(st), size) && !Overgrows(old(st), size, grant)
    {
      hide StoreOk, Chained, Want, TakeFit, Ready, Carve, Room, Overgrows, NoWrap;
      ghost var s := st;
      OkIsListed(st);
      var want := Want(size);
      var pp, i := Walk(want);
      OkNonNull(st);
      assert i < |st.free| ==> st.free[i] in st.free;
      if Cell(pp) != 0 {
        p := TakeAt(pp, want, i);
      } else {
        p := CarveBump(want, grant);
      }
      MallocKeepsIff(s, size, grant);
    }

    /** `tfree` of NULL, of a block in use, or of a block freed already. */
    method Release(ptr: nat)
      requires Valid() && (ptr == 0 || ptr in st.held || ptr in st.free) && Word(mem, ptr) < TWO64
      modifies this
      ensures Tied() && st == Free(old(st), ptr, old(Word(mem, ptr)), old(Word(mem, ptr + 8)))
      ensures ptr == 0 || ptr in old(st).free ==> Valid() && st == old(st) && mem == old(mem)
      ensures ptr in old(st).held ==>
                && ptr in old(st).size
                && (Valid() <==> old(Word(mem, ptr + 8)) != MAGIC || old(Word(mem, ptr)) == old(st).size[ptr])
    {
      hide StoreOk, Wrap64, Dec32;
      FreeOrHeld(st, mem, freeList, ptr);
      if ptr in st.held {
        FreeKeepsIff(st, ptr, Word(mem, ptr), Word(mem, ptr + 8));
      }
      if ptr == 0 || Word(mem, ptr + 8) != MAGIC {
        return;
      }
      PutFirst(ptr);
    }

    /** Marks the block free and puts it at the head of the list. */
    method PutFirst(ptr: nat)
      requires Valid() && ptr in st.held && ptr > 0 && Word(mem, ptr + 8) == MAGIC
      modifies this
      ensures Tied() && st == Free(old(st), ptr, old(Word(mem, ptr)), MAGIC)
    {
      hide StoreOk, Wrap64, Dec32, Word;
      HeldWords(st, ptr);
      PushChained(mem, freeList, st.free, st.size, ptr);
      usedBytes := Wrap64(usedBytes + TWO64 - Word(mem, ptr) % TWO64);
      blockCount := Dec32(blockCount);
      st := Free(st, ptr, Word(mem, ptr), MAGIC);
      mem := mem[ptr + 8 := freeList];
      freeList := ptr;
    }
  }

  /** No two header words of the list coincide. */
  ghost predicate Spaced(free: seq<nat>) {
    NoDup(free) && forall b, c :: b in free && c in free ==> b + 8 != c
  }

  /** A header at `p` shares no word with a header of the list. */
  ghost predicate ClearOf(free: seq<nat>, p: nat) {
    forall b :: b in free ==> b != p && b != p + 8 && b + 8 != p
  }

  lemma OkSpaced(st: Store)
    requires StoreOk(st)
    ensures Spaced(st.free)
  {
    OkNonNull(st);
    hide BlockOk, Apart, RegionOk, Accounts, NoDup;
    forall b, c | b in st.free && c in st.free ensures b + 8 != c {
      OffByEight(b, c);
    }
  }

  lemma OffByEight(b: nat, c: nat)
    requires b % 16 == 0 && c % 16 == 0
    ensures b + 8 != c
  {
  }

  lemma AlignedClear(free: seq<nat>, p: nat)
    requires p % 16 == 0 && p !in free && forall b :: b in free ==> b % 16 == 0
    ensures ClearOf(free, p)
  {
    forall b | b in free ensures b != p && b != p + 8 && b + 8 != p {
      OffByEight(b, p);
      OffByEight(p, b);
    }
  }

  ghost function LinkAddress(free: seq<nat>, i: nat): nat
    requires i <= |free|
  {
    if i == 0 then 0 else free[i - 1] + 8
  }

  lemma OkNonNull(st: Store)
    requires StoreOk(st)
    ensures forall b :: b in st.free ==> b > 0 && b % 16 == 0
  {
    assert forall b :: b in st.free ==> BlockOk(st, b);
  }

  /** A word inside a held block is no header word of a free one. */
  lemma OwnedWord(st: Store, b: nat, a: nat)
    requires StoreOk(st) && b in st.held && b in st.size && b <= a && a + 8 <= b + HEADER + st.size[b]
    ensures forall c :: c in st.free ==> c in st.size && c != a && c + 8 != a
  {
    forall c | c in st.free ensures c in st.size && c != a && c + 8 != a {
      assert Apart(st, b, c) && BlockOk(st, c) && BlockOk(st, b);
    }
  }

  /** The link to place `i` is no header word of the block there. */
  lemma LinkApart(free: seq<nat>, i: nat)
    requires Spaced(free) && i < |free|
    ensures i > 0 ==> LinkAddress(free, i) != free[i] && LinkAddress(free, i) != free[i] + 8
  {
    assert free[i] in free && (i > 0 ==> free[i - 1] in free);
  }

  lemma ChainedAt(mem: map<nat, nat>, head: nat, free: seq<nat>, size: map<nat, nat>, i: nat)
    requires Chained(mem, head, free, size) && i < |free|
    ensures free[i] in size && Word(mem, free[i]) == size[free[i]] && Word(mem, free[i] + 8) == Link(free, i + 1)
  {
    assert ChainedHere(mem, free, size, i);
  }

  /** The header of the rest of a split block shares no word with the list, nor
      with the front's header or the link to it. */
  lemma RestClear(st: Store, i: nat, want: nat)
    requires StoreOk(st) && i < |st.free| && st.free[i] in st.size && st.size[st.free[i]] > want && want % 16 == 0
    ensures var rest := st.free[i] + HEADER + want;
            && rest !in st.size && ClearOf(st.free, rest)
            && (i > 0 ==> LinkAddress(st.free, i) != rest && LinkAddress(st.free, i) != rest + 8)
  {
    hide StoreOk;
    OkNonNull(st);
    OkIsListed(st);
    SplitRestNotHeld(st, i, want);
    var rest := st.free[i] + HEADER + want;
    assert st.free[i] in st.free;
    assert rest % 16 == 0;
    AlignedClear(st.free, rest);
    assert i > 0 ==> st.free[i - 1] in st.free;
  }

  /** `mem'` and `head'` are `mem` and `head` after unlinking place `i`. */
  ghost predicate Relinked(mem: map<nat, nat>, head: nat, mem': map<nat, nat>, head': nat, free: seq<nat>, i: nat,
                           link: nat)
    requires i < |free|
  {
    if i == 0 then head' == link else head' == head && Word(mem', free[i - 1] + 8) == link
  }

  /** Nothing changed but the header of place `i`, the link to it, and one new header. */
  ghost predicate OnlyHere(mem: map<nat, nat>, mem': map<nat, nat>, free: seq<nat>, i: nat, rest: nat)
    requires i < |free|
  {
    forall a :: a != free[i] && a != free[i] + 8 && (i > 0 ==> a != free[i - 1] + 8) && a != rest && a != rest + 8 ==>
      Word(mem', a) == Word(mem, a)
  }

  /** Blocks elsewhere on the list keep their size word, and all but the
      predecessor their link. */
  lemma ElsewhereKept(mem: map<nat, nat>, mem': map<nat, nat>, free: seq<nat>, i: nat, rest: nat, k: nat)
    requires i < |free| && Spaced(free) && OnlyHere(mem, mem', free, i, rest) && k < |free| && k != i
    requires rest == free[i] || ClearOf(free, rest)
    ensures free[k] != free[i] && Word(mem', free[k]) == Word(mem, free[k])
    ensures k + 1 != i ==> Word(mem', free[k] + 8) == Word(mem, free[k] + 8)
  {
    hide Word;
    var c := free[k];
    assert c in free && free[i] in free && (i > 0 ==> free[i - 1] in free);
    assert c != free[i] && (i > 0 && k + 1 != i ==> c != free[i - 1]);
  }

  lemma WholeChained(mem: map<nat, nat>, head: nat, mem': map<nat, nat>, head': nat,
                     free: seq<nat>, size: map<nat, nat>, i: nat, want: nat)
    requires Chained(mem, head, free, size) && i < |free| && Spaced(free)
    requires Relinked(mem, head, mem', head', free, i, Link(free, i + 1)) && OnlyHere(mem, mem', free, i, free[i])
    ensures Chained(mem', head', free[..i] + free[i + 1..], size[free[i] := want])
  {
    hide Word, OnlyHere, Spaced;
    var rest := free[..i] + free[i + 1..];
    forall j | 0 <= j < |rest|
      ensures ChainedHere(mem', rest, size, j) && rest[j] != free[i]
    {
      WholeChainedAt(mem, head, mem', head', free, size, i, j);
    }
  }

  lemma WholeChainedAt(mem: map<nat, nat>, head: nat, mem': map<nat, nat>, head': nat,
                       free: seq<nat>, size: map<nat, nat>, i: nat, j: nat)
    requires Chained(mem, head, free, size) && i < |free| && Spaced(free) && j < |free| - 1
    requires Relinked(mem, head, mem', head', free, i, Link(free, i + 1)) && OnlyHere(mem, mem', free, i, free[i])
    ensures var rest := free[..i] + free[i + 1..];
            ChainedHere(mem', rest, size, j) && rest[j] != free[i]
  {
    hide Word, OnlyHere, Spaced, Chained;
    var k := if j < i then j else j + 1;
    ElsewhereKept(mem, mem', free, i, free[i], k);
    ChainedAt(mem, head, free, size, k);
  }

  lemma SplitChained(mem: map<nat, nat>, head: nat, mem': map<nat, nat>, head': nat,
                     free: seq<nat>, size: map<nat, nat>, i: nat, want: nat)
    requires Chained(mem, head, free, size) && i < |free| && Spaced(free)
    requires free[i] in size && size[free[i]] >= want + HEADER
    requires free[i] + HEADER + want !in size && ClearOf(free, free[i] + HEADER + want)
    requires var rest := free[i] + HEADER + want;
             && Relinked(mem, head, mem', head', free, i, rest) && OnlyHere(mem, mem', free, i, rest)
             && Word(mem', rest) == size[free[i]] - want - HEADER && Word(mem', rest + 8) == Link(free, i + 1)
    ensures var rest := free[i] + HEADER + want;
            Chained(mem', head', free[i := rest], Halved(size, free[i], want))
  {
    hide Word, OnlyHere, Spaced, ClearOf;
    var rest := free[i] + HEADER + want;
    var list, size' := free[i := rest], Halved(size, free[i], want);
    forall j | 0 <= j < |list| ensures ChainedHere(mem', list, size', j) {
      SplitChainedAt(mem, head, mem', head', free, size, i, want, j);
    }
  }

  lemma SplitChainedAt(mem: map<nat, nat>, head: nat, mem': map<nat, nat>, head': nat,
                       free: seq<nat>, size: map<nat, nat>, i: nat, want: nat, j: nat)
    requires Chained(mem, head, free, size) && i < |free| && Spaced(free) && j < |free|
    requires free[i] in size && size[free[i]] >= want + HEADER
    requires free[i] + HEADER + want !in size && ClearOf(free, free[i] + HEADER + want)
    requires var rest := free[i] + HEADER + want;
             && Relinked(mem, head, mem', head', free, i, rest) && OnlyHere(mem, mem', free, i, rest)
             && Word(mem', rest) == size[free[i]] - want - HEADER && Word(mem', rest + 8) == Link(free, i + 1)
    ensures var rest := free[i] + HEADER + want;
            var list, size' := free[i := rest], Halved(size, free[i], want);
            ChainedHere(mem', list, size', j)
  {
    hide Word, OnlyHere, Spaced, ClearOf, Chained, Halved;
    var rest := free[i] + HEADER + want;
    HalvedAt(size, free[i], want);
    if j != i {
      ElsewhereKept(mem, mem', free, i, rest, j);
      ChainedAt(mem, head, free, size, j);
      assert Halved(size, free[i], want)[free[j]] == size[free[j]];
    }
  }

  /** Memory after a split: the link rewritten twice, the two new headers. */
  ghost function FrontMemory(mem: map<nat, nat>, pp: nat, b: nat, rest: nat, link: nat, left: nat,
                             want: nat): map<nat, nat> {
    var m := (if pp == 0 then mem else mem[pp := link])[rest := left][rest + 8 := link];
    (if pp == 0 then m else m[pp := rest])[b := want][b + 8 := MAGIC]
  }

  lemma CellWord(mem: map<nat, nat>, pp: nat, b: nat, v: nat)
    requires pp != b
    ensures Word(mem[pp := v], b) == Word(mem, b)
  {
  }

  lemma FrontWords(mem: map<nat, nat>, head: nat, free: seq<nat>, i: nat, want: nat, left: nat)
    requires i < |free| && free[i] > 0 && (i > 0 ==> free[i - 1] > 0)
    requires var pp, b, rest := LinkAddress(free, i), free[i], free[i] + HEADER + want;
             i > 0 ==> pp != b && pp != b + 8 && pp != rest && pp != rest + 8
    ensures var pp, b, rest, link := LinkAddress(free, i), free[i], free[i] + HEADER + want, Link(free, i + 1);
            var m := FrontMemory(mem, pp, b, rest, link, left, want);
            && Relinked(mem, head, m, if i == 0 then rest else head, free, i, rest)
            && OnlyHere(mem, m, free, i, rest) && Word(m, rest) == left && Word(m, rest + 8) == link
            && Word((if pp == 0 then mem else mem[pp := link])[rest := left], pp)
               == Word(if pp == 0 then mem else mem[pp := link], pp)
            && (pp > 0 ==> Word(mem[pp := link], pp) == link)
  {
  }

  lemma HeadWord(mem: map<nat, nat>, head: nat, st: Store, i: nat, want: nat)
    requires StoreOk(st) && Chained(mem, head, st.free, st.size) && i < |st.free| && st.free[i] in st.size
    requires st.size[st.free[i]] >= want
    ensures Word(mem, st.free[i]) == st.size[st.free[i]] && Wrap64(want + HEADER + 16) == want + HEADER + 16
  {
    hide StoreOk;
    LayoutOf(st);
    FreeBlockFacts(st, i);
    ChainedAt(mem, head, st.free, st.size, i);
  }

  /** Where `tmalloc` carves, no free block starts. */
  lemma BumpIsNew(st: Store, want: nat, grant: bool)
    requires StoreOk(st)
    ensures var t := Ready(st, want, grant);
            && t.free == st.free && t.size == st.size && ClearOf(st.free, t.bump) && Listed(st)
  {
    OkNonNull(st);
    BumpAbove(st, want, grant);
    AlignedClear(st.free, Ready(st, want, grant).bump);
    OkIsListed(st);
    hide Ready, StoreOk;
  }

  lemma BumpAbove(st: Store, want: nat, grant: bool)
    requires StoreOk(st)
    ensures var t := Ready(st, want, grant);
            t.free == st.free && t.size == st.size && t.bump % 16 == 0 && t.bump !in st.free
  {
    assert forall b :: b in st.free ==> BlockOk(st, b);
    ChunkAligned(st.top, 0);
    Unwrapped(st.top + HEADER);
    hide Pages, Room, NoDup, Apart, Wrap64;
  }

  /** A new header outside the list leaves the list in memory. */
  lemma HeaderAt(mem: map<nat, nat>, head: nat, st: Store, p: nat, want: nat)
    requires Chained(mem, head, st.free, st.size) && Listed(st) && ClearOf(st.free, p)
    ensures Chained(mem[p := want][p + 8 := MAGIC], head, st.free, st.size[p := want])
  {
    SameHeaders(mem, mem[p := want][p + 8 := MAGIC], head, st.free, st.size, st.size[p := want]);
  }

  /** On the free list the magic word is gone: links are 0 or heap addresses. */
  lemma FreeOrHeld(st: Store, mem: map<nat, nat>, head: nat, ptr: nat)
    requires StoreOk(st) && Chained(mem, head, st.free, st.size) && (ptr == 0 || ptr in st.held || ptr in st.free)
    ensures ptr in st.held ==> ptr > 0 && ptr !in st.free
    ensures ptr in st.free ==> Word(mem, ptr + 8) != MAGIC
  {
    hide StoreOk, Chained;
    if ptr in st.held {
      HeldFacts(st, ptr);
    }
    if ptr in st.free {
      var i :| 0 <= i < |st.free| && st.free[i] == ptr;
      ChainedAt(mem, head, st.free, st.size, i);
      LinkNotMagic(st, i + 1);
    }
  }

  lemma HeldFacts(st: Store, ptr: nat)
    requires StoreOk(st) && ptr in st.held
    ensures ptr > 0 && ptr % 16 == 0 && ptr !in st.free
  {
    assert BlockOk(st, ptr);
  }

  lemma LinkNotMagic(st: Store, i: nat)
    requires StoreOk(st)
    ensures Link(st.free, i) != MAGIC
  {
    if i < |st.free| {
      assert st.free[i] in st.free && BlockOk(st, st.free[i]);
    }
  }

  lemma HeldWords(st: Store, ptr: nat)
    requires StoreOk(st) && ptr in st.held
    ensures Listed(st) && ClearOf(st.free, ptr)
  {
    hide StoreOk;
    HeldFacts(st, ptr);
    OkNonNull(st);
    OkIsListed(st);
    AlignedClear(st.free, ptr);
  }

  lemma PushChained(mem: map<nat, nat>, head: nat, free: seq<nat>, size: map<nat, nat>, ptr: nat)
    requires Chained(mem, head, free, size)
    requires ClearOf(free, ptr)
    ensures Chained(mem[ptr + 8 := head], ptr, [ptr] + free, size[ptr := Word(mem, ptr)])
  {
    var mem', list, size' := mem[ptr + 8 := head], [ptr] + free, size[ptr := Word(mem, ptr)];
    forall j | 0 <= j < |list| ensures ChainedHere(mem', list, size', j) {
      if j > 0 {
        assert ChainedHere(mem, free, size, j - 1);
        assert list[j] == free[j - 1] && free[j - 1] in free;
      }
    }
  }
}
