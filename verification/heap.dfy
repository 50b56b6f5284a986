/**
  The kernel heap of `tmalloc.c` as a value: blocks with a 16-byte header, a
  first-fit free list, and a bump region that grows chunk by chunk.
*/
module Heap {
  import opened Words
  import opened Finite

  const HEADER: nat := 16
  const CHUNK: nat := 65536
  const PAGE: nat := 4096
  const MAGIC: nat := 0x54474C41
  const HEAP_BASE: nat := 0xFFFF_FFFF_C000_0000

  /** `free` is the free list in order, `held` the blocks handed out, `size` the
      payload size of each; `waste` counts the bytes no block will ever use. */
  datatype Store = Store(free: seq<nat>, held: set<nat>, size: map<nat, nat>, bump: nat, end: nat, top: nat,
                         total: nat, used: nat, count: nat, waste: int)

  function Initial(): (st: Store) {
    Store([], {}, map[], 0, 0, HEAP_BASE, 0, 0, 0, 0)
  }

  // -------------------------------------------------------------- operations

  /** The request rounded up to 16 bytes, at least 16, in 64-bit arithmetic. */
  function Want(size: nat): (w: nat)
    ensures w % 16 == 0 && 16 <= w
  {
    var a := Wrap64(size + 15) / 16 * 16;
    if a < 16 then 16 else a
  }

  /** First-fit: the place in the free list, or its length. */
  function FirstFit(st: Store, want: nat, i: nat): (r: nat)
    requires i <= |st.free| && forall b :: b in st.free ==> b in st.size
    ensures i <= r <= |st.free| && forall j :: i <= j < r ==> st.size[st.free[j]] < want
    ensures r < |st.free| ==> st.size[st.free[r]] >= want
    decreases |st.free| - i
  {
    if i < |st.free| && st.size[st.free[i]] < want then FirstFit(st, want, i + 1) else i
  }

  /** Hand out block `i` of the free list, splitting it when the rest can hold a block. */
  function TakeFit(st: Store, i: nat, want: nat): (r: Store)
    requires i < |st.free| && st.free[i] in st.size && st.size[st.free[i]] >= want
  {
    var b := st.free[i];
    var s := st.size[b];
    var t := st.(held := st.held + {b}, used := Wrap64(st.used + want), count := Inc32(st.count));
    if s >= Wrap64(want + HEADER + 16) && s >= want + HEADER then
      var rest := b + HEADER + want;
      t.(free := st.free[i := rest], size := st.size[b := want][rest := s - want - HEADER])
    else
      t.(free := st.free[..i] + st.free[i + 1..], size := st.size[b := want], waste := st.waste + s - want)
  }

  function Pages(need: nat): nat {
    Wrap64((if need > CHUNK then need else CHUNK) + PAGE - 1) / PAGE
  }

  /** `grow_heap`: the bump region moves to a new chunk, whose first 16 bytes and
      the old region's tail are given up. `grant` says whether frames and
      mappings were obtained. */
  function Grow(st: Store, need: nat, grant: bool): (r: Store) {
    var bytes := Pages(need) * PAGE;
    if !grant || bytes == 0 then st
    else
      var end := Wrap64(st.top + bytes);
      st.(bump := Wrap64(st.top + HEADER), end := end, top := end, total := Wrap64(st.total + bytes),
          waste := st.waste + HEADER + (st.end - st.bump))
  }

  predicate Room(st: Store, want: nat) { Wrap64(st.bump + want + HEADER) <= st.end }

  function Carve(st: Store, want: nat): (r: Store) {
    st.(held := st.held + {st.bump}, size := st.size[st.bump := want], bump := Wrap64(st.bump + HEADER + want),
        used := Wrap64(st.used + want), count := Inc32(st.count))
  }

  /** The bump region `tmalloc` carves from, grown if needed. */
  function Ready(st: Store, want: nat, grant: bool): (r: Store) {
    if Room(st, want) then st else Grow(st, Wrap64(want + HEADER), grant)
  }

  /** `tmalloc`: the store and the block's address, 0 for NULL. */
  function Malloc(st: Store, size: nat, grant: bool): (r: (Store, nat))
    requires forall b :: b in st.free ==> b in st.size
  {
    var want := Want(size);
    var i := FirstFit(st, want, 0);
    if i < |st.free| then (TakeFit(st, i, want), st.free[i])
    else
      var t := Ready(st, want, grant);
      if Room(t, want) then (Carve(t, want), t.bump) else (t, 0)
  }

  /** `tfree`, given the two header words found at `block`. */
  function Free(st: Store, block: nat, sizeWord: nat, metaWord: nat): (r: Store) {
    if block == 0 || metaWord != MAGIC then st
    else
      st.(free := [block] + st.free, held := st.held - {block}, size := st.size[block := sizeWord],
          used := Wrap64(st.used + TWO64 - sizeWord % TWO64), count := Dec32(st.count))
  }

  // -------------------------------------------------------------- invariants

  ghost predicate BlockOk(st: Store, b: nat)
    requires b in st.size
  {
    b % 16 == 0 && st.size[b] % 16 == 0 && 16 <= st.size[b] && HEAP_BASE + HEADER <= b &&
      b + HEADER + st.size[b] <= st.bump
  }

  ghost predicate Apart(st: Store, b: nat, c: nat)
    requires b in st.size && c in st.size
  {
    b + HEADER + st.size[b] <= c || c + HEADER + st.size[c] <= b
  }

  ghost predicate RegionOk(st: Store) {
    && st.top % PAGE == 0 && HEAP_BASE <= st.top < TWO64 && st.total == st.top - HEAP_BASE && st.bump % 16 == 0
    && if st.bump == 0 then st.end == 0 && st.top == HEAP_BASE
       else HEAP_BASE + HEADER <= st.bump <= st.end == st.top
  }

  /** Blocks lie in the heap below the bump pointer, aligned and pairwise apart;
      each is either handed out or once on the free list. */
  ghost predicate Layout(st: Store) {
    && RegionOk(st)
    && NoDup(st.free) && (forall b :: b in st.free ==> b in st.size && b !in st.held)
    && (forall b :: b in st.held ==> b in st.size)
    && (forall b :: b in st.size ==> BlockOk(st, b) && (b in st.held || b in st.free))
    && (forall b, c :: b in st.size && c in st.size && b != c ==> Apart(st, b, c))
  }

  ghost function Sum(m: map<nat, nat>, s: set<nat>): (r: nat)
    requires s <= m.Keys
  {
    if s == {} then 0 else
      var x :| x in s;
      m[x] + Sum(m, s - {x})
  }

  /** Headers and payloads of all blocks. */
  ghost function Extents(st: Store): (r: nat) {
    Sum(st.size, st.size.Keys) + HEADER * |st.size.Keys|
  }

  ghost predicate Accounts(st: Store)
    requires Layout(st)
  {
    && st.used == Sum(st.size, st.held) && st.count == |st.held|
    && st.total == Extents(st) + (st.end - st.bump) + st.waste
    && st.waste >= 0
  }

  ghost predicate StoreOk(st: Store) { Layout(st) && Accounts(st) }

  lemma InitialOk()
    ensures StoreOk(Initial())
  {
  }

  // -------------------------------------------------------------------- sums

  lemma {:induction false} SumTake(m: map<nat, nat>, s: set<nat>, x: nat)
    requires s <= m.Keys && x in s
    ensures Sum(m, s) == m[x] + Sum(m, s - {x})
  {
    var y :| y in s && Sum(m, s) == m[y] + Sum(m, s - {y});
    if x != y {
      SumTake(m, s - {y}, x);
      SumTake(m, s - {x}, y);
      assert s - {y} - {x} == s - {x} - {y};
    }
  }

  lemma {:induction false} SumSame(m: map<nat, nat>, n: map<nat, nat>, s: set<nat>)
    requires s <= m.Keys && s <= n.Keys && forall x :: x in s ==> m[x] == n[x]
    ensures Sum(m, s) == Sum(n, s)
    decreases |s|
  {
    if x :| x in s {
      SumTake(m, s, x);
      SumTake(n, s, x);
      SumSame(m, n, s - {x});
    }
  }

  /** Adding an element. */
  lemma SumAdd(m: map<nat, nat>, s: set<nat>, x: nat, v: nat)
    requires s <= m.Keys && x !in s
    ensures Sum(m[x := v], s + {x}) == Sum(m, s) + v
  {
    SumTake(m[x := v], s + {x}, x);
    assert s + {x} - {x} == s;
    SumSame(m, m[x := v], s);
  }

  /** Changing one element. */
  lemma SumSet(m: map<nat, nat>, s: set<nat>, x: nat, v: nat)
    requires s <= m.Keys && x in s
    ensures Sum(m[x := v], s) == Sum(m, s) - m[x] + v
  {
    SumTake(m, s, x);
    SumAdd(m, s - {x}, x, v);
    assert s - {x} + {x} == s;
  }

  lemma {:induction false} SumPart(m: map<nat, nat>, s: set<nat>, t: set<nat>)
    requires s <= t <= m.Keys
    ensures Sum(m, s) <= Sum(m, t)
    decreases |t|
  {
    if x :| x in t && x !in s {
      SumTake(m, t, x);
      SumPart(m, s, t - {x});
    } else {
      assert s == t;
    }
  }

  lemma {:induction false} SumLow(m: map<nat, nat>, s: set<nat>)
    requires s <= m.Keys && forall x :: x in s ==> m[x] >= 16
    ensures Sum(m, s) >= 16 * |s|
    decreases |s|
  {
    if x :| x in s {
      SumTake(m, s, x);
      SumLow(m, s - {x});
    }
  }

  /** Everything fits in the heap's gigabyte, so no counter wraps. */
  lemma CountersSmall(st: Store)
    requires StoreOk(st)
    ensures st.used <= st.total <= TWO64 - HEAP_BASE && 32 * st.count <= st.total
  {
    SumPart(st.size, st.held, st.size.Keys);
    SumLow(st.size, st.size.Keys);
    SubsetSize(st.held, st.size.Keys);
  }
}
