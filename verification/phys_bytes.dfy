/**
  Bytes of physical memory seen through the physmap window: little-endian
  within each 64-bit word. `PutBytes` is what `tmemcpy` and `tmemset` leave
  behind.
*/
module PhysBytes {
  import opened Words
  import opened Frames
  import opened Paging

  const WINDOW: nat := 0x4000_0000

  function ByteAt(m: Memory, a: nat): (b: nat)
    ensures b < 256
  {
    Digit(Entry(m, a / PAGE_SIZE, a % PAGE_SIZE / 8), a % 8, 256)
  }

  function SetByte(m: Memory, a: nat, b: nat): (r: Memory)
    requires MemoryOk(m) && a < WINDOW && b < 256
    ensures MemoryOk(r)
  {
    var f, i := a / PAGE_SIZE, a % PAGE_SIZE / 8;
    SetEntry(m, f, i, SetDigit(m[f][i], a % 8, 256, b))
  }

  lemma SetByteAt(m: Memory, a: nat, b: nat, c: nat)
    requires MemoryOk(m) && a < WINDOW && b < 256
    ensures ByteAt(SetByte(m, a, b), c) == if c == a then b else ByteAt(m, c)
  {
    var f, i := a / PAGE_SIZE, a % PAGE_SIZE / 8;
    SetDigitAt(m[f][i], a % 8, 256, b, c % 8);
    assert c == c / PAGE_SIZE * PAGE_SIZE + c % PAGE_SIZE / 8 * 8 + c % 8;
    assert a == f * PAGE_SIZE + i * 8 + a % 8;
    hide Digit, SetDigit;
  }

  ghost predicate AllBytes(bs: seq<nat>) {
    forall i :: 0 <= i < |bs| ==> bs[i] < 256
  }

  /** Memory after storing `bs` at address `dst`, byte by byte. */
  function PutBytes(m: Memory, dst: nat, bs: seq<nat>): (r: Memory)
    requires MemoryOk(m) && dst + |bs| <= WINDOW && AllBytes(bs)
    ensures MemoryOk(r)
  {
    if bs == [] then m
    else
      var n := |bs| - 1;
      SetByte(PutBytes(m, dst, bs[..n]), dst + n, bs[n])
  }

  /** The range holds the bytes stored; every other byte is as before. */
  lemma {:induction false} PutBytesAt(m: Memory, dst: nat, bs: seq<nat>, c: nat)
    requires MemoryOk(m) && dst + |bs| <= WINDOW && AllBytes(bs)
    ensures ByteAt(PutBytes(m, dst, bs), c) == if dst <= c < dst + |bs| then bs[c - dst] else ByteAt(m, c)
  {
    if bs != [] {
      var n := |bs| - 1;
      PutBytesAt(m, dst, bs[..n], c);
      SetByteAt(PutBytes(m, dst, bs[..n]), dst + n, bs[n], c);
    }
    hide ByteAt, SetByte;
  }

  /** Pages the range does not touch are untouched. */
  lemma {:induction false} PutBytesPages(m: Memory, dst: nat, bs: seq<nat>, f: nat)
    requires MemoryOk(m) && dst + |bs| <= WINDOW && AllBytes(bs) && f < LOW_FRAMES
    requires (f + 1) * PAGE_SIZE <= dst || dst + |bs| <= f * PAGE_SIZE
    ensures PutBytes(m, dst, bs)[f] == m[f]
  {
    if bs != [] {
      var n := |bs| - 1;
      PutBytesPages(m, dst, bs[..n], f);
      assert (dst + n) / PAGE_SIZE != f;
    }
  }
}
