/**
  Table entries and virtual addresses bit by bit, at the positions the processor
  gives them (Intel SDM Vol. 3A, section 4.5).
*/
module PagingBits {
  import opened Words
  import opened Frames
  import opened Paging

  function Bit(w: nat, k: nat): bool { Digit(w, k, 2) == 1 }

  // ------------------------------------------------------- shifts and masks

  function Shift(w: nat, n: nat): nat { if n == 0 then w else Shift(w / 2, n - 1) }

  lemma {:induction false} ShiftBit(w: nat, n: nat, k: nat)
    ensures Digit(w, n + k, 2) == Digit(Shift(w, n), k, 2)
    decreases n
  {
    if n > 0 {
      ShiftBit(w / 2, n - 1, k);
      assert Digit(w, n + k, 2) == Digit(w / 2, (n - 1) + k, 2);
    }
  }

  lemma {:induction false} ShiftIsDivide(w: nat, n: nat)
    ensures w / Pow2(n) == Shift(w, n)
    decreases n
  {
    if n > 0 {
      ShiftIsDivide(w / 2, n - 1);
      HalfThenDivide(w, Pow2(n - 1));
    }
  }

  /** Dividing by a power of two shifts. */
  lemma ShiftedBit(w: nat, n: nat, k: nat)
    ensures w / Pow2(n) == Shift(w, n)
    ensures Bit(w, n + k) == Bit(w / Pow2(n), k)
  {
    hide Shift, Pow2, Digit;
    ShiftBit(w, n, k);
    ShiftIsDivide(w, n);
  }

  lemma HalfThenDivide(w: nat, p: nat)
    requires p > 0
    ensures w / (2 * p) == w / 2 / p
  {
    var a, q := w / 2, w / 2 / p;
    var r := a - p * q;
    assert w == 2 * p * q + (2 * r + w % 2) by {
      assert w == 2 * a + w % 2 && a == p * q + r;
      assert 2 * (p * q) == 2 * p * q;
    }
    DivModUnique(w, 2 * p, q, 2 * r + w % 2);
  }

  /** The remainder keeps the bits below and clears the others. */
  lemma {:induction false} MaskedBit(w: nat, n: nat, k: nat)
    ensures Bit(w % Pow2(n), k) == (k < n && Bit(w, k))
    decreases n
  {
    if n == 0 {
      ZeroDigits(k);
    } else {
      var p := Pow2(n - 1);
      var half := w / 2 % p;
      SplitMod(w, p);
      assert w % Pow2(n) == 2 * half + w % 2;
      DivModUnique(2 * half + w % 2, 2, half, w % 2);
      if k > 0 {
        MaskedBit(w / 2, n - 1, k - 1);
      }
    }
  }

  lemma SplitMod(w: nat, p: nat)
    requires p > 0
    ensures w % (2 * p) == 2 * (w / 2 % p) + w % 2
  {
    var a := w / 2;
    var q, r := a / p, a % p;
    assert w == 2 * p * q + (2 * r + w % 2) by {
      assert w == 2 * a + w % 2 && a == p * q + r;
      assert 2 * (p * q) == 2 * p * q;
    }
    DivModUnique(w, 2 * p, q, 2 * r + w % 2);
  }

  lemma Powers()
    ensures Pow2(1) == 2 && Pow2(2) == 4 && Pow2(7) == 128 && Pow2(9) == 512 && Pow2(12) == 4096
    ensures Pow2(18) == 0x4_0000 && Pow2(27) == 0x800_0000
    ensures Pow2(40) == TWO40 && Pow2(52) == TWO52 && Pow2(63) == TWO63
  {
    PowerOf40();
    assert Pow2(4) == 16 && Pow2(7) == 128 && Pow2(9) == 512 && Pow2(12) == 4096 && Pow2(15) == 0x8000;
    assert Pow2(18) == 0x4_0000 && Pow2(21) == 0x20_0000 && Pow2(24) == 0x100_0000 && Pow2(27) == 0x800_0000;
    assert Pow2(44) == 16 * Pow2(40) && Pow2(48) == 16 * Pow2(44) && Pow2(52) == 16 * Pow2(48);
    assert Pow2(56) == 16 * Pow2(52) && Pow2(60) == 16 * Pow2(56) && Pow2(63) == 8 * Pow2(60);
  }

  // ------------------------------------------------------------ entry fields

  /** PRESENT, WRITE, USER, page size and no-execute are bits 0, 1, 2, 7 and 63. */
  lemma FlagBits(e: nat)
    ensures Present(e) == Bit(e, 0) && Writable(e) == Bit(e, 1) && User(e) == Bit(e, 2)
    ensures Huge(e) == Bit(e, 7) && NoExec(e) == Bit(e, 63)
  {
    hide Pow2, Bit;
    Powers();
    LowBit(e);
    OneFlag(e, 1);
    OneFlag(e, 2);
    OneFlag(e, 7);
    OneFlag(e, 63);
  }

  lemma OneFlag(e: nat, n: nat)
    ensures (e / Pow2(n) % 2 == 1) == Bit(e, n)
  {
    hide Pow2, Bit;
    ShiftedBit(e, n, 0);
    LowBit(e / Pow2(n));
  }

  lemma LowBit(x: nat)
    ensures Bit(x, 0) == (x % 2 == 1)
  {
  }

  /** The frame number is bits 12 to 51. */
  lemma FrameBits(e: nat, k: nat)
    ensures Bit(FrameOf(e), k) == (k < 40 && Bit(e, 12 + k))
  {
    hide Pow2, Digit;
    Powers();
    MaskedBit(e / PAGE_SIZE, 40, k);
    ShiftedBit(e, 12, k);
  }

  /** The four table indices are bits 39 to 47, 30 to 38, 21 to 29 and 12 to 20 of the
      address. */
  lemma IndexBits(virt: nat, k: nat)
    ensures Bit(PageOf(virt).i4, k) == (k < 9 && Bit(virt, 39 + k))
    ensures Bit(PageOf(virt).i3, k) == (k < 9 && Bit(virt, 30 + k))
    ensures Bit(PageOf(virt).i2, k) == (k < 9 && Bit(virt, 21 + k))
    ensures Bit(PageOf(virt).i1, k) == (k < 9 && Bit(virt, 12 + k))
  {
    Powers();
    OneIndex(virt, 27, k);
    OneIndex(virt, 18, k);
    OneIndex(virt, 9, k);
    OneIndex(virt, 0, k);
    hide Digit;
    assert Pow2(0) == 1;
    assert virt / PAGE_SIZE / 1 == virt / PAGE_SIZE;
  }

  lemma OneIndex(virt: nat, n: nat, k: nat)
    ensures Bit(virt / PAGE_SIZE / Pow2(n) % 512, k) == (k < 9 && Bit(virt, 12 + n + k))
  {
    hide Digit, Pow2;
    Powers();
    var page := virt / PAGE_SIZE;
    var x := page / Pow2(n);
    MaskedBit(x, 9, k);
    ShiftedBit(page, n, k);
    ShiftedBit(virt, 12, n + k);
    assert 12 + (n + k) == 12 + n + k;
  }

  /** Bits of a word put together from three parts. */
  lemma PackBits(lo: nat, frame: nat, hi: nat, k: nat)
    requires lo < PAGE_SIZE && frame < TWO40
    ensures Bit(Pack(lo, frame, hi), k)
         == if k < 12 then Bit(lo, k) else if k < 52 then Bit(frame, k - 12) else Bit(hi, k - 52)
  {
    hide Digit, Pow2;
    Powers();
    var e := Pack(lo, frame, hi);
    PackFields(lo, frame, hi);
    if k < 12 {
      MaskedBit(e, 12, k);
    } else if k < 52 {
      FrameBits(e, k - 12);
    } else {
      ShiftedBit(e, 52, k - 52);
    }
  }

  /** The entry written for a page is, bit by bit, the address bits of `phys`, the bits
      of `flags` and PRESENT. */
  lemma LeafBits(phys: nat, flags: nat, k: nat)
    ensures Bit(LeafEntry(phys, flags), k) == ((12 <= k < 52 && Bit(phys, k)) || Bit(flags, k) || k == 0)
  {
    hide Digit, Pow2, FrameOf;
    Powers();
    var lo := flags % PAGE_SIZE + (if Present(flags) then 0 else 1);
    var frame := BitOr(FrameOf(phys), FrameOf(flags));
    LeafLow(flags);
    JoinedFrames(FrameOf(phys), FrameOf(flags));
    PackBits(lo, frame, flags / TWO52, k);
    if k < 12 {
      LowWithPresent(flags, k);
    } else if k < 52 {
      BitOrAt(FrameOf(phys), FrameOf(flags), k - 12);
      FrameBits(phys, k - 12);
      FrameBits(flags, k - 12);
    } else {
      ShiftedBit(flags, 52, k - 52);
    }
  }

  lemma LowWithPresent(flags: nat, k: nat)
    requires k < 12
    ensures Bit(flags % PAGE_SIZE + (if Present(flags) then 0 else 1), k) == (Bit(flags, k) || k == 0)
  {
    hide Pow2;
    Powers();
    var f := flags % PAGE_SIZE;
    var lo := f + (if Present(flags) then 0 else 1);
    LeafLow(flags);
    MaskedBit(flags, 12, k);
    if k > 0 {
      assert Bit(lo, k) == Bit(lo / 2, k - 1) && Bit(f, k) == Bit(f / 2, k - 1);
    }
  }

  /** The entry written for a table is its frame, PRESENT, WRITE, and USER if asked for. */
  lemma TableBits(frame: nat, flags: nat, k: nat)
    requires frame < TWO40
    ensures Bit(TableEntry(frame, flags), k)
         == (k == 0 || k == 1 || (k == 2 && Bit(flags, 2)) || (12 <= k < 52 && Bit(frame, k - 12)))
  {
    FlagBits(flags);
    var lo := 3 + (if User(flags) then 4 else 0);
    assert TableEntry(frame, flags) == Pack(lo, frame, 0);
    PackBits(lo, frame, 0, k);
    ZeroDigits(if k >= 52 then k - 52 else 0);
    LowThree(lo, k);
    hide Digit;
  }

  lemma LowThree(lo: nat, k: nat)
    requires lo == 3 || lo == 7
    ensures Bit(lo, k) == (k == 0 || k == 1 || (k == 2 && lo == 7))
  {
    assert Bit(lo, 1) && Bit(lo, 0);
    if k >= 2 {
      assert Digit(lo, k, 2) == Digit(lo / 2, k - 1, 2) == Digit(lo / 2 / 2, k - 2, 2);
      if k > 2 {
        assert Digit(lo / 2 / 2, k - 2, 2) == Digit(0, k - 3, 2);
        ZeroDigits(k - 3);
      }
    }
  }

  lemma {:induction false} PowerBit(n: nat, k: nat)
    ensures Bit(Pow2(n), k) == (k == n)
    decreases n
  {
    if n == 0 {
      if k > 0 {
        ZeroDigits(k - 1);
      }
    } else {
      var p := Pow2(n - 1);
      DivModUnique(2 * p, 2, p, 0);
      if k > 0 {
        PowerBit(n - 1, k - 1);
      }
    }
  }

  /** Whatever the memory holds, the address found is that of a page below 2^52. */
  lemma PhysIsPage(m: Memory, root: nat, virt: nat)
    ensures var r := PhysOf(m, root, virt); r.Some? ==> r.value % PAGE_SIZE == 0 && r.value < TWO52
  {
    hide Entry, Lookup, Follow, PageOf, Huge, Present;
  }
}
