/**
  Fixed-width unsigned arithmetic of the kernel, written out over `nat`, and
  the digits of a machine word (bits in base 2, bytes in base 256).
*/
module Words {
  const TWO32: nat := 0x1_0000_0000
  const TWO64: nat := 0x1_0000_0000_0000_0000

  /** `x++` on a `uint32_t`. */
  function Inc32(x: nat): nat { (x + 1) % TWO32 }

  /** `x--` on a `uint32_t`. */
  function Dec32(x: nat): nat { (x + TWO32 - 1) % TWO32 }

  function Wrap64(x: nat): nat { x % TWO64 }

  function Min(a: nat, b: nat): nat { if a <= b then a else b }

  lemma DivModUnique(a: nat, m: nat, q: nat, r: nat)
    requires r < m && a == m * q + r
    ensures a / m == q && a % m == r
  {
    var d := a / m - q;
    assert m * d == r - a % m;
    assert d >= 1 ==> m * d >= m;
    assert d <= -1 ==> m * d + m <= 0;
  }

  // ------------------------------------------------------------------ digits

  /** Digit `k` of `w`: bit `k` in base 2, byte `k` in base 256. */
  function Digit(w: nat, k: nat, base: nat): (d: nat)
    requires base >= 2
    ensures d < base
    decreases k
  {
    if k == 0 then w % base else Digit(w / base, k - 1, base)
  }

  /** `w` with digit `k` replaced by `v`. */
  function SetDigit(w: nat, k: nat, base: nat, v: nat): (r: nat)
    requires base >= 2 && v < base
    decreases k
  {
    if k == 0 then base * (w / base) + v
    else base * SetDigit(w / base, k - 1, base, v) + w % base
  }

  /** Setting a digit changes that digit and no other. */
  lemma {:induction false} SetDigitAt(w: nat, k: nat, base: nat, v: nat, j: nat)
    requires base >= 2 && v < base
    ensures Digit(SetDigit(w, k, base, v), j, base) == if j == k then v else Digit(w, j, base)
    decreases k
  {
    var r := SetDigit(w, k, base, v);
    if k == 0 {
      DivModUnique(r, base, w / base, v);
    } else {
      DivModUnique(r, base, SetDigit(w / base, k - 1, base, v), w % base);
      if j > 0 {
        SetDigitAt(w / base, k - 1, base, v, j - 1);
      }
    }
  }

  // ------------------------------------------------------------------- bits

  function Pow2(n: nat): (r: nat)
    ensures r >= 1
  {
    if n == 0 then 1 else 2 * Pow2(n - 1)
  }

  lemma PowerOf32()
    ensures Pow2(32) == TWO32
  {
    assert Pow2(8) == 0x100 && Pow2(16) == 0x1_0000 && Pow2(24) == 0x100_0000;
  }

  lemma PowerOf40()
    ensures Pow2(40) == 0x100_0000_0000
  {
    PowerOf32();
    assert Pow2(36) == 16 * Pow2(32);
  }

  /** `a | b` */
  function BitOr(a: nat, b: nat): (r: nat) {
    if a == 0 then b
    else if b == 0 then a
    else 2 * BitOr(a / 2, b / 2) + (if a % 2 == 1 || b % 2 == 1 then 1 else 0)
  }

  lemma {:induction false} BitOrBelow(a: nat, b: nat, n: nat)
    requires a < Pow2(n) && b < Pow2(n)
    ensures BitOr(a, b) < Pow2(n)
  {
    if a != 0 && b != 0 {
      BitOrBelow(a / 2, b / 2, n - 1);
    }
  }

  /** A bit of `a | b` is set iff it is set in one of them. */
  lemma {:induction false} BitOrAt(a: nat, b: nat, k: nat)
    ensures Digit(BitOr(a, b), k, 2) == 1 <==> Digit(a, k, 2) == 1 || Digit(b, k, 2) == 1
    decreases k
  {
    if a == 0 || b == 0 {
      ZeroDigits(k);
    } else if k > 0 {
      BitOrAt(a / 2, b / 2, k - 1);
    }
  }

  lemma {:induction false} ZeroDigits(k: nat)
    ensures Digit(0, k, 2) == 0
  {
    if k > 0 {
      ZeroDigits(k - 1);
    }
  }
}
