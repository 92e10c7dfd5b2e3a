/**
 * Bitwise operations on the natural numbers that stand for 64-bit words.
 *
 * Page-table entries, physical and virtual addresses are `uint64_t` values in
 * the kernel. The model keeps them as naturals and spells out the few bit
 * operations the page-table code uses: OR, and splitting a word at a bit
 * position into its high part (`x >> k`) and its low part (`x & (2^k - 1)`).
 */
module Bits {
  function Pow2(k: nat): (p: nat)
    ensures p >= 1
  {
    if k == 0 then 1 else 2 * Pow2(k - 1)
  }

  /** `a | b`, computed bit by bit from the least significant one. */
  function Or(a: nat, b: nat): nat
    decreases a + b
  {
    if a == 0 then b
    else if b == 0 then a
    else 2 * Or(a / 2, b / 2) + (if a % 2 == 1 || b % 2 == 1 then 1 else 0)
  }

  /** `x >> k` */
  function Shr(x: nat, k: nat): nat
  {
    if k == 0 then x else Shr(x / 2, k - 1)
  }

  /** `x & (2^k - 1)`: the `k` lowest bits. */
  function Low(x: nat, k: nat): nat
  {
    if k == 0 then 0 else 2 * Low(x / 2, k - 1) + x % 2
  }

  /** The lowest bit of `a | b` and the bits above it. */
  lemma OrStep(a: nat, b: nat)
    ensures Or(a, b) % 2 == (if a % 2 == 1 || b % 2 == 1 then 1 else 0)
    ensures Or(a, b) / 2 == Or(a / 2, b / 2)
  {
    if a == 0 {
      assert Or(a / 2, b / 2) == b / 2;
    } else if b == 0 {
      assert Or(a / 2, b / 2) == a / 2;
    }
  }

  /** OR works on each bit on its own: the bits from position `k` up. */
  lemma {:induction false} OrShr(a: nat, b: nat, k: nat)
    ensures Shr(Or(a, b), k) == Or(Shr(a, k), Shr(b, k))
  {
    if k > 0 {
      OrStep(a, b);
      OrShr(a / 2, b / 2, k - 1);
    }
  }

  /** OR works on each bit on its own: the `k` bits below position `k`. */
  lemma {:induction false} OrLow(a: nat, b: nat, k: nat)
    ensures Low(Or(a, b), k) == Or(Low(a, k), Low(b, k))
  {
    if k > 0 {
      var la, lb := Low(a, k), Low(b, k);
      OrStep(a, b);
      OrLow(a / 2, b / 2, k - 1);
      OrStep(la, lb);
      assert la / 2 == Low(a / 2, k - 1) && la % 2 == a % 2;
      assert lb / 2 == Low(b / 2, k - 1) && lb % 2 == b % 2;
    }
  }

  /** A word below `2^k` ORed with another stays below `2^k`. */
  lemma {:induction false} OrBelow(a: nat, b: nat, k: nat)
    requires a < Pow2(k) && b < Pow2(k)
    ensures Or(a, b) < Pow2(k)
  {
    if a != 0 && b != 0 {
      OrBelow(a / 2, b / 2, k - 1);
    }
  }

  /** Dividing by `2 * p` is halving and then dividing by `p`. */
  lemma DivModDouble(x: nat, p: nat)
    requires p >= 1
    ensures x / (2 * p) == (x / 2) / p
    ensures x % (2 * p) == 2 * ((x / 2) % p) + x % 2
  {
    var q, r := (x / 2) / p, (x / 2) % p;
    assert x / 2 == q * p + r;
    assert x == q * (2 * p) + (2 * r + x % 2);
    DivModUnique(x, 2 * p, q, 2 * r + x % 2);
  }

  lemma DivModUnique(x: nat, d: nat, q: nat, r: nat)
    requires d >= 1 && x == q * d + r && r < d
    ensures x / d == q && x % d == r
  {
    var q' := x / d;
    if q' > q {
      MulMono(q + 1, q', d);
      assert false;
    } else if q' < q {
      MulMono(q' + 1, q, d);
      assert false;
    }
  }

  /** Shifting by `j + k` is shifting by `j` and then by `k`. */
  lemma {:induction false} ShrShr(x: nat, j: nat, k: nat)
    ensures Shr(x, j + k) == Shr(Shr(x, j), k)
  {
    if j > 0 {
      ShrShr(x / 2, j - 1, k);
    }
  }

  /** Dividing by `2^(j+k)` is dividing by `2^j` and then by `2^k`. */
  lemma DivDiv(x: nat, j: nat, k: nat)
    ensures x / Pow2(j + k) == (x / Pow2(j)) / Pow2(k)
  {
    ShrShr(x, j, k);
    ShrLowDivMod(x, j + k);
    ShrLowDivMod(x, j);
    ShrLowDivMod(x / Pow2(j), k);
  }

  /** The powers of two that the page-table index arithmetic divides by. */
  lemma Pow2Values()
    ensures Pow2(9) == 0x200 && Pow2(12) == 0x1000 && Pow2(18) == 0x4_0000
    ensures Pow2(21) == 0x20_0000 && Pow2(27) == 0x800_0000
    ensures Pow2(30) == 0x4000_0000 && Pow2(39) == 0x80_0000_0000
  {
  }

  lemma MulMono(a: nat, b: nat, d: nat)
    requires a <= b
    ensures a * d <= b * d
  {
  }

  /** Clearing bit 0 (`x & ~1`) leaves the quotient by an even divisor alone. */
  lemma DropLowBit(x: nat, h: nat)
    requires h >= 1
    ensures x / 2 * 2 == x - x % 2
    ensures (x / 2 * 2) / (2 * h) == x / (2 * h)
  {
    var d := 2 * h;
    var q, r := x / d, x % d;
    assert x == q * d + r;
    var m := q * h + r / 2;
    assert x == m * 2 + r % 2 by {
      assert q * d == 2 * (q * h);
    }
    DivModUnique(x, 2, m, r % 2);
    var e := r - r % 2;
    assert 0 <= e < d;
    assert x - x % 2 == q * d + e;
    DivModUnique(x - x % 2, d, q, e);
  }

  /** The shift and the mask are division and remainder by `2^k`. */
  lemma {:induction false} ShrLowDivMod(x: nat, k: nat)
    ensures Shr(x, k) == x / Pow2(k)
    ensures Low(x, k) == x % Pow2(k)
  {
    if k > 0 {
      ShrLowDivMod(x / 2, k - 1);
      DivModDouble(x, Pow2(k - 1));
    }
  }

  /** `x >> 7` */
  lemma Shr7(x: nat)
    ensures Shr(x, 7) == x / 128
  {
    ShrLowDivMod(x, 7);
  }

  /** `x >> 12` and `x & 0xFFF` */
  lemma Split12(x: nat)
    ensures Shr(x, 12) == x / 4096
    ensures Low(x, 12) == x % 4096
  {
    ShrLowDivMod(x, 12);
  }
}
