/**
 Unsigned machine-word arithmetic on `nat`: shifts, masks, AND, XOR and the
 bit length. Everything is defined by halving, so no proof needs non-linear
 arithmetic.
 */
module Bits {

  function Pow2(k: nat): (p: nat)
    ensures p >= 1
  {
    if k == 0 then 1 else 2 * Pow2(k - 1)
  }

  /** `x >> k` */
  function Shr(x: nat, k: nat): nat
    decreases k
  {
    if k == 0 then x else Shr(x / 2, k - 1)
  }

  /** `x << k`, before any truncation to a word */
  function Shl(x: nat, k: nat): nat {
    if k == 0 then x else 2 * Shl(x, k - 1)
  }

  /** `x` with its low `k` bits cleared */
  function ClearLow(x: nat, k: nat): (r: nat)
    ensures r <= x
    decreases k
  {
    if k == 0 then x else 2 * ClearLow(x / 2, k - 1)
  }

  function And(x: nat, y: nat): nat {
    if x == 0 || y == 0 then 0
    else 2 * And(x / 2, y / 2) + (x % 2) * (y % 2)
  }

  function Xor(x: nat, y: nat): nat
    decreases x + y
  {
    if x == 0 && y == 0 then 0
    else 2 * Xor(x / 2, y / 2) + (x + y) % 2
  }

  /** The position of the highest set bit, counted from one; 0 for zero. */
  function BitLength(x: nat): nat {
    if x == 0 then 0 else 1 + BitLength(x / 2)
  }

  // ---- shifts ---------------------------------------------------------------

  lemma {:induction false} ShrAdd(x: nat, j: nat, k: nat)
    ensures Shr(x, j + k) == Shr(Shr(x, j), k)
    decreases j
  {
    if j != 0 {
      ShrAdd(x / 2, j - 1, k);
    }
  }

  /** Agreement above bit `j` persists above every higher bit. */
  lemma ShrAgreeUp(x: nat, y: nat, j: nat, k: nat)
    requires j <= k && Shr(x, j) == Shr(y, j)
    ensures Shr(x, k) == Shr(y, k)
  {
  }

  lemma {:induction false} ShrMonotone(x: nat, y: nat, k: nat)
    requires x <= y
    ensures Shr(x, k) <= Shr(y, k)
    decreases k
  {
    if k != 0 {
      ShrMonotone(x / 2, y / 2, k - 1);
    }
  }

  /** Two words agree above bit `k` exactly when the second lies in the block of `2^k` words around the first. */
  lemma {:induction false} ShrBlock(x: nat, y: nat, k: nat)
    ensures Shr(x, k) == Shr(y, k) <==> ClearLow(x, k) <= y < ClearLow(x, k) + Pow2(k)
    decreases k
  {
    if k != 0 {
      ShrBlock(x / 2, y / 2, k - 1);
    }
  }

  lemma {:induction false} ClearLowIsShifts(x: nat, k: nat)
    ensures ClearLow(x, k) == Shl(Shr(x, k), k)
    decreases k
  {
    if k != 0 {
      ClearLowIsShifts(x / 2, k - 1);
    }
  }

  lemma {:induction false} ClearLowOfShl(x: nat, k: nat)
    ensures ClearLow(Shl(x, k), k) == Shl(x, k)
    decreases k
  {
    if k != 0 {
      ClearLowOfShl(x, k - 1);
    }
  }

  lemma {:induction false} ShlIsProduct(x: nat, k: nat)
    ensures Shl(x, k) == x * Pow2(k)
    decreases k
  {
    if k != 0 {
      ShlIsProduct(x, k - 1);
    }
  }

  lemma {:induction false} ShrClearLow(x: nat, k: nat)
    ensures Shr(ClearLow(x, k), k) == Shr(x, k)
    decreases k
  {
    if k != 0 {
      ShrClearLow(x / 2, k - 1);
    }
  }

  /** Cleared words that agree above bit `k` are equal. */
  lemma {:induction false} ClearLowAgree(x: nat, y: nat, k: nat)
    requires Shr(x, k) == Shr(y, k)
    ensures ClearLow(x, k) == ClearLow(y, k)
    decreases k
  {
    if k != 0 {
      ClearLowAgree(x / 2, y / 2, k - 1);
    }
  }

  lemma {:induction false} ShrSmall(x: nat, k: nat)
    requires x < Pow2(k)
    ensures Shr(x, k) == 0
    decreases k
  {
    if k != 0 {
      ShrSmall(x / 2, k - 1);
    }
  }

  lemma {:induction false} Pow2Word()
    ensures Pow2(8) == 0x100 && Pow2(16) == 0x1_0000 && Pow2(24) == 0x100_0000 && Pow2(32) == 0x1_0000_0000
  {
  }

  lemma {:induction false} Pow2Monotone(j: nat, k: nat)
    requires j <= k
    ensures Pow2(j) <= Pow2(k)
    decreases k
  {
    if j < k {
      Pow2Monotone(j, k - 1);
    }
  }

  // ---- masks ----------------------------------------------------------------

  /** ANDing with the ones of a `w`-bit word keeps a `w`-bit value. */
  lemma {:induction false} AndOnes(x: nat, w: nat)
    requires x < Pow2(w)
    ensures And(x, Pow2(w) - 1) == x
    decreases w
  {
    if w != 0 && x != 0 {
      AndOnes(x / 2, w - 1);
      assert (Pow2(w) - 1) / 2 == Pow2(w - 1) - 1;
      assert (Pow2(w) - 1) % 2 == 1;
    }
  }

  /** ANDing with a mask of high ones clears the low bits. */
  lemma {:induction false} AndHighMask(x: nat, w: nat, k: nat)
    requires k <= w && x < Pow2(w)
    requires Pow2(k) <= Pow2(w)
    ensures And(x, Pow2(w) - Pow2(k)) == ClearLow(x, k)
    decreases k
  {
    if k == 0 {
      AndOnes(x, w);
    } else {
      var m := Pow2(w - 1) - Pow2(k - 1);
      assert Pow2(w) - Pow2(k) == 2 * m;
      AndHighMask(x / 2, w - 1, k - 1);
      if x == 0 || m == 0 {
        assert And(x, 2 * m) == 0;
      } else {
        assert (2 * m) / 2 == m && (2 * m) % 2 == 0;
      }
    }
  }

  /** `x << k` truncated to 32 bits */
  function ShlWord(x: nat, k: nat): nat {
    if k == 0 then x else 2 * ShlWord(x, k - 1) % 0x1_0000_0000
  }

  /** The netmask of a prefix length. */
  function PrefixMask(prefix: nat): nat
    requires prefix <= 32
  {
    if prefix == 0 then 0 else ShlWord(0xFFFF_FFFF, 32 - prefix)
  }

  lemma {:induction false} ShlWordOnes(k: nat)
    requires k < 32
    ensures ShlWord(0xFFFF_FFFF, k) == 0x1_0000_0000 - Pow2(k)
    decreases k
  {
    if k != 0 {
      ShlWordOnes(k - 1);
      Pow2Small(k);
    }
  }

  lemma Pow2Small(k: nat)
    requires k < 32
    ensures Pow2(k) <= 0x8000_0000
  {
    Pow2Word();
    Pow2Monotone(k, 31);
    assert Pow2(32) == 2 * Pow2(31);
  }

  /** ANDing a 32-bit word with a netmask clears its host bits. */
  lemma MaskClears(x: nat, prefix: nat)
    requires x < 0x1_0000_0000 && prefix <= 32
    ensures And(x, PrefixMask(prefix)) == ClearLow(x, 32 - prefix)
  {
    Pow2Word();
    if prefix == 0 {
      ShrSmall(x, 32);
      ClearLowIsShifts(x, 32);
      ShlIsProduct(0, 32);
    } else {
      ShlWordOnes(32 - prefix);
      Pow2Monotone(32 - prefix, 32);
      AndHighMask(x, 32, 32 - prefix);
    }
  }

  lemma {:induction false} AndBound(x: nat, y: nat)
    ensures And(x, y) <= x && And(x, y) <= y
    decreases x
  {
    if x != 0 && y != 0 {
      AndBound(x / 2, y / 2);
    }
  }

  lemma AndSingleBits(b: nat, c: nat)
    requires b < 2 && c < 2
    ensures And(b, c) == b * c
  {
    AndDouble(b, c);
  }

  lemma AndTwoBits(x: nat, y: nat)
    ensures And(x, y) == 4 * And(x / 4, y / 4) + And(x % 4, y % 4)
  {
    var high, low := x / 2 % 2 * (y / 2 % 2), x % 2 * (y % 2);
    AndDouble(x, y);
    AndDouble(x / 2, y / 2);
    assert And(x, y) == 4 * And(x / 4, y / 4) + 2 * high + low by {
      assert x / 2 / 2 == x / 4 && y / 2 / 2 == y / 4;
    }
    assert And(x % 4, y % 4) == 2 * high + low by {
      AndDouble(x % 4, y % 4);
      AndSingleBits(x / 2 % 2, y / 2 % 2);
      assert x % 4 / 2 == x / 2 % 2 && y % 4 / 2 == y / 2 % 2;
      assert x % 4 % 2 == x % 2 && y % 4 % 2 == y % 2;
    }
  }

  lemma AndNibble(x: nat, y: nat)
    ensures And(x, y) == 16 * And(x / 16, y / 16) + And(x % 16, y % 16)
  {
    AndTwoBits(x, y);
    AndTwoBits(x / 4, y / 4);
    AndTwoBits(x % 16, y % 16);
    assert x / 4 / 4 == x / 16 && y / 4 / 4 == y / 16;
    assert x % 16 / 4 == x / 4 % 4 && y % 16 / 4 == y / 4 % 4;
    assert x % 16 % 4 == x % 4 && y % 16 % 4 == y % 4;
  }

  /** AND works byte by byte. */
  lemma AndByte(x: nat, y: nat)
    ensures And(x, y) == 0x100 * And(x / 0x100, y / 0x100) + And(x % 0x100, y % 0x100)
  {
    AndNibble(x, y);
    AndNibble(x / 16, y / 16);
    AndNibble(x % 0x100, y % 0x100);
    assert x / 16 / 16 == x / 0x100 && y / 16 / 16 == y / 0x100;
    assert x % 0x100 / 16 == x / 16 % 16 && y % 0x100 / 16 == y / 16 % 16;
    assert x % 0x100 % 16 == x % 16 && y % 0x100 % 16 == y % 16;
  }

  lemma AndDouble(x: nat, y: nat)
    ensures And(x, y) == 2 * And(x / 2, y / 2) + (x % 2) * (y % 2)
  {
  }

  // ---- XOR and the bit length -------------------------------------------------

  lemma {:induction false} XorZero(x: nat, y: nat)
    ensures Xor(x, y) == 0 <==> x == y
    decreases x + y
  {
    if x != 0 || y != 0 {
      XorZero(x / 2, y / 2);
    }
  }

  lemma {:induction false} XorHalf(x: nat, y: nat)
    ensures Xor(x, y) / 2 == Xor(x / 2, y / 2)
  {
  }

  /** The bit length of an XOR is the least shift that makes both words agree. */
  lemma {:induction false} XorBitLength(x: nat, y: nat, k: nat)
    ensures Shr(x, k) == Shr(y, k) <==> BitLength(Xor(x, y)) <= k
    decreases k
  {
    XorZero(x, y);
    if k != 0 {
      XorHalf(x, y);
      XorBitLength(x / 2, y / 2, k - 1);
      if x == y {
        assert Shr(x, k) == Shr(y, k);
      }
    }
  }
}
