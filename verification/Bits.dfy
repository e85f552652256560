/** Bits of unsigned machine words, by binary recursion: the source's `w & (1 << i)`,
    `w |= 1 << i` and `w &= ~(1 << i)` on 32-bit words. */
module Bits {
  import opened Params

  const WORD_BITS := 32

  predicate Bit(w: nat, i: nat) {
    if i == 0 then w % 2 == 1 else Bit(w / 2, i - 1)
  }

  function SetBit(w: nat, i: nat): nat {
    if i == 0 then w / 2 * 2 + 1 else 2 * SetBit(w / 2, i - 1) + w % 2
  }

  function ClearBit(w: nat, i: nat): nat {
    if i == 0 then w / 2 * 2 else 2 * ClearBit(w / 2, i - 1) + w % 2
  }

  function Pow2(n: nat): (p: nat)
    ensures p > 0
  {
    if n == 0 then 1 else 2 * Pow2(n - 1)
  }

  lemma WordSize()
    ensures Pow2(31) == 0x8000_0000 && Pow2(32) == UINT
  {
    assert Pow2(4) == 16;
    assert Pow2(8) == 0x100;
    assert Pow2(12) == 0x1000;
    assert Pow2(16) == 0x1_0000;
    assert Pow2(20) == 0x10_0000;
    assert Pow2(24) == 0x100_0000;
    assert Pow2(28) == 0x1000_0000;
  }

  /** The word has no bit at or above position n. */
  ghost predicate FitsIn(w: nat, n: nat) {
    forall j: nat :: Bit(w, j) ==> j < n
  }

  lemma {:induction false} SetBitAt(w: nat, i: nat, j: nat)
    ensures Bit(SetBit(w, i), j) <==> i == j || Bit(w, j)
  {
    if i > 0 && j > 0 {
      SetBitAt(w / 2, i - 1, j - 1);
    }
  }

  lemma {:induction false} ClearBitAt(w: nat, i: nat, j: nat)
    ensures Bit(ClearBit(w, i), j) <==> i != j && Bit(w, j)
  {
    if i > 0 && j > 0 {
      ClearBitAt(w / 2, i - 1, j - 1);
    }
  }

  lemma {:induction false} ZeroHasNoBit(j: nat)
    ensures !Bit(0, j)
  {
    if j > 0 {
      ZeroHasNoBit(j - 1);
    }
  }

  lemma {:induction false} NonZeroHasBit(w: nat) returns (j: nat)
    requires w != 0
    ensures Bit(w, j)
  {
    if w % 2 == 1 {
      j := 0;
    } else {
      j := NonZeroHasBit(w / 2);
      j := j + 1;
    }
  }

  /** A word is determined by its bits. */
  lemma {:induction false} SameBitsSameWord(w: nat, v: nat)
    requires forall j: nat :: Bit(w, j) <==> Bit(v, j)
    ensures w == v
  {
    assert Bit(w, 0) <==> Bit(v, 0);
    forall j: nat
      ensures Bit(w / 2, j) <==> Bit(v / 2, j)
    {
      assert Bit(w, j + 1) <==> Bit(v, j + 1);
    }
    if w != 0 || v != 0 {
      SameBitsSameWord(w / 2, v / 2);
    }
  }

  /** Having no bit at or above n is being below 2^n. */
  lemma {:induction false} FitsInIsBelow(w: nat, n: nat)
    ensures FitsIn(w, n) <==> w < Pow2(n)
  {
    if n == 0 {
      if w == 0 {
        forall j: nat ensures !Bit(w, j) { ZeroHasNoBit(j); }
      } else {
        var j := NonZeroHasBit(w);
      }
    } else {
      FitsInIsBelow(w / 2, n - 1);
      if FitsIn(w, n) {
        forall j: nat | Bit(w / 2, j)
          ensures j < n - 1
        {
          assert Bit(w, j + 1);
        }
      }
      if FitsIn(w / 2, n - 1) {
        forall j: nat | Bit(w, j)
          ensures j < n
        {
          if j > 0 { assert Bit(w / 2, j - 1); }
        }
      }
    }
  }

  // ----- shifts -----

  function Shl(x: nat, k: nat): nat {
    if k == 0 then x else 2 * Shl(x, k - 1)
  }

  function Shr(x: nat, k: nat): nat {
    if k == 0 then x else Shr(x / 2, k - 1)
  }

  /** The k low bits of x are zero: the source's `(x & ((1 << k) - 1)) == 0`. */
  predicate LowBitsZero(x: nat, k: nat) {
    if k == 0 then true else x % 2 == 0 && LowBitsZero(x / 2, k - 1)
  }

  lemma {:induction false} ShrShl(x: nat, k: nat)
    ensures Shr(Shl(x, k), k) == x && LowBitsZero(Shl(x, k), k)
  {
    if k > 0 { ShrShl(x, k - 1); }
  }

  lemma {:induction false} ShlAdd(x: nat, y: nat, k: nat)
    ensures Shl(x + y, k) == Shl(x, k) + Shl(y, k)
  {
    if k > 0 { ShlAdd(x, y, k - 1); }
  }

  lemma {:induction false} ShlDouble(x: nat, k: nat)
    ensures Shl(2 * x, k) == Shl(x, k + 1)
  {
    if k > 0 { ShlDouble(x, k - 1); }
  }

  lemma {:induction false} ShlOne(k: nat)
    ensures Shl(1, k) == Pow2(k)
  {
    if k > 0 { ShlOne(k - 1); }
  }

  lemma {:induction false} ShlComposes(x: nat, j: nat, k: nat)
    ensures Shl(Shl(x, j), k) == Shl(x, j + k)
  {
    if k > 0 { ShlComposes(x, j, k - 1); }
  }

  lemma {:induction false} ShlIsTimes(x: nat, k: nat)
    ensures Shl(x, k) == Pow2(k) * x
  {
    if k > 0 { ShlIsTimes(x, k - 1); }
  }

  /** Shifting right and back rounds down to a multiple of 2^k. */
  lemma {:induction false} RoundDown(x: nat, k: nat)
    ensures Shl(Shr(x, k), k) <= x < Shl(Shr(x, k), k) + Pow2(k)
    ensures LowBitsZero(x, k) ==> x == Shl(Shr(x, k), k)
  {
    if k > 0 {
      RoundDown(x / 2, k - 1);
    }
  }
}
