/** Powers of two, and sets as bit masks. */
module BitMasks {

  function Pow2(n: nat): nat { if n == 0 then 1 else 2 * Pow2(n - 1) }

  lemma {:induction false} Pow2Adds(m: nat, n: nat)
    ensures Pow2(m + n) == Pow2(m) * Pow2(n)
  {
    if m > 0 {
      Pow2Adds(m - 1, n);
    }
  }

  lemma {:induction false} Pow2Doubles(n: nat, half: nat, whole: nat)
    requires Pow2(n) == half && whole == half * half
    ensures Pow2(2 * n) == whole
  {
    Pow2Adds(n, n);
  }

  lemma TwoTo63()
    ensures Pow2(63) == 0x8000_0000_0000_0000
  {
    assert Pow2(4) == 16;
    Pow2Doubles(4, 16, 0x100);
    Pow2Doubles(8, 0x100, 0x1_0000);
    Pow2Doubles(16, 0x1_0000, 0x1_0000_0000);
    Pow2Doubles(32, 0x1_0000_0000, 0x1_0000_0000_0000_0000);
  }

  lemma {:induction false} Pow2Grows(m: nat, n: nat)
    requires m <= n
    ensures Pow2(m) <= Pow2(n)
  {
    if m < n {
      Pow2Grows(m, n - 1);
    }
  }

  /** Bit k of a mask. */
  predicate Bit(mask: nat, k: nat) {
    if k == 0 then mask % 2 == 1 else Bit(mask / 2, k - 1)
  }

  lemma {:induction false} SetBit(mask: nat, k: nat, j: nat)
    requires !Bit(mask, k)
    ensures Bit(mask + Pow2(k), j) <==> Bit(mask, j) || j == k
  {
    if k == 0 {
      assert (mask + 1) / 2 == mask / 2;
    } else {
      assert (mask + Pow2(k)) / 2 == mask / 2 + Pow2(k - 1);
      if j > 0 {
        SetBit(mask / 2, k - 1, j - 1);
      }
    }
  }

  lemma {:induction false} ClearBit(mask: nat, k: nat, j: nat)
    requires Bit(mask, k)
    ensures mask >= Pow2(k)
    ensures Bit(mask - Pow2(k), j) <==> Bit(mask, j) && j != k
  {
    if k == 0 {
      assert (mask - 1) / 2 == mask / 2;
    } else {
      ClearBit(mask / 2, k - 1, if j > 0 then j - 1 else 0);
      assert (mask - Pow2(k)) / 2 == mask / 2 - Pow2(k - 1);
    }
  }

  lemma {:induction false} SetBitFits(mask: nat, k: nat, n: nat)
    requires !Bit(mask, k) && k < n && mask < Pow2(n)
    ensures mask + Pow2(k) < Pow2(n)
  {
    if k > 0 {
      SetBitFits(mask / 2, k - 1, n - 1);
    }
  }

  lemma {:induction false} PowPositive(n: nat)
    ensures Pow2(n) >= 1
  {
    if n > 0 {
      PowPositive(n - 1);
    }
  }

  lemma OddHalf(h: nat)
    requires h >= 1
    ensures (2 * h - 1) / 2 == h - 1 && (2 * h - 1) % 2 == 1
  {
  }

  lemma {:induction false} FullHasAll(n: nat, k: nat)
    requires k < n
    ensures Pow2(n) >= 1 && Bit(Pow2(n) - 1, k)
  {
    PowPositive(n - 1);
    OddHalf(Pow2(n - 1));
    if k > 0 {
      FullHasAll(n - 1, k - 1);
    }
  }

  lemma {:induction false} AllBitsIsFull(mask: nat, n: nat)
    requires mask < Pow2(n) && forall k: nat :: k < n ==> Bit(mask, k)
    ensures mask == Pow2(n) - 1
  {
    if n > 0 {
      assert Bit(mask, 0);
      forall k: nat | k < n - 1 ensures Bit(mask / 2, k) {
        assert Bit(mask, k + 1);
      }
      AllBitsIsFull(mask / 2, n - 1);
    }
  }

  lemma {:induction false} OneHasOnlyZero(k: nat)
    ensures Bit(1, k) <==> k == 0
    ensures !Bit(0, k)
  {
    if k > 0 {
      OneHasOnlyZero(k - 1);
    }
  }
}
