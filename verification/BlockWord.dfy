/** Bits of a machine word, here of the allocator's `binblocks`. */
module BlockWord {
  import opened Arithmetic

  /** `w & (1 << k)` is not zero. */
  predicate TestBit(w: nat, k: nat) {
    if k == 0 then w % 2 == 1 else TestBit(w / 2, k - 1)
  }

  /** `w | (1 << k)` */
  function SetBit(w: nat, k: nat): nat {
    if k == 0 then w - w % 2 + 1 else 2 * SetBit(w / 2, k - 1) + w % 2
  }

  /** `w & ~(1 << k)` */
  function ClearBit(w: nat, k: nat): nat {
    if k == 0 then w - w % 2 else 2 * ClearBit(w / 2, k - 1) + w % 2
  }

  lemma {:induction false} SetBitTest(w: nat, k: nat, j: nat)
    ensures TestBit(SetBit(w, k), j) <==> j == k || TestBit(w, j)
  {
    if k > 0 && j > 0 {
      SetBitTest(w / 2, k - 1, j - 1);
    }
  }

  lemma {:induction false} ClearBitTest(w: nat, k: nat, j: nat)
    ensures TestBit(ClearBit(w, k), j) <==> j != k && TestBit(w, j)
  {
    if k > 0 && j > 0 {
      ClearBitTest(w / 2, k - 1, j - 1);
    }
  }

  /** The comparison `(1 << k) <= w` says that a bit at `k` or above is set. */
  lemma {:induction false} BitAtOrAbove(w: nat, k: nat) returns (j: nat)
    requires Pow2(k) <= w
    ensures k <= j && TestBit(w, j)
  {
    if k > 0 {
      j := BitAtOrAbove(w / 2, k - 1);
      j := j + 1;
    } else if w % 2 == 1 {
      j := 0;
    } else {
      j := BitAtOrAbove(w / 2, 0);
      j := j + 1;
    }
  }

  lemma {:induction false} NoBitAbove(w: nat, k: nat, j: nat)
    requires w < Pow2(k) && k <= j
    ensures !TestBit(w, j)
  {
    if k > 0 {
      NoBitAbove(w / 2, k - 1, j - 1);
    } else if j > 0 {
      NoBitAbove(w / 2, 0, j - 1);
    }
  }

  lemma {:induction false} SetBitBound(w: nat, k: nat, n: nat)
    requires w < Pow2(n) && k < n
    ensures SetBit(w, k) < Pow2(n)
  {
    if k > 0 {
      SetBitBound(w / 2, k - 1, n - 1);
    }
  }
}
