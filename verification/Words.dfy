/** Unsigned machine words and the bitwise operators of C on them, digit by digit in base 2. */
module Words {
  import opened Basics

  const WORD_BITS := 32

  /** `1 << j`. */
  function Mask(j: nat): (m: nat)
    ensures m > 0
  {
    if j == 0 then 1 else 2 * Mask(j - 1)
  }

  /** `x | y`. */
  function Or(x: nat, y: nat): nat
    decreases x + y
  {
    if x == 0 && y == 0 then 0
    else 2 * Or(x / 2, y / 2) + if x % 2 == 1 || y % 2 == 1 then 1 else 0
  }

  /** `x & y`. */
  function And(x: nat, y: nat): nat
    decreases x + y
  {
    if x == 0 && y == 0 then 0
    else 2 * And(x / 2, y / 2) + if x % 2 == 1 && y % 2 == 1 then 1 else 0
  }

  /** `x & ~y`. */
  function AndNot(x: nat, y: nat): nat
    decreases x + y
  {
    if x == 0 && y == 0 then 0
    else 2 * AndNot(x / 2, y / 2) + if x % 2 == 1 && y % 2 == 0 then 1 else 0
  }

  /** Binary digit `k` of `x`. */
  predicate Bit(x: nat, k: nat) {
    if k == 0 then x % 2 == 1 else Bit(x / 2, k - 1)
  }

  lemma {:induction false} ZeroBits(k: nat)
    ensures !Bit(0, k)
  {
    if k > 0 {
      ZeroBits(k - 1);
    }
  }

  lemma {:induction false} OrBits(x: nat, y: nat, k: nat)
    ensures Bit(Or(x, y), k) <==> Bit(x, k) || Bit(y, k)
  {
    if x == 0 && y == 0 {
      ZeroBits(k);
    } else if k > 0 {
      OrBits(x / 2, y / 2, k - 1);
    }
  }

  lemma {:induction false} AndBits(x: nat, y: nat, k: nat)
    ensures Bit(And(x, y), k) <==> Bit(x, k) && Bit(y, k)
  {
    if x == 0 && y == 0 {
      ZeroBits(k);
    } else if k > 0 {
      AndBits(x / 2, y / 2, k - 1);
    }
  }

  lemma {:induction false} AndNotBits(x: nat, y: nat, k: nat)
    ensures Bit(AndNot(x, y), k) <==> Bit(x, k) && !Bit(y, k)
  {
    if x == 0 && y == 0 {
      ZeroBits(k);
    } else if k > 0 {
      AndNotBits(x / 2, y / 2, k - 1);
    }
  }

  lemma {:induction false} OperatorBounds(x: nat, y: nat, n: nat)
    requires x < Mask(n) && y < Mask(n)
    ensures Or(x, y) < Mask(n) && And(x, y) < Mask(n) && AndNot(x, y) < Mask(n)
  {
    if n > 0 && !(x == 0 && y == 0) {
      OperatorBounds(x / 2, y / 2, n - 1);
    }
  }

  lemma {:induction false} MaskBits(j: nat, k: nat)
    ensures Bit(Mask(j), k) <==> j == k
  {
    if j > 0 && k > 0 {
      MaskBits(j - 1, k - 1);
    } else if k > 0 {
      ZeroBits(k - 1);
    }
  }

  lemma {:induction false} MaskGrows(j: nat, k: nat)
    requires j < k
    ensures Mask(j) < Mask(k)
  {
    if j < k - 1 {
      MaskGrows(j, k - 1);
    }
  }

  lemma WordMask()
    ensures Mask(WORD_BITS) == U32_LIMIT
  {
    assert Mask(8) == 0x100;
    assert Mask(16) == 0x1_0000;
    assert Mask(24) == 0x100_0000;
  }

  /** Words with the same binary digits are equal. */
  lemma {:induction false} SameBitsSameWord(x: nat, y: nat, n: nat)
    requires x < Mask(n) && y < Mask(n)
    requires forall k: nat :: k < n ==> (Bit(x, k) <==> Bit(y, k))
    ensures x == y
  {
    if n > 0 {
      assert Bit(x, 0) <==> Bit(y, 0);
      forall k: nat | k < n - 1
        ensures Bit(x / 2, k) <==> Bit(y / 2, k)
      {
        assert Bit(x, k + 1) <==> Bit(y, k + 1);
      }
      SameBitsSameWord(x / 2, y / 2, n - 1);
    }
  }

  lemma {:induction false} AllOnes(n: nat, k: nat)
    requires k < n
    ensures Bit(Mask(n) - 1, k)
  {
    if k > 0 {
      AllOnes(n - 1, k - 1);
      assert (Mask(n) - 1) / 2 == Mask(n - 1) - 1;
    }
  }

  // ---------------------------------------------------------------- what the page allocator uses

  /** The C test `x & (1 << j)`. */
  lemma BitTest(x: nat, j: nat)
    ensures And(x, Mask(j)) != 0 <==> Bit(x, j)
  {
    AndBits(x, Mask(j), j);
    MaskBits(j, j);
    ZeroBits(j);
    if And(x, Mask(j)) != 0 {
      var k := SomeBit(And(x, Mask(j)));
      AndBits(x, Mask(j), k);
      MaskBits(j, k);
    }
  }

  lemma {:induction false} SomeBit(x: nat) returns (k: nat)
    requires x != 0
    ensures Bit(x, k)
  {
    if x % 2 == 1 {
      k := 0;
    } else {
      k := SomeBit(x / 2);
      k := k + 1;
    }
  }

  /** `|= 1 << j` sets, and `&= ~(1 << j)` clears, binary digit j and no other. */
  lemma SetAndClear(w: nat, j: nat, k: nat)
    ensures Bit(Or(w, Mask(j)), k) <==> j == k || Bit(w, k)
    ensures Bit(AndNot(w, Mask(j)), k) <==> j != k && Bit(w, k)
  {
    OrBits(w, Mask(j), k);
    AndNotBits(w, Mask(j), k);
    MaskBits(j, k);
  }

  lemma WordStaysWord(w: nat, j: nat)
    requires w < U32_LIMIT && j < WORD_BITS
    ensures Or(w, Mask(j)) < U32_LIMIT && AndNot(w, Mask(j)) < U32_LIMIT
  {
    WordMask();
    MaskGrows(j, WORD_BITS);
    OperatorBounds(w, Mask(j), WORD_BITS);
  }

  /** A clear digit set and cleared again leaves the word as it was, bit for bit. */
  lemma SetThenClear(w: nat, j: nat)
    requires w < U32_LIMIT && j < WORD_BITS && !Bit(w, j)
    ensures AndNot(Or(w, Mask(j)), Mask(j)) == w
  {
    WordMask();
    WordStaysWord(w, j);
    WordStaysWord(Or(w, Mask(j)), j);
    forall k: nat | k < WORD_BITS
      ensures Bit(AndNot(Or(w, Mask(j)), Mask(j)), k) <==> Bit(w, k)
    {
      SetAndClear(w, j, k);
      SetAndClear(Or(w, Mask(j)), j, k);
    }
    SameBitsSameWord(AndNot(Or(w, Mask(j)), Mask(j)), w, WORD_BITS);
  }

  /** The test against 0xFFFFFFFF passes over a word with every digit set ... */
  lemma FullWordHas(w: nat, k: nat)
    requires w == U32_LIMIT - 1 && k < WORD_BITS
    ensures Bit(w, k)
  {
    WordMask();
    AllOnes(WORD_BITS, k);
  }

  /** ... and stops at any other word, which has a clear digit. */
  lemma OtherWordLacks(w: nat) returns (k: nat)
    requires w < U32_LIMIT - 1
    ensures k < WORD_BITS && !Bit(w, k)
  {
    k := 0;
    while k < WORD_BITS && Bit(w, k)
      invariant k <= WORD_BITS
      invariant forall j: nat :: j < k ==> Bit(w, j)
    {
      k := k + 1;
    }
    if k == WORD_BITS {
      WordMask();
      var ones: nat := U32_LIMIT - 1;
      forall j: nat | j < WORD_BITS
        ensures Bit(ones, j)
      {
        FullWordHas(ones, j);
      }
      SameBitsSameWord(w, ones, WORD_BITS);
    }
  }
}
