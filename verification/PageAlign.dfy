/** The page rounding of memory.h, on 64-bit addresses that wrap. */
module PageAlign {
  import opened Bytes
  import opened Bits

  const PAGE_SIZE: nat := 4096
  const PAGE_SHIFT: nat := 12
  const WIDTH: nat := 64

  lemma Constants()
    ensures Pow2(PAGE_SHIFT) == PAGE_SIZE && Pow2(WIDTH) == U64_SPAN
  {
    assert Pow2(12) == 4096;
    assert Pow2(16) == 0x1_0000;
    Pow2Sum(16, 16);
    Pow2Sum(32, 32);
  }

  function AlignUp(p: u64): nat {
    And(Add64(p, PAGE_SIZE - 1), U64_SPAN - PAGE_SIZE)
  }

  function AlignDown(p: u64): nat {
    And(p, U64_SPAN - PAGE_SIZE)
  }

  predicate IsAlign(p: u64) {
    And(p, PAGE_SIZE - 1) == 0
  }

  lemma IsAlignExactly(p: u64)
    ensures IsAlign(p) <==> p % PAGE_SIZE == 0
  {
    Constants();
    AndOfLowBits(p, PAGE_SHIFT);
  }

  /** No page boundary lies between an address and the boundary below it. */
  lemma BoundaryBelow(p: nat, q: nat)
    requires q % PAGE_SIZE == 0 && q <= p
    ensures q <= p - p % PAGE_SIZE
  {
    var i, j := q / PAGE_SIZE, p / PAGE_SIZE;
    assert q == PAGE_SIZE * i && p == PAGE_SIZE * j + p % PAGE_SIZE;
    assert i <= j;
  }

  lemma AlignDownIs(p: u64)
    ensures AlignDown(p) == p - p % PAGE_SIZE && IsAlign(AlignDown(p))
  {
    Constants();
    AndOfHighBits(p, PAGE_SHIFT, WIDTH);
    IsAlignExactly(AlignDown(p));
  }

  /** Rounding down gives the greatest page boundary that is not above the address. */
  lemma AlignDownIsGreatest(p: u64)
    ensures AlignDown(p) <= p && IsAlign(AlignDown(p))
    ensures forall q: u64 :: IsAlign(q) && q <= p ==> q <= AlignDown(p)
  {
    AlignDownIs(p);
    forall q: u64 | IsAlign(q) && q <= p
      ensures q <= AlignDown(p)
    {
      IsAlignExactly(q);
      BoundaryBelow(p, q);
    }
  }

  lemma BoundaryAbove(p: nat, q: nat)
    requires q % PAGE_SIZE == 0 && p <= q
    ensures p + PAGE_SIZE - 1 - (p + PAGE_SIZE - 1) % PAGE_SIZE <= q
  {
    var i, j, s := q / PAGE_SIZE, (p + PAGE_SIZE - 1) / PAGE_SIZE, p + PAGE_SIZE - 1;
    assert q == PAGE_SIZE * i && s == PAGE_SIZE * j + s % PAGE_SIZE;
    assert j <= i;
  }

  lemma AlignUpIs(p: u64)
    ensures var sum := Add64(p, PAGE_SIZE - 1);
            AlignUp(p) == sum - sum % PAGE_SIZE && IsAlign(AlignUp(p))
  {
    AlignDownIs(Add64(p, PAGE_SIZE - 1));
  }

  /**
   Rounding up gives the least page boundary that is not below the address exactly when there is
   one; above the last boundary the sum wraps and the answer is 0.
   */
  lemma AlignUpIsLeast(p: u64)
    ensures AlignUp(p) < U64_SPAN && IsAlign(AlignUp(p))
    ensures p <= AlignUp(p) <==> p <= U64_SPAN - PAGE_SIZE
    ensures p <= U64_SPAN - PAGE_SIZE ==> forall q: u64 :: IsAlign(q) && p <= q ==> AlignUp(p) <= q
    ensures p > U64_SPAN - PAGE_SIZE ==> AlignUp(p) == 0
  {
    AlignUpIs(p);
    forall q: u64 | p <= U64_SPAN - PAGE_SIZE && IsAlign(q) && p <= q
      ensures AlignUp(p) <= q
    {
      IsAlignExactly(q);
      BoundaryAbove(p, q);
    }
  }
}
