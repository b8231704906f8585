/** Single bits of a 32-bit unsigned word. */
module Bits {
  function Shl(m: bv32): bv32 {
    m << 1
  }

  function Or(b: bv32, m: bv32): bv32 {
    b | m
  }

  predicate Test(b: bv32, m: bv32) {
    b & m != 0
  }

  /** The mask of position `i`: 1 shifted `i` times in 32 bits. */
  function Mask(i: nat): bv32 {
    if i == 0 then 1 else Shl(Mask(i - 1))
  }

  /** One bit, or none. */
  predicate Single(m: bv32) {
    m & (m - 1) == 0
  }

  /** No bit of `n` is at or below the bit of `m`. */
  predicate Above(n: bv32, m: bv32) {
    n & (m | (m - 1)) == 0
  }

  lemma ShlFacts(m: bv32, n: bv32)
    ensures Single(1)
    ensures Single(m) ==> Single(Shl(m)) && Above(Shl(m), m)
    ensures Single(m) && Above(n, m) ==> Above(Shl(n), m) && !Test(n, m) && !Test(m, n)
    ensures Shl(m) != 0 ==> m != 0
    ensures m == 0 ==> Shl(m) == 0
  {
  }

  lemma OrOwn(b: bv32, m: bv32)
    requires m != 0
    ensures Test(Or(b, m), m)
  {
    assert (b | m) & m == m;
  }

  lemma OrOther(b: bv32, m: bv32, w: bv32)
    requires !Test(m, w)
    ensures Test(Or(b, m), w) <==> Test(b, w)
  {
    hide Test, Or;
    OrKeeps(b, m, w);
    OrAdds(b, m, w);
  }

  lemma OrKeeps(b: bv32, m: bv32, w: bv32)
    requires !Test(m, w)
    ensures Test(b, w) ==> Test(Or(b, m), w)
  {
  }

  lemma OrAdds(b: bv32, m: bv32, w: bv32)
    requires !Test(m, w)
    ensures !Test(b, w) ==> !Test(Or(b, m), w)
  {
  }

  lemma TestZero(b: bv32)
    ensures !Test(b, 0) && !Test(0, b)
  {
  }

  lemma {:induction false} MaskSingle(i: nat)
    ensures Single(Mask(i))
  {
    hide Shl, Single;
    if i > 0 {
      MaskSingle(i - 1);
      ShlFacts(Mask(i - 1), 0);
    } else {
      ShlFacts(1, 0);
    }
  }

  lemma {:induction false} MasksDisjoint(i: nat, j: nat)
    requires i < j
    ensures Above(Mask(j), Mask(i)) && !Test(Mask(i), Mask(j)) && !Test(Mask(j), Mask(i))
    decreases j
  {
    hide Shl, Single, Above, Test;
    MaskSingle(i);
    if j > i + 1 {
      MasksDisjoint(i, j - 1);
    }
    ShlFacts(Mask(i), Mask(j - 1));
    ShlFacts(Mask(i), Mask(j));
  }

  lemma EightShifts(i: nat)
    ensures Mask(i + 8) == ShlEight(Mask(i))
  {
    hide Shl;
    assert Mask(i + 2) == Shl(Shl(Mask(i)));
    assert Mask(i + 4) == Shl(Shl(Mask(i + 2)));
    assert Mask(i + 6) == Shl(Shl(Mask(i + 4)));
    assert Mask(i + 8) == Shl(Shl(Mask(i + 6)));
  }

  function ShlEight(m: bv32): bv32 {
    Shl(Shl(Shl(Shl(Shl(Shl(Shl(Shl(m))))))))
  }

  lemma ShlEightValues()
    ensures ShlEight(ShlEight(ShlEight(1))) == 0x100_0000
    ensures ShlEight(ShlEight(ShlEight(ShlEight(1)))) == 0
    ensures Shl(Shl(Shl(Shl(Shl(Shl(Shl(0x100_0000))))))) == 0x8000_0000
  {
  }

  /** The mask is zero exactly when the bit has been shifted out. */
  lemma {:induction false} MaskZero(i: nat)
    ensures Mask(i) == 0 <==> i >= 32
    decreases if i < 31 then 31 - i else if i == 31 then 0 else i
  {
    hide Shl, ShlEight;
    if i < 31 {
      MaskZero(i + 1);
      ShlFacts(Mask(i), 0);
    } else if i <= 32 {
      ShlEightValues();
      EightShifts(0);
      EightShifts(8);
      EightShifts(16);
      EightShifts(24);
      SevenMore();
    } else {
      MaskZero(i - 1);
      ShlFacts(Mask(i - 1), 0);
    }
  }

  lemma SevenMore()
    ensures Mask(31) == Shl(Shl(Shl(Shl(Shl(Shl(Shl(Mask(24))))))))
  {
    hide Shl;
    assert Mask(26) == Shl(Shl(Mask(24)));
    assert Mask(28) == Shl(Shl(Mask(26)));
    assert Mask(30) == Shl(Shl(Mask(28)));
  }

  lemma SetBit(b: bv32, n: nat, i: nat)
    ensures Test(Or(b, Mask(n)), Mask(i)) <==> Test(b, Mask(i)) || (i == n && i < 32)
  {
    hide Mask, Test, Or;
    MaskZero(i);
    if i >= 32 {
      TestZero(b);
      TestZero(Or(b, Mask(n)));
    } else if i == n {
      OrOwn(b, Mask(i));
    } else {
      MasksDisjoint(if i < n then i else n, if i < n then n else i);
      OrOther(b, Mask(n), Mask(i));
    }
  }

  lemma MaskStep(i: nat)
    ensures Mask(0) == 1 && Mask(i + 1) == Shl(Mask(i))
  {
    hide Shl;
  }
}
