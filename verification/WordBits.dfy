/** A 32-bit word as 32 independent bits: or-ing in `1 << a` and masking with
    `~(1 << a)` change bit a and no other. */
module WordBits {

  /** 1 << b. */
  function Mask(b: nat): bv32 {
    if b == 0 then 1 else Mask(b - 1) << 1
  }

  predicate Bit(w: bv32, m: bv32) { w & m != 0 }

  predicate Disjoint(m: bv32, n: bv32) { m & n == 0 }

  /** w |= m, or w &= ~m. */
  function SetTo(w: bv32, m: bv32, on: bool): bv32 { if on then w | m else w & !m }

  /** Setting the bits of m leaves those of n. */
  predicate Keeps(w: bv32, m: bv32, n: bv32, on: bool) { Bit(SetTo(w, m, on), n) == Bit(w, n) }

  /** Setting the bits of m sets them. */
  predicate Sets(w: bv32, m: bv32, on: bool) { Bit(SetTo(w, m, on), m) == on }

  // ---- Facts about single operations: no masks, so that each is one bit-vector question -----

  lemma OrKeeps(w: bv32, m: bv32, n: bv32)
    requires Disjoint(m, n)
    ensures Keeps(w, m, n, true)
  {}

  predicate Within(n: bv32, x: bv32) { x & n == n }

  predicate KeptBy(w: bv32, x: bv32, n: bv32) { Bit(w & x, n) == Bit(w, n) }

  lemma AndWithin(w: bv32, x: bv32, n: bv32)
    requires Within(n, x)
    ensures KeptBy(w, x, n)
  {}

  lemma NotOfDisjoint(m: bv32, n: bv32)
    requires Disjoint(m, n)
    ensures Within(n, !m)
  {}

  lemma KeptIsKeeps(w: bv32, m: bv32, n: bv32, x: bv32)
    requires x == !m && KeptBy(w, x, n)
    ensures Keeps(w, m, n, false)
  {}

  lemma AndNotKeeps(w: bv32, m: bv32, n: bv32)
    requires Disjoint(m, n)
    ensures Keeps(w, m, n, false)
  {
    NotOfDisjoint(m, n);
    AndWithin(w, !m, n);
    KeptIsKeeps(w, m, n, !m);
  }

  lemma OrSets(w: bv32, m: bv32)
    requires m != 0
    ensures Sets(w, m, true)
  {}

  lemma AndNotClears(w: bv32, m: bv32)
    ensures Sets(w, m, false)
  {}

  lemma ShiftedDisjoint(x: bv32, y: bv32)
    requires Disjoint(x, y)
    ensures Disjoint(x << 1, y << 1)
  {}

  lemma OneDisjoint(x: bv32)
    ensures Disjoint(1, x << 1) && Disjoint(x << 1, 1)
  {}

  predicate Nonzero(x: bv32) { x != 0 }

  lemma ShiftedNonzero(x: bv32)
    requires Nonzero(x) && Disjoint(x, 0x8000_0000)
    ensures Nonzero(x << 1)
  {}

  // ---- Masks --------------------------------------------------------------------------------

  lemma {:induction false} MasksDisjoint(a: nat, b: nat)
    requires a != b
    ensures Disjoint(Mask(a), Mask(b))
    decreases a + b
  {
    if a == 0 {
      OneDisjoint(Mask(b - 1));
    } else if b == 0 {
      OneDisjoint(Mask(a - 1));
    } else {
      MasksDisjoint(a - 1, b - 1);
      ShiftedDisjoint(Mask(a - 1), Mask(b - 1));
    }
  }

  lemma TopMask()
    ensures Mask(31) == 0x8000_0000
  {
    assert Mask(8) == 0x100;
    assert Mask(16) == 0x1_0000;
    assert Mask(24) == 0x100_0000;
  }

  lemma {:induction false} MaskNonzero(a: nat)
    requires a < 32
    ensures Nonzero(Mask(a))
  {
    if a > 0 {
      MaskNonzero(a - 1);
      MasksDisjoint(a - 1, 31);
      TopMask();
      ShiftedNonzero(Mask(a - 1));
    }
  }

  /** What setting bit a to `on` does to bit b. */
  predicate OneBit(w: bv32, a: nat, b: nat, on: bool) {
    Bit(SetTo(w, Mask(a), on), Mask(b)) == if a == b then on else Bit(w, Mask(b))
  }

  lemma SameBit(w: bv32, a: nat, on: bool)
    requires a < 32
    ensures Sets(w, Mask(a), on)
  {
    MaskNonzero(a);
    if on { OrSets(w, Mask(a)); } else { AndNotClears(w, Mask(a)); }
  }

  lemma OtherBit(w: bv32, a: nat, b: nat, on: bool)
    requires a != b
    ensures Keeps(w, Mask(a), Mask(b), on)
  {
    MasksDisjoint(a, b);
    if on { OrKeeps(w, Mask(a), Mask(b)); } else { AndNotKeeps(w, Mask(a), Mask(b)); }
  }

  /** w |= 1 << a and w &= ~(1 << a) change bit a and no other. */
  lemma OneBitChanges(w: bv32, a: nat, b: nat, on: bool)
    requires a < 32 && b < 32
    ensures OneBit(w, a, b, on)
  {
    if a == b { SameBit(w, a, on); } else { OtherBit(w, a, b, on); }
  }

  predicate Blank(w: bv32, m: bv32) { !Bit(w, m) }

  lemma ZeroWord(m: bv32)
    ensures Blank(0, m)
  {}
}
