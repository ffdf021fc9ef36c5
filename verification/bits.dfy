/** The shift-and-or accumulation of the varint loops, on the bits of a uint64. */
module Bits {
  import opened Wire
  import opened WireLaws

  function Pow2(k: nat): nat {
    if k == 0 then 1 else 2 * Pow2(k - 1)
  }

  /** Bitwise or. */
  function Or(a: nat, b: nat): nat {
    if a == 0 then b
    else if b == 0 then a
    else (if a % 2 == 1 || b % 2 == 1 then 1 else 0) + 2 * Or(a / 2, b / 2)
  }

  /** A left shift of a uint64: the bits above bit 63 are lost. */
  function Shl64(v: nat, shift: nat): nat {
    v * Pow2(shift) % UINT64
  }

  /** Or of bits below `k` with bits from `k` on is addition. */
  lemma {:induction false} OrDisjoint(a: nat, g: nat, k: nat)
    requires a < Pow2(k)
    ensures Or(a, g * Pow2(k)) == a + g * Pow2(k)
  {
    if k > 0 && a != 0 && g != 0 {
      var p := Pow2(k - 1);
      assert g * Pow2(k) == 2 * (g * p) by { Twice(g, p); }
      assert g * p > 0 by { Positive(g, p); }
      OrDisjoint(a / 2, g, k - 1);
    }
  }

  lemma Twice(g: nat, p: nat)
    ensures g * (2 * p) == 2 * (g * p)
  {
  }

  lemma Positive(g: nat, p: nat)
    requires g > 0 && p > 0
    ensures g * p > 0
  {
  }

  lemma {:induction false} Pow2Seven(k: nat)
    ensures Pow2(7 * k) == Pow128(k)
  {
    if k > 0 {
      Pow2Seven(k - 1);
      assert Pow2(7 * k) == 2 * Pow2(7 * k - 1) == 4 * Pow2(7 * k - 2) == 8 * Pow2(7 * k - 3);
      assert Pow2(7 * k - 3) == 2 * Pow2(7 * k - 4) == 4 * Pow2(7 * k - 5) == 8 * Pow2(7 * k - 6);
      assert Pow2(7 * k - 6) == 2 * Pow2(7 * (k - 1));
    }
  }

  lemma {:induction false} GroupsSnoc(b: Bytes, c: byte)
    ensures Groups(b + [c]) == Groups(b) + c % 128 * Pow128(|b|)
  {
    if b == [] {
      assert (b + [c])[1..] == [];
    } else {
      assert (b + [c])[1..] == b[1..] + [c];
      GroupsSnoc(b[1..], c);
      Spread(c % 128, Pow128(|b| - 1));
    }
  }

  lemma Spread(g: nat, p: nat)
    ensures 128 * (g * p) == g * (128 * p)
  {
  }

  lemma {:induction false} Pow128Monotone(j: nat, k: nat)
    requires j <= k
    ensures Pow128(j) <= Pow128(k)
    decreases k
  {
    if j < k {
      Pow128Monotone(j, k - 1);
    }
  }

  lemma Larger(g: nat, p: nat, q: nat)
    requires g <= 127 && p <= q
    ensures g * p <= 127 * q
  {
  }

  /** A group at shift 0 to 56 fits. */
  lemma InnerGroup(a: nat, g: nat, k: nat)
    requires k <= 8 && a < Pow128(k) && g < 128
    ensures Or(a, Shl64(g, 7 * k)) == a + g * Pow128(k) < UINT64
  {
    hide Pow128, Pow2, Or;
    Pow2Seven(k);
    Pow128Concrete();
    Pow128Monotone(k, 8);
    Larger(g, Pow128(k), Pow128(8));
    OrDisjoint(a, g, 7 * k);
  }

  /** Of a group at shift 63 only the lowest bit is kept. */
  lemma LastGroup(a: nat, g: nat)
    requires a < INT_LIMIT && g < 128
    ensures Or(a, Shl64(g, 63)) == (a + g * INT_LIMIT) % UINT64
  {
    hide Pow128, Pow2, Or;
    Pow2Seven(9);
    Pow128Concrete();
    var low := g % 2;
    assert g * INT_LIMIT == low * INT_LIMIT + g / 2 * UINT64;
    OrDisjoint(a, low, 63);
  }

  /** One pass of a varint loop: or-ing the next group in at its shift adds it, modulo
      2^64, to the sum of the groups before. */
  lemma AccumulateGroup(b: Bytes, c: byte)
    requires |b| < MAX_VARINT
    ensures Or(Groups(b) % UINT64, Shl64(c % 128, 7 * |b|)) == Groups(b + [c]) % UINT64
  {
    hide Pow128, Pow2, Or, Shl64, Groups;
    var k := |b|;
    GroupsBound(b);
    GroupsSnoc(b, c);
    Pow128Concrete();
    Pow128Monotone(k, 9);
    assert Groups(b) % UINT64 == Groups(b) by { SmallMod(Groups(b)); }
    if k == 9 {
      LastGroup(Groups(b), c % 128);
    } else {
      InnerGroup(Groups(b), c % 128, k);
      SmallMod(Groups(b + [c]));
    }
  }

  lemma SmallMod(v: nat)
    requires v < UINT64
    ensures v % UINT64 == v
  {
  }

  /** `bits.Len64`: the number of bits needed for `v`. */
  function BitLength(v: nat): nat {
    if v == 0 then 0 else 1 + BitLength(v / 2)
  }

  lemma BitLengthHalf(v: nat)
    requires v > 0
    ensures BitLength(v) == 1 + BitLength(v / 2)
  {
  }

  lemma BitLengthQuarter(v: nat)
    requires v >= 4
    ensures BitLength(v) == 2 + BitLength(v / 4)
  {
    assert v / 2 / 2 == v / 4;
  }

  lemma BitLengthGroup(v: nat)
    requires v >= 128
    ensures BitLength(v) == 7 + BitLength(v / 128)
  {
    hide BitLength;
    BitLengthQuarter(v);
    BitLengthQuarter(v / 4);
    BitLengthQuarter(v / 16);
    assert v / 4 / 4 == v / 16 && v / 16 / 4 == v / 64 && v / 64 / 2 == v / 128;
    assert BitLength(v / 64) == 1 + BitLength(v / 64 / 2) by { BitLengthHalf(v / 64); }
  }

  /** Setting the lowest bit changes the length of 0 alone. */
  lemma OrOne(v: nat)
    ensures Or(v, 1) == v + 1 - v % 2
    ensures BitLength(Or(v, 1)) == if v == 0 then 1 else BitLength(v)
  {
    assert Or(v / 2, 0) == v / 2;
  }

  lemma {:induction false} BitLengthBelow(v: nat, k: nat)
    requires v < Pow2(k)
    ensures BitLength(v) <= k
  {
    if v != 0 {
      BitLengthBelow(v / 2, k - 1);
    }
  }

  /** `Sov` without a loop: seven bits to a byte, and at least one byte. */
  lemma {:induction false} SovIsBitLength(v: nat)
    ensures Sov(v) == (BitLength(Or(v, 1)) + 6) / 7
  {
    OrOne(v);
    if v < 128 {
      BitLengthBelow(Or(v, 1), 7);
    } else {
      SovIsBitLength(v / 128);
      OrOne(v / 128);
      BitLengthGroup(v);
    }
  }
}
