/**
 * `math.c`: the logarithm that rounds the size of memory up to a power of two,
 * in the form that GNU compilers get and in the portable one.
 */
module Log2 {
  import opened Types

  const WORD := 0x1_0000_0000

  function Pow2(k: nat): (p: nat)
    ensures p > 0
  {
    if k == 0 then 1 else 2 * Pow2(k - 1)
  }

  /** The number of bits of v. */
  function BitLength(v: nat): nat {
    if v == 0 then 0 else 1 + BitLength(v / 2)
  }

  lemma {:induction false} BitLengthBounds(v: nat)
    requires v > 0
    ensures Pow2(BitLength(v) - 1) <= v < Pow2(BitLength(v))
  {
    if v > 1 {
      BitLengthBounds(v / 2);
    }
  }

  lemma {:induction false} Pow2Grows(i: nat, j: nat)
    requires i < j
    ensures Pow2(i) < Pow2(j) && 2 * Pow2(i) <= Pow2(j)
    decreases j
  {
    if i < j - 1 {
      Pow2Grows(i, j - 1);
    }
  }

  /** `__builtin_clzl`, which is defined for numbers other than 0. */
  function LeadingZeros(v: nat): int
    requires 0 < v < WORD
  {
    32 - BitLength(v)
  }

  /** `llog2` and `ilog2` with `__GNUC__`, on 32-bit words. */
  function GnuLog2(x: nat): int
    requires x < WORD
  {
    if x <= 1 then 0 else 32 - LeadingZeros(x - 1)
  }

  /** The GNU form is the least exponent whose power of two is not below x. */
  lemma {:induction false} GnuIsCeiling(x: nat)
    requires x < WORD
    ensures 0 <= GnuLog2(x) <= 32 && x <= Pow2(GnuLog2(x))
    ensures forall j: nat :: x <= Pow2(j) ==> GnuLog2(x) <= j
  {
    if x > 1 {
      BitLengthBounds(x - 1);
      var b := BitLength(x - 1);
      WordBits();
      assert b <= 32 by {
        if 32 < b - 1 { Pow2Grows(32, b - 1); }
      }
      forall j: nat | x <= Pow2(j)
        ensures b <= j
      {
        if j < b - 1 { Pow2Grows(j, b - 1); }
      }
    }
  }

  lemma WordBits()
    ensures Pow2(30) == 0x4000_0000 && Pow2(31) == 0x8000_0000 && Pow2(32) == WORD
  {
    assert Pow2(8) == 0x100;
    assert Pow2(16) == 0x1_0000;
    assert Pow2(24) == 0x100_0000;
  }

  /**
   * `1 << llog2(memory_size)`. The shifted 1 is an int, so the result is defined for shifts
   * below 31 only; None stands for the rest.
   */
  function RoundUp(size: nat): Option<nat>
    requires size < WORD
  {
    var shift := GnuLog2(size);
    if 0 <= shift < 31 then Some(Pow2(shift)) else None
  }

  /** Rounding is defined exactly for sizes up to 2 to the 30th, and is the least power of two that is large enough. */
  lemma {:induction false} RoundUpIsLeast(size: nat)
    requires size < WORD
    ensures RoundUp(size).Some? <==> size <= 0x4000_0000
    ensures size <= 0x4000_0000 ==>
              var p := RoundUp(size).value;
              size <= p && (exists k: nat :: p == Pow2(k)) && forall j: nat :: size <= Pow2(j) ==> p <= Pow2(j)
  {
    GnuIsCeiling(size);
    WordBits();
    var k := GnuLog2(size);
    if size <= 0x4000_0000 {
      assert k <= 30;
      forall j: nat | size <= Pow2(j)
        ensures Pow2(k) <= Pow2(j)
      {
        if k < j { Pow2Grows(k, j); }
      }
    } else if k < 30 {
      Pow2Grows(k, 30);
    }
  }

  // ---------- The portable form ----------

  function Smear(x: bv32): bv32 {
    var x1 := x | (x >> 1);
    var x2 := x1 | (x1 >> 2);
    var x3 := x2 | (x2 >> 4);
    var x4 := x3 | (x3 >> 8);
    x4 | (x4 >> 16)
  }

  const TABLE: seq<int> := [
    0,  9,  1, 10, 13, 21,  2, 29,
    11, 14, 16, 18, 22, 25,  3, 30,
    8, 12, 20, 28, 15, 17, 24,  7,
    19, 27, 23,  6, 26,  5,  4, 31]

  const MAGIC: bv32 := 0x07C4ACDD

  function Lookup(product: bv32): int {
    var i := product >> 27;
    assert i < 32;
    TABLE[i as int]
  }

  function PortableLog2(x: bv32): int {
    Lookup(Smear(x) * MAGIC)
  }

  /** Smearing fills in all bits below the highest one. */
  lemma SmearFills(x: bv32)
    requires x != 0
    ensures var y := Smear(x); y != 0 && y & (y + 1) == 0 && y >> 1 < x <= y
  {
  }

  /** The multiplication sends the word of k + 1 low bits to the slot that holds k. */
  lemma TableAt0()
    ensures Lookup(0x1 * MAGIC) == 0
    ensures Lookup(0x3 * MAGIC) == 1
    ensures Lookup(0x7 * MAGIC) == 2
    ensures Lookup(0xF * MAGIC) == 3
  {
  }

  lemma TableAt4()
    ensures Lookup(0x1F * MAGIC) == 4
    ensures Lookup(0x3F * MAGIC) == 5
    ensures Lookup(0x7F * MAGIC) == 6
    ensures Lookup(0xFF * MAGIC) == 7
  {
  }

  lemma TableAt8()
    ensures Lookup(0x1FF * MAGIC) == 8
    ensures Lookup(0x3FF * MAGIC) == 9
    ensures Lookup(0x7FF * MAGIC) == 10
    ensures Lookup(0xFFF * MAGIC) == 11
  {
  }

  lemma TableAt12()
    ensures Lookup(0x1FFF * MAGIC) == 12
    ensures Lookup(0x3FFF * MAGIC) == 13
    ensures Lookup(0x7FFF * MAGIC) == 14
    ensures Lookup(0xFFFF * MAGIC) == 15
  {
  }

  lemma TableAt16()
    ensures Lookup(0x1FFFF * MAGIC) == 16
    ensures Lookup(0x3FFFF * MAGIC) == 17
    ensures Lookup(0x7FFFF * MAGIC) == 18
    ensures Lookup(0xFFFFF * MAGIC) == 19
  {
  }

  lemma TableAt20()
    ensures Lookup(0x1FFFFF * MAGIC) == 20
    ensures Lookup(0x3FFFFF * MAGIC) == 21
    ensures Lookup(0x7FFFFF * MAGIC) == 22
    ensures Lookup(0xFFFFFF * MAGIC) == 23
  {
  }

  lemma TableAt24()
    ensures Lookup(0x1FFFFFF * MAGIC) == 24
    ensures Lookup(0x3FFFFFF * MAGIC) == 25
    ensures Lookup(0x7FFFFFF * MAGIC) == 26
    ensures Lookup(0xFFFFFFF * MAGIC) == 27
  {
  }

  lemma TableAt28()
    ensures Lookup(0x1FFFFFFF * MAGIC) == 28
    ensures Lookup(0x3FFFFFFF * MAGIC) == 29
    ensures Lookup(0x7FFFFFFF * MAGIC) == 30
    ensures Lookup(0xFFFFFFFF * MAGIC) == 31
  {
  }

  lemma OnlyOnes(y: bv32)
    requires y != 0 && y & (y + 1) == 0
    ensures y in {0x1, 0x3, 0x7, 0xF, 0x1F, 0x3F, 0x7F, 0xFF} ||
            y in {0x1FF, 0x3FF, 0x7FF, 0xFFF, 0x1FFF, 0x3FFF, 0x7FFF, 0xFFFF} ||
            y in {0x1FFFF, 0x3FFFF, 0x7FFFF, 0xFFFFF, 0x1FFFFF, 0x3FFFFF, 0x7FFFFF, 0xFFFFFF} ||
            y in {0x1FFFFFF, 0x3FFFFFF, 0x7FFFFFF, 0xFFFFFFF, 0x1FFFFFFF, 0x3FFFFFFF, 0x7FFFFFFF, 0xFFFFFFFF}
  {
  }

  /** r is the floor of the logarithm of x. */
  predicate IsFloorLog(x: nat, r: int) {
    0 <= r && Pow2(r) <= x < Pow2(r + 1)
  }

  /** Comparing words and comparing the numbers they stand for. */
  lemma OrderAt0(x: bv32)
    ensures x <= 0x1 <==> (x as nat) < 0x2
    ensures x <= 0x3 <==> (x as nat) < 0x4
    ensures x <= 0x7 <==> (x as nat) < 0x8
    ensures x <= 0xF <==> (x as nat) < 0x10
    ensures x <= 0x1F <==> (x as nat) < 0x20
    ensures x <= 0x3F <==> (x as nat) < 0x40
    ensures x <= 0x7F <==> (x as nat) < 0x80
    ensures x <= 0xFF <==> (x as nat) < 0x100
  {
  }

  lemma OrderAt8(x: bv32)
    ensures x <= 0x1FF <==> (x as nat) < 0x200
    ensures x <= 0x3FF <==> (x as nat) < 0x400
    ensures x <= 0x7FF <==> (x as nat) < 0x800
    ensures x <= 0xFFF <==> (x as nat) < 0x1000
    ensures x <= 0x1FFF <==> (x as nat) < 0x2000
    ensures x <= 0x3FFF <==> (x as nat) < 0x4000
    ensures x <= 0x7FFF <==> (x as nat) < 0x8000
    ensures x <= 0xFFFF <==> (x as nat) < 0x10000
  {
  }

  lemma OrderAt16(x: bv32)
    ensures x <= 0x1FFFF <==> (x as nat) < 0x20000
    ensures x <= 0x3FFFF <==> (x as nat) < 0x40000
    ensures x <= 0x7FFFF <==> (x as nat) < 0x80000
    ensures x <= 0xFFFFF <==> (x as nat) < 0x100000
    ensures x <= 0x1FFFFF <==> (x as nat) < 0x200000
    ensures x <= 0x3FFFFF <==> (x as nat) < 0x400000
    ensures x <= 0x7FFFFF <==> (x as nat) < 0x800000
    ensures x <= 0xFFFFFF <==> (x as nat) < 0x1000000
  {
  }

  lemma OrderAt24(x: bv32)
    ensures x <= 0x1FFFFFF <==> (x as nat) < 0x2000000
    ensures x <= 0x3FFFFFF <==> (x as nat) < 0x4000000
    ensures x <= 0x7FFFFFF <==> (x as nat) < 0x8000000
    ensures x <= 0xFFFFFFF <==> (x as nat) < 0x10000000
    ensures x <= 0x1FFFFFFF <==> (x as nat) < 0x20000000
    ensures x <= 0x3FFFFFFF <==> (x as nat) < 0x40000000
    ensures x <= 0x7FFFFFFF <==> (x as nat) < 0x80000000
    ensures x <= 0xFFFFFFFF <==> (x as nat) < 0x100000000
  {
  }

  lemma PowersAt0()
    ensures Pow2(0) == 0x1
    ensures Pow2(1) == 0x2
    ensures Pow2(2) == 0x4
    ensures Pow2(3) == 0x8
    ensures Pow2(4) == 0x10
    ensures Pow2(5) == 0x20
    ensures Pow2(6) == 0x40
    ensures Pow2(7) == 0x80
    ensures Pow2(8) == 0x100
  {
  }

  lemma PowersAt8()
    ensures Pow2(8) == 0x100
    ensures Pow2(9) == 0x200
    ensures Pow2(10) == 0x400
    ensures Pow2(11) == 0x800
    ensures Pow2(12) == 0x1000
    ensures Pow2(13) == 0x2000
    ensures Pow2(14) == 0x4000
    ensures Pow2(15) == 0x8000
    ensures Pow2(16) == 0x10000
  {
  }

  lemma PowersAt16()
    ensures Pow2(16) == 0x10000
    ensures Pow2(17) == 0x20000
    ensures Pow2(18) == 0x40000
    ensures Pow2(19) == 0x80000
    ensures Pow2(20) == 0x100000
    ensures Pow2(21) == 0x200000
    ensures Pow2(22) == 0x400000
    ensures Pow2(23) == 0x800000
    ensures Pow2(24) == 0x1000000
  {
    PowersAt8();
  }

  lemma PowersAt24()
    ensures Pow2(24) == 0x1000000
    ensures Pow2(25) == 0x2000000
    ensures Pow2(26) == 0x4000000
    ensures Pow2(27) == 0x8000000
    ensures Pow2(28) == 0x10000000
    ensures Pow2(29) == 0x20000000
    ensures Pow2(30) == 0x40000000
    ensures Pow2(31) == 0x80000000
    ensures Pow2(32) == 0x100000000
  {
    PowersAt16();
  }

  /** The floor, for one byte's worth of smeared words at a time. */
  lemma FloorAt0(x: bv32, y: bv32)
    requires y >> 1 < x <= y
    requires y in {0x1, 0x3, 0x7, 0xF, 0x1F, 0x3F, 0x7F, 0xFF}
    ensures IsFloorLog(x as nat, Lookup(y * MAGIC))
  {
    hide Lookup, Pow2;
    TableAt0();
    TableAt4();
    OrderAt0(x);
    PowersAt0();
  }

  lemma FloorAt8(x: bv32, y: bv32)
    requires y >> 1 < x <= y
    requires y in {0x1FF, 0x3FF, 0x7FF, 0xFFF, 0x1FFF, 0x3FFF, 0x7FFF, 0xFFFF}
    ensures IsFloorLog(x as nat, Lookup(y * MAGIC))
  {
    hide Lookup, Pow2;
    TableAt8();
    TableAt12();
    OrderAt8(x);
    PowersAt8();
  }

  lemma FloorAt16(x: bv32, y: bv32)
    requires y >> 1 < x <= y
    requires y in {0x1FFFF, 0x3FFFF, 0x7FFFF, 0xFFFFF, 0x1FFFFF, 0x3FFFFF, 0x7FFFFF, 0xFFFFFF}
    ensures IsFloorLog(x as nat, Lookup(y * MAGIC))
  {
    hide Lookup, Pow2;
    TableAt16();
    TableAt20();
    OrderAt16(x);
    PowersAt16();
  }

  lemma FloorAt24(x: bv32, y: bv32)
    requires y >> 1 < x <= y
    requires y in {0x1FFFFFF, 0x3FFFFFF, 0x7FFFFFF, 0xFFFFFFF, 0x1FFFFFFF, 0x3FFFFFFF, 0x7FFFFFFF, 0xFFFFFFFF}
    ensures IsFloorLog(x as nat, Lookup(y * MAGIC))
  {
    hide Lookup, Pow2;
    TableAt24();
    TableAt28();
    OrderAt24(x);
    PowersAt24();
  }

  /** The portable form is the floor of the logarithm for every word but zero, and 0 there. */
  lemma PortableIsFloor(x: bv32)
    ensures if x == 0 then PortableLog2(x) == 0 else IsFloorLog(x as nat, PortableLog2(x))
  {
    if x != 0 {
      hide Smear, Lookup, IsFloorLog;
      var y := Smear(x);
      SmearFills(x);
      OnlyOnes(y);
      if y <= 0xFF {
        FloorAt0(x, y);
      } else if y <= 0xFFFF {
        FloorAt8(x, y);
      } else if y <= 0xFFFFFF {
        FloorAt16(x, y);
      } else {
        FloorAt24(x, y);
      }
    }
  }

  lemma FloorMeetsCeiling(v: nat, r: int)
    requires 0 < v < WORD && IsFloorLog(v, r)
    ensures GnuLog2(v) == if exists k: nat :: v == Pow2(k) then r else r + 1
  {
    hide GnuLog2;
    var c := GnuLog2(v);
    GnuIsCeiling(v);
    if c < r { Pow2Grows(c, r); }
    if k: nat :| v == Pow2(k) {
      if r + 1 < k { Pow2Grows(r + 1, k); }
    }
  }

  /** The two forms agree exactly on 0 and the powers of two; elsewhere the GNU form is one more. */
  lemma FormsAgreeOnPowers(x: bv32)
    ensures GnuLog2(x as nat) == PortableLog2(x) + (if x == 0 || (exists k: nat :: x as nat == Pow2(k)) then 0 else 1)
  {
    hide PortableLog2;
    PortableIsFloor(x);
    if x != 0 {
      FloorMeetsCeiling(x as nat, PortableLog2(x));
    }
  }
}
