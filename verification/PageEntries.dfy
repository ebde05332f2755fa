/**
 Page-table entries as 64-bit words, built and taken apart with the bitwise
 operators the kernel uses.
 */
module PageEntries {
  import opened Bits

  const PAGE_SIZE: nat := 4096
  const ENTRIES: nat := 512

  // Flag bits.
  const PRESENT: nat := 0x1
  const WRITABLE: nat := 0x2
  const USER: nat := 0x4
  const ACCESSED: nat := 0x20
  const DIRTY: nat := 0x40
  const HUGE: nat := 0x80
  const DEMAND: nat := 0x200
  const COW: nat := 0x400
  const NX: nat := 0x8000_0000_0000_0000

  // The bits a leaf keeps of the caller's flags: everything above but HUGE.
  const LEAF_FLAGS: nat := NX + COW + DEMAND + DIRTY + ACCESSED + USER + WRITABLE + PRESENT
  const DEMAND_FLAGS: nat := DEMAND + COW + USER + WRITABLE

  /** e & PRESENT; see PresentBit. */
  predicate IsPresent(e: nat) {
    e % 2 == 1
  }

  predicate IsDemand(flags: nat) {
    And(flags, DEMAND) != 0
  }

  predicate IsHuge(e: nat) {
    And(e, HUGE) != 0
  }

  /** e & ~0xFFF: the address of the next table. */
  function TableOf(e: nat): nat {
    e - Low(e, 12)
  }

  /** The entry get_next_level writes for a fresh table. */
  function TableEntry(table: nat, user: bool): nat {
    Or(Or(Or(table, PRESENT), WRITABLE), if user then USER else 0)
  }

  /** The entry vmm_map_raw writes for a 4 KiB page. */
  function LeafFor(phys: nat, flags: nat): nat {
    if IsDemand(flags) then And(flags, DEMAND_FLAGS)
    else Or(phys - Low(phys, 12), And(flags, LEAF_FLAGS))
  }

  /** (e & 0x000FFFFFFFFFF000) | offset */
  function PhysOf(e: nat, offset: nat): nat {
    Or(Shl(Low(Shr(e, 12), 40), 12), offset)
  }

  // ---- Bitwise laws ----

  lemma {:induction false} LowOr(x: nat, y: nat, n: nat)
    ensures Low(Or(x, y), n) == Or(Low(x, n), Low(y, n))
  {
    if n == 0 || x == 0 || y == 0 {
      LowZero(n);
      OrZero(Low(x, n));
      OrZero(Low(y, n));
    } else {
      LowOr(x / 2, y / 2, n - 1);
      OrStep(x, y);
      OrStep(Low(x, n), Low(y, n));
      assert Low(x, n) / 2 == Low(x / 2, n - 1) && Low(y, n) / 2 == Low(y / 2, n - 1);
    }
  }

  lemma OrZero(x: nat)
    ensures Or(x, 0) == x && Or(0, x) == x
  {
  }

  lemma OrStep(x: nat, y: nat)
    ensures Or(x, y) / 2 == Or(x / 2, y / 2)
    ensures Or(x, y) % 2 == if x % 2 == 1 || y % 2 == 1 then 1 else 0
  {
    OrZero(x / 2);
    OrZero(y / 2);
  }

  lemma AndStep(x: nat, y: nat)
    ensures And(x, y) / 2 == And(x / 2, y / 2)
    ensures And(x, y) % 2 == if x % 2 == 1 && y % 2 == 1 then 1 else 0
  {
  }

  lemma {:induction false} ShrOr(x: nat, y: nat, n: nat)
    ensures Shr(Or(x, y), n) == Or(Shr(x, n), Shr(y, n))
  {
    if n == 0 {
    } else {
      OrStep(x, y);
      ShrOr(x / 2, y / 2, n - 1);
    }
  }

  lemma {:induction false} ShrAnd(x: nat, y: nat, n: nat)
    ensures Shr(And(x, y), n) == And(Shr(x, n), Shr(y, n))
  {
    if n == 0 {
    } else {
      AndStep(x, y);
      ShrAnd(x / 2, y / 2, n - 1);
    }
  }

  lemma {:induction false} LowAnd(x: nat, y: nat, n: nat)
    ensures Low(And(x, y), n) == And(Low(x, n), Low(y, n))
  {
    if n == 0 {
    } else {
      LowAnd(x / 2, y / 2, n - 1);
      AndStep(x, y);
      AndStep(Low(x, n), Low(y, n));
      assert Low(x, n) / 2 == Low(x / 2, n - 1) && Low(y, n) / 2 == Low(y / 2, n - 1);
      assert Low(And(x, y), n) / 2 == Low(And(x, y) / 2, n - 1);
    }
  }

  lemma {:induction false} LowBound(x: nat, n: nat)
    ensures Low(x, n) < Pow2(n)
    ensures x < Pow2(n) ==> Low(x, n) == x
  {
    if n == 0 {
    } else {
      LowBound(x / 2, n - 1);
    }
  }

  // Joining a multiple of 2^n with a smaller number is addition.
  lemma {:induction false} OrDisjoint(x: nat, y: nat, n: nat)
    requires y < Pow2(n)
    ensures Or(Shl(x, n), y) == Shl(x, n) + y
  {
    if n == 0 {
      OrZero(x);
    } else {
      OrDisjoint(x, y / 2, n - 1);
      OrStep(Shl(x, n), y);
      assert Shl(x, n) / 2 == Shl(x, n - 1) && Shl(x, n) % 2 == 0;
    }
  }

  lemma {:induction false} SplitAt(x: nat, n: nat)
    ensures x == Shl(Shr(x, n), n) + Low(x, n)
  {
    if n == 0 {
    } else {
      SplitAt(x / 2, n - 1);
    }
  }

  lemma {:induction false} ShlPlus(x: nat, y: nat, n: nat)
    requires y < Pow2(n)
    ensures Shr(Shl(x, n) + y, n) == x && Low(Shl(x, n) + y, n) == y
  {
    if n == 0 {
    } else {
      ShlPlus(x, y / 2, n - 1);
      assert (Shl(x, n) + y) / 2 == Shl(x, n - 1) + y / 2;
    }
  }

  lemma AndOne(e: nat)
    ensures And(e, 1) == e % 2
  {
    if e != 0 {
      AndStep(e, 1);
    }
  }

  lemma PresentBit(e: nat)
    ensures IsPresent(e) <==> And(e, PRESENT) != 0
  {
    AndOne(e);
  }

  lemma Pow2Twelve()
    ensures Pow2(12) == 4096
  {
    ShlOne(12);
    ShlShl(1, 2, 10);
    ShlTen(Shl(1, 2));
  }

  // No flag bit of a leaf lies among the address bits 12 to 51.
  lemma LeafFlagsClear(flags: nat)
    ensures Low(Shr(And(flags, LEAF_FLAGS), 12), 40) == 0
  {
    var top := 0x8_0000_0000_0000;
    Pow2Twelve();
    ShlTen(top);
    ShlShl(top, 10, 2);
    ShlPlus(top, 0x667, 12);
    assert LEAF_FLAGS == Shl(top, 12) + 0x667;
    ShrAnd(flags, LEAF_FLAGS, 12);
    var x := Shr(flags, 12);
    LowAnd(x, top, 40);
    TopAbove();
  }

  lemma TopAbove()
    ensures Low(0x8_0000_0000_0000, 40) == 0
  {
    ShlTen(2048);
    ShlTen(Shl(2048, 10));
    ShlShl(2048, 10, 10);
    ShlTen(Shl(2048, 20));
    ShlShl(2048, 20, 10);
    ShlTen(Shl(2048, 30));
    ShlShl(2048, 30, 10);
    LowShl(2048, 40, 0);
    ShlZero(0, 40);
  }

  // ---- What the entries mean ----

  // A mask below 2^12 looks only at the low twelve bits.
  lemma AndLow(e: nat, mask: nat)
    requires mask < 4096
    ensures And(e, mask) == And(Low(e, 12), mask)
  {
    Pow2Twelve();
    LowAnd(e, mask, 12);
    LowBound(mask, 12);
    LowBound(And(e, mask), 12);
  }

  lemma SmallOrs()
    ensures Or(0, 1) == 1 && Or(1, 2) == 3 && Or(3, 4) == 7 && Or(3, 0) == 3
  {
  }

  lemma TableEntryIs(x: nat, user: bool, n: nat)
    requires 7 < Pow2(n)
    ensures TableEntry(Shl(x, n), user) == Shl(x, n) + if user then 7 else 3
  {
    SmallOrs();
    OrInto(x, 0, 1, n);
    OrInto(x, 1, 2, n);
    OrInto(x, 3, if user then 4 else 0, n);
  }

  lemma TableEntryMeans(table: nat, user: bool)
    requires Low(table, 12) == 0
    ensures IsPresent(TableEntry(table, user)) && !IsHuge(TableEntry(table, user))
    ensures TableOf(TableEntry(table, user)) == table
  {
    var low: nat := if user then 7 else 3;
    var x := Shr(table, 12);
    SplitAt(table, 12);
    Pow2Twelve();
    TableEntryIs(x, user, 12);
    ShlPlus(x, low, 12);
    AndLow(Shl(x, 12) + low, 1);
    AndOne(Shl(x, 12) + low);
    AndLow(Shl(x, 12) + low, HUGE);
    SmallTests();
  }

  lemma SmallTests()
    ensures And(3, 1) != 0 && And(7, 1) != 0 && And(3, HUGE) == 0 && And(7, HUGE) == 0
  {
  }

  lemma OrInto(x: nat, a: nat, b: nat, n: nat)
    requires a < Pow2(n) && Or(a, b) < Pow2(n)
    ensures Or(Shl(x, n) + a, b) == Shl(x, n) + Or(a, b)
  {
    OrDisjoint(x, a, n);
    OrDisjoint(x, Or(a, b), n);
    OrAssoc(Shl(x, n), a, b);
  }

  lemma {:induction false} OrAssoc(x: nat, y: nat, z: nat)
    ensures Or(Or(x, y), z) == Or(x, Or(y, z))
    decreases x + y + z
  {
    if x == 0 || y == 0 || z == 0 {
      OrZero(x);
      OrZero(Or(x, y));
      OrZero(y);
      OrZero(z);
    } else {
      OrAssoc(x / 2, y / 2, z / 2);
      OrStep(x, y);
      OrStep(y, z);
      OrStep(Or(x, y), z);
      OrStep(x, Or(y, z));
    }
  }

  /** A leaf is present exactly when the caller asked for it, and a demand
      placeholder never is. */
  lemma LeafPresent(phys: nat, flags: nat)
    ensures IsPresent(LeafFor(phys, flags)) <==> IsPresent(flags) && !IsDemand(flags)
  {
    if IsDemand(flags) {
      AndStep(flags, DEMAND_FLAGS);
    } else {
      AndStep(flags, LEAF_FLAGS);
      SplitAt(phys, 12);
      OrStep(Shl(Shr(phys, 12), 12), And(flags, LEAF_FLAGS));
    }
  }

  // Bits n to n+m-1 of `x | f` when x has no bits below n and f none among them.
  lemma MiddleBits(x: nat, f: nat, n: nat, m: nat)
    requires Low(x, n) == 0 && Low(Shr(f, n), m) == 0
    ensures Shl(Low(Shr(Or(x, f), n), m), n) == Low(x, m + n)
  {
    ShrOr(x, f, n);
    LowOr(Shr(x, n), Shr(f, n), m);
    OrZero(Low(Shr(x, n), m));
    SplitAt(x, n);
    LowShl(Shr(x, n), n, m);
  }

  /** The address read back from a leaf: bits 12 to 51 of the frame, plus the offset. */
  lemma LeafAddress(phys: nat, flags: nat, offset: nat)
    requires !IsDemand(flags) && Low(phys, 12) == 0 && offset < 4096
    ensures PhysOf(LeafFor(phys, flags), offset) == Low(phys, 52) + offset
  {
    LeafFlagsClear(flags);
    MiddleBits(phys, And(flags, LEAF_FLAGS), 12, 40);
    Pow2Twelve();
    OrDisjoint(Low(Shr(LeafFor(phys, flags), 12), 40), offset, 12);
  }

  const TWO52: nat := 0x10_0000_0000_0000

  lemma Low52(x: nat)
    ensures Low(x, 52) == x <==> x < TWO52
  {
    var n: nat :| n == 52;
    Pow2Is64(n + 12);
    assert Pow2(n + 4) == 16 * Pow2(n) by { assert Pow2(n + 2) == 4 * Pow2(n); }
    assert Pow2(n + 8) == 16 * Pow2(n + 4) by { assert Pow2(n + 6) == 4 * Pow2(n + 4); }
    assert Pow2(n + 12) == 16 * Pow2(n + 8) by { assert Pow2(n + 10) == 4 * Pow2(n + 8); }
    LowBound(x, n);
  }

  /** Reading a present leaf back yields the frame exactly when it lies below 2^52. */
  lemma LeafReads(frame: nat, flags: nat, offset: nat)
    requires IsPresent(flags) && !IsDemand(flags) && Low(frame, 12) == 0 && offset < 4096
    ensures IsPresent(LeafFor(frame, flags))
    ensures PhysOf(LeafFor(frame, flags), offset) == Low(frame, 52) + offset
    ensures PhysOf(LeafFor(frame, flags), offset) == frame + offset <==> frame < TWO52
  {
    LeafPresent(frame, flags);
    LeafAddress(frame, flags, offset);
    Low52(frame);
  }
}
