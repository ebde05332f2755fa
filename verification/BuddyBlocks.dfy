/**
 Naturally aligned blocks of frames, and sets of them that tile the free frames.
 The central fact: a tiling without two free buddies is determined by the bitmap.
 */
module BuddyBlocks {
  import opened Bits

  const MAX_ORDER: nat := 10

  datatype Block = Block(start: nat, order: nat)

  ghost predicate In(x: nat, b: Block) {
    b.start <= x < b.start + Pow2(b.order)
  }

  /** A naturally aligned block of at most 2^10 frames, inside the first n frames. */
  ghost predicate WellFormed(b: Block, n: nat) {
    b.order <= MAX_ORDER && Aligned(b.start, b.order) && b.start + Pow2(b.order) <= n
  }

  function Buddy(b: Block): Block
    requires Aligned(b.start, b.order)
  {
    BuddyStart(b.start, b.order);
    Block(if Aligned(b.start, b.order + 1) then b.start + Pow2(b.order) else b.start - Pow2(b.order), b.order)
  }

  function Parent(b: Block): Block
    requires Aligned(b.start, b.order)
  {
    BuddyStart(b.start, b.order);
    Block(if Aligned(b.start, b.order + 1) then b.start else b.start - Pow2(b.order), b.order + 1)
  }

  // ---- Alignment arithmetic ----

  lemma {:induction false} AlignedStep(x: nat, n: nat)
    requires Aligned(x, n + 1)
    ensures Aligned(x, n)
  {
    if n == 0 {
    } else {
      AlignedStep(x / 2, n - 1);
    }
  }

  lemma {:induction false} AlignedDown(x: nat, n: nat, m: nat)
    requires m <= n && Aligned(x, n)
    ensures Aligned(x, m)
  {
    if n <= m {
    } else {
      AlignedStep(x, n - 1);
      AlignedDown(x, n - 1, m);
    }
  }

  // Two multiples of 2^n are at least 2^n apart.
  lemma {:induction false} AlignedGap(a: nat, b: nat, n: nat)
    requires Aligned(a, n) && Aligned(b, n) && a < b
    ensures a + Pow2(n) <= b
  {
    if n == 0 {
    } else {
      AlignedGap(a / 2, b / 2, n - 1);
    }
  }

  lemma {:induction false} AlignedSum(a: nat, n: nat)
    requires Aligned(a, n)
    ensures Aligned(a + Pow2(n), n)
  {
    if n == 0 {
    } else {
      AlignedSum(a / 2, n - 1);
      assert (a + Pow2(n)) / 2 == a / 2 + Pow2(n - 1);
    }
  }

  // A multiple of 2^n is a multiple of 2^(n+1), or becomes one 2^n below.
  lemma {:induction false} BuddyStart(x: nat, n: nat)
    requires Aligned(x, n)
    ensures Aligned(x, n + 1) ==> Aligned(x + Pow2(n), n) && !Aligned(x + Pow2(n), n + 1)
    ensures !Aligned(x, n + 1) ==> x >= Pow2(n) && Aligned(x - Pow2(n), n + 1)
  {
    if n == 0 {
      assert Low(x, 1) == x % 2 + 2 * Low(x / 2, 0);
    } else {
      BuddyStart(x / 2, n - 1);
      assert (x + Pow2(n)) / 2 == x / 2 + Pow2(n - 1);
      if !Aligned(x, n + 1) {
        assert (x - Pow2(n)) / 2 == x / 2 - Pow2(n - 1);
      }
    }
  }

  // x ^ y
  function Xor(x: nat, y: nat): nat
    decreases x + y
  {
    if x == 0 then y
    else if y == 0 then x
    else (if x % 2 != y % 2 then 1 else 0) + 2 * Xor(x / 2, y / 2)
  }

  /** Flipping bit `order` of an aligned start gives the buddy's start. */
  lemma {:induction false} XorIsBuddy(x: nat, n: nat)
    requires Aligned(x, n)
    ensures Xor(x, Pow2(n)) == Buddy(Block(x, n)).start
  {
    BuddyStart(x, n);
    if x == 0 {
      LowZero(n + 1);
    } else if n == 0 {
      assert Low(x, 1) == x % 2 + 2 * Low(x / 2, 0);
      assert Xor(x / 2, 0) == x / 2;
    } else {
      XorIsBuddy(x / 2, n - 1);
      assert Pow2(n) / 2 == Pow2(n - 1) && Pow2(n) % 2 == 0;
    }
  }

  /** Aligned blocks are nested or disjoint. */
  lemma Nested(small: Block, big: Block, x: nat)
    requires Aligned(small.start, small.order) && Aligned(big.start, big.order)
    requires small.order <= big.order && In(x, small) && In(x, big)
    ensures big.start <= small.start && small.start + Pow2(small.order) <= big.start + Pow2(big.order)
  {
    AlignedDown(big.start, big.order, small.order);
    var end := big.start + Pow2(big.order);
    AlignedSum(big.start, big.order);
    AlignedDown(end, big.order, small.order);
    if small.start < big.start {
      AlignedGap(small.start, big.start, small.order);
    }
    if small.start < end {
      AlignedGap(small.start, end, small.order);
    }
  }

  lemma ParentHalves(b: Block)
    requires Aligned(b.start, b.order)
    ensures var p, s := Parent(b), Buddy(b);
            && Aligned(p.start, p.order) && Aligned(s.start, s.order) && s != b
            && Buddy(s) == b && Parent(s) == p
            && Pow2(p.order) == 2 * Pow2(b.order)
            && p.start == (if b.start < s.start then b.start else s.start)
            && (if b.start < s.start then s.start == b.start + Pow2(b.order) else b.start == s.start + Pow2(b.order))
  {
    BuddyStart(b.start, b.order);
    var p := Parent(b);
    AlignedStep(p.start, b.order);
    BuddyStart(p.start, b.order);
  }

  // ---- Sets of blocks and the bitmap ----

  ghost predicate AllFree(b: Block, used: seq<bool>) {
    b.start + Pow2(b.order) <= |used| && forall x: nat :: In(x, b) ==> !used[x]
  }

  ghost predicate AllUsed(b: Block, used: seq<bool>) {
    b.start + Pow2(b.order) <= |used| && forall x: nat :: In(x, b) ==> used[x]
  }

  ghost predicate Covered(x: nat, s: set<Block>) {
    exists b :: b in s && In(x, b)
  }

  /** Disjoint aligned blocks whose frames are exactly the free ones. */
  ghost predicate Cover(s: set<Block>, used: seq<bool>) {
    && (forall b :: b in s ==> WellFormed(b, |used|) && AllFree(b, used))
    && (forall x :: 0 <= x < |used| && !used[x] ==> Covered(x, s))
    && Disjoint(s)
  }

  ghost predicate Disjoint(s: set<Block>) {
    forall b, c, x :: b in s && c in s && In(x, b) && In(x, c) ==> b == c
  }

  ghost predicate NoBuddies(s: set<Block>) {
    forall b :: b in s && b.order < MAX_ORDER && Aligned(b.start, b.order) ==> Buddy(b) !in s
  }

  /** The state between allocator calls. */
  ghost predicate Tiling(s: set<Block>, used: seq<bool>) {
    Cover(s, used) && NoBuddies(s)
  }

  /** The state inside a call, while one block is neither listed nor handed out. */
  ghost predicate HoldOut(s: set<Block>, h: Block, used: seq<bool>) {
    h !in s && Cover(s + {h}, used) && NoBuddies(s)
  }

  // ---- Determination by the bitmap ----

  lemma SharedFrame(s: set<Block>, b: Block, c: Block, x: nat)
    requires Disjoint(s) && b in s && c in s
    requires b.start <= x < b.start + Pow2(b.order) && c.start <= x < c.start + Pow2(c.order)
    ensures b == c
  {
    assert In(x, b) && In(x, c);
  }

  /** Any aligned free run lies inside one block of the tiling. */
  lemma {:induction false} RunInBlock(s: set<Block>, used: seq<bool>, r: Block) returns (b: Block)
    requires Tiling(s, used) && WellFormed(r, |used|) && AllFree(r, used)
    ensures b in s && b.order >= r.order && In(r.start, b)
    decreases r.order
  {
    if r.order == 0 {
      assert In(r.start, r);
      assert Covered(r.start, s);
      b :| b in s && In(r.start, b);
    } else {
      var k := r.order - 1;
      AlignedStep(r.start, k);
      var left := Block(r.start, k);
      var right := Buddy(left);
      ParentHalves(left);
      assert forall x :: In(x, left) || In(x, right) ==> In(x, r);
      b := RunInBlock(s, used, left);
      if b.order == k {
        SameOrder(b, left);
        var c := RunInBlock(s, used, right);
        if c.order == k {
          SameOrder(c, right);
        } else {
          AlignedBigger(right, c);
          SharedFrame(s, b, c, r.start);
        }
      }
    }
  }

  lemma SameOrder(b: Block, c: Block)
    requires b.order == c.order && Aligned(b.start, b.order) && Aligned(c.start, c.order) && In(c.start, b)
    ensures b == c
  {
    if b.start < c.start {
      AlignedGap(b.start, c.start, b.order);
    }
  }

  // A block that meets a strictly larger aligned block has its parent inside it.
  lemma AlignedBigger(b: Block, big: Block)
    requires Aligned(b.start, b.order) && Aligned(big.start, big.order) && b.order < big.order && In(b.start, big)
    ensures var p := Parent(b); big.start <= p.start && p.start + Pow2(p.order) <= big.start + Pow2(big.order)
  {
    ParentHalves(b);
    Nested(Parent(b), big, b.start);
  }

  /** A free block that cannot be grown: its parent is not entirely free. */
  ghost predicate Maximal(b: Block, used: seq<bool>) {
    && WellFormed(b, |used|) && AllFree(b, used)
    && (b.order == MAX_ORDER || !AllFree(Parent(b), used))
  }

  lemma InsideIsFree(inner: Block, outer: Block, used: seq<bool>)
    requires AllFree(outer, used)
    requires outer.start <= inner.start && inner.start + Pow2(inner.order) <= outer.start + Pow2(outer.order)
    ensures AllFree(inner, used)
  {
    assert forall x: nat :: In(x, inner) ==> In(x, outer);
  }

  lemma TiledIsMaximal(s: set<Block>, used: seq<bool>, b: Block)
    requires Tiling(s, used) && b in s
    ensures Maximal(b, used)
  {
    if b.order < MAX_ORDER && AllFree(Parent(b), used) {
      ParentHalves(b);
      var c := RunInBlock(s, used, Parent(b));
      Nested(Parent(b), c, Parent(b).start);
      SharedFrame(s, b, c, b.start);
    }
  }

  lemma MaximalIsTiled(s: set<Block>, used: seq<bool>, b: Block)
    requires Tiling(s, used) && Maximal(b, used)
    ensures b in s
  {
    var c := RunInBlock(s, used, b);
    if c.order == b.order {
      SameOrder(c, b);
    } else {
      AlignedBigger(b, c);
      InsideIsFree(Parent(b), c, used);
    }
  }

  /** The free blocks are a function of the bitmap: exactly the maximal free blocks. */
  lemma TilingIsMaximal(s: set<Block>, used: seq<bool>)
    requires Tiling(s, used)
    ensures forall b :: b in s <==> Maximal(b, used)
  {
    forall b
      ensures b in s <==> Maximal(b, used)
    {
      if b in s {
        TiledIsMaximal(s, used, b);
      }
      if Maximal(b, used) {
        MaximalIsTiled(s, used, b);
      }
    }
  }

  lemma TilingUnique(s: set<Block>, t: set<Block>, used: seq<bool>)
    requires Tiling(s, used) && Tiling(t, used)
    ensures s == t
  {
    TilingIsMaximal(s, used);
    TilingIsMaximal(t, used);
  }

  // ---- Splitting and merging ----

  ghost function Fill(used: seq<bool>, b: Block, v: bool): (r: seq<bool>)
    ensures |r| == |used|
  {
    seq(|used|, x requires 0 <= x < |used| => if In(x, b) then v else used[x])
  }

  lemma Halves(left: Block)
    requires Aligned(left.start, left.order) && Aligned(left.start, left.order + 1)
    ensures var p, right := Parent(left), Buddy(left);
            && (forall x: nat :: In(x, p) <==> In(x, left) || In(x, right))
            && (forall x: nat :: In(x, left) ==> !In(x, right))
            && p != left && p != right && Aligned(p.start, p.order) && Aligned(right.start, right.order)
            && p.start + Pow2(p.order) == right.start + Pow2(right.order)
  {
    ParentHalves(left);
  }

  // One block replaced by its two halves.
  lemma CoverSplit(s: set<Block>, left: Block, used: seq<bool>)
    requires Aligned(left.start, left.order) && Aligned(left.start, left.order + 1)
    requires Parent(left) in s && Cover(s, used)
    ensures Cover(s - {Parent(left)} + {left, Buddy(left)}, used)
  {
    Halves(left);
    var p, right := Parent(left), Buddy(left);
    var t := s - {p} + {left, right};
    forall x | 0 <= x < |used| && !used[x]
      ensures Covered(x, t)
    {
      var b :| b in s && In(x, b);
      if b != p {
        assert b in t;
      }
    }
    forall b, c, x | b in t && c in t && In(x, b) && In(x, c)
      ensures b == c
    {
      var b' := if b in {left, right} then p else b;
      var c' := if c in {left, right} then p else c;
      assert In(x, b') && In(x, c') && b' in s && c' in s;
    }
  }

  // Two halves replaced by the block they make up.
  lemma CoverJoin(s: set<Block>, left: Block, used: seq<bool>)
    requires Aligned(left.start, left.order) && Aligned(left.start, left.order + 1)
    requires left.order < MAX_ORDER && left in s && Buddy(left) in s && Cover(s, used)
    ensures Cover(s - {left, Buddy(left)} + {Parent(left)}, used)
  {
    Halves(left);
    var p, right := Parent(left), Buddy(left);
    var t := s - {left, right} + {p};
    forall x | 0 <= x < |used| && !used[x]
      ensures Covered(x, t)
    {
      var b :| b in s && In(x, b);
      var b' := if b in {left, right} then p else b;
      assert b' in t && In(x, b');
    }
    forall b, c, x | b in t && c in t && In(x, b) && In(x, c)
      ensures b == c
    {
      // The block of s through x decides both.
      var h := if In(x, left) then left else right;
      assert b == p ==> In(x, h);
      assert c == p ==> In(x, h);
    }
  }

  // ---- The steps of allocation and release ----

  lemma HoldPop(s: set<Block>, h: Block, used: seq<bool>)
    requires Tiling(s, used) && h in s
    ensures HoldOut(s - {h}, h, used)
  {
    assert s - {h} + {h} == s;
  }

  lemma HoldSplit(s: set<Block>, h: Block, used: seq<bool>)
    requires HoldOut(s, h, used) && h.order > 0
    ensures var left := Block(h.start, h.order - 1);
            Aligned(left.start, left.order) && HoldOut(s + {Buddy(left)}, left, used)
  {
    AlignedStep(h.start, h.order - 1);
    var left := Block(h.start, h.order - 1);
    var right := Buddy(left);
    ParentHalves(left);
    CoverSplit(s + {h}, left, used);
    assert h in s + {h};
    assert left !in s && right !in s by {
      assert In(left.start, left) && In(left.start, h) && In(right.start, right) && In(right.start, h);
    }
    assert s + {h} - {h} + {left, right} == s + {right} + {left};
    forall b | b in s + {right} && b.order < MAX_ORDER && Aligned(b.start, b.order)
      ensures Buddy(b) !in s + {right}
    {
      ParentHalves(b);
    }
  }

  lemma HoldTake(s: set<Block>, h: Block, used: seq<bool>)
    requires HoldOut(s, h, used)
    ensures Tiling(s, Fill(used, h, true))
  {
    var used' := Fill(used, h, true);
    assert h in s + {h};
    forall b | b in s
      ensures AllFree(b, used')
    {
      assert b in s + {h};
    }
    forall x | 0 <= x < |used'| && !used'[x]
      ensures Covered(x, s)
    {
      var b :| b in s + {h} && In(x, b);
    }
  }

  lemma HoldGive(s: set<Block>, h: Block, used: seq<bool>)
    requires Tiling(s, used) && WellFormed(h, |used|) && AllUsed(h, used)
    ensures HoldOut(s, h, Fill(used, h, false))
  {
    var used' := Fill(used, h, false);
    assert In(h.start, h);
    forall x | 0 <= x < |used'| && !used'[x]
      ensures Covered(x, s + {h})
    {
      if In(x, h) {
        assert h in s + {h};
      } else {
        var b :| b in s && In(x, b);
        assert b in s + {h};
      }
    }
    forall b, x: nat | b in s && In(x, b)
      ensures !In(x, h)
    {
      assert !used[x];
    }
  }

  lemma HoldJoin(s: set<Block>, h: Block, used: seq<bool>)
    requires HoldOut(s, h, used) && h.order < MAX_ORDER && Aligned(h.start, h.order) && Buddy(h) in s
    ensures HoldOut(s - {Buddy(h)}, Parent(h), used)
  {
    ParentHalves(h);
    var g, p := Buddy(h), Parent(h);
    var left := if h.start < g.start then h else g;
    BuddyStart(h.start, h.order);
    CoverJoin(s + {h}, left, used);
    Halves(left);
    assert p !in s by {
      assert In(h.start, h) && In(h.start, p) && h in s + {h};
    }
    assert s + {h} - {left, Buddy(left)} + {p} == s - {g} + {p};
  }

  lemma HoldList(s: set<Block>, h: Block, used: seq<bool>)
    requires HoldOut(s, h, used) && Aligned(h.start, h.order)
    requires h.order == MAX_ORDER || Buddy(h) !in s
    ensures Tiling(s + {h}, used)
  {
    ParentHalves(h);
    forall b | b in s + {h} && b.order < MAX_ORDER && Aligned(b.start, b.order)
      ensures Buddy(b) !in s + {h}
    {
      ParentHalves(b);
    }
  }

  lemma HeldApart(s: set<Block>, h: Block, used: seq<bool>)
    requires HoldOut(s, h, used)
    ensures WellFormed(h, |used|) && AllFree(h, used)
    ensures forall b :: b in s ==> !In(b.start, h)
  {
    assert h in s + {h};
    forall b | b in s
      ensures !In(b.start, h)
    {
      assert b in s + {h} && In(b.start, b);
    }
  }

  lemma FillSame(used: seq<bool>, b: Block)
    requires AllFree(b, used)
    ensures Fill(used, b, false) == used
  {
  }
}
