/**
 The buddy allocator for physical frames.
 */
module Buddy {
  import opened Bits
  import opened BuddyBlocks
  import opened BuddyLists
  import opened Lists

  const PAGE_SIZE: nat := 4096

  datatype ZoneChoice = Any | Only(zone: Zone)

  datatype Trust = Verified | Unverified | AnyTrust

  /** The zones tried, in order. */
  function ZonesTried(choice: ZoneChoice): seq<Zone> {
    match choice
    case Any => [Normal, Dma, High]
    case Only(zone) => [zone]
  }

  ghost predicate RunIn(r: Block, zone: Zone, used: seq<bool>) {
    WellFormed(r, |used|) && AllFree(r, used) && ZoneOf(r.start) == zone
  }

  /** No naturally aligned free run of 2^order frames starts in the zone. */
  ghost predicate NoRun(zone: Zone, order: nat, used: seq<bool>) {
    forall x: nat :: !RunIn(Block(x, order), zone, used)
  }

  /** The block lies in the first of the zones that has a run of its order. */
  ghost predicate FromFirstZone(b: Block, zones: seq<Zone>, used: seq<bool>) {
    exists i :: && 0 <= i < |zones| && ZoneOf(b.start) == zones[i]
                && forall j :: 0 <= j < i ==> NoRun(zones[j], b.order, used)
  }

  lemma RunFound(b: Block, zones: seq<Zone>, i: nat, used: seq<bool>)
    requires i < |zones| && RunIn(b, zones[i], used) && forall j :: 0 <= j < i ==> NoRun(zones[j], b.order, used)
    ensures FromFirstZone(b, zones, used)
    ensures exists zone :: zone in zones && !NoRun(zone, b.order, used)
  {
    assert RunIn(Block(b.start, b.order), zones[i], used);
    assert zones[i] in zones && !NoRun(zones[i], b.order, used);
  }

  lemma FrameAddress(idx: nat)
    ensures idx * PAGE_SIZE / PAGE_SIZE == idx && idx * PAGE_SIZE % PAGE_SIZE == 0
    ensures idx != 0 ==> idx * PAGE_SIZE != 0
  {
  }

  function FreeSet(used: seq<bool>): set<nat> {
    set x: nat | x < |used| && !used[x]
  }

  /** HEAD flags and order nibbles agree with the free blocks, `except` aside. */
  ghost predicate Flagged(meta: seq<FrameMeta>, free: set<Block>, except: set<nat>) {
    && (forall b :: b in free ==> b.start < |meta| && meta[b.start].head && meta[b.start].order == b.order)
    && (forall x :: 0 <= x < |meta| && meta[x].head && x !in except ==> Block(x, meta[x].order) in free)
  }

  ghost predicate Outstanding(live: set<Block>, used: seq<bool>) {
    && (forall b :: b in live ==> b.start != 0 && WellFormed(b, |used|) && AllUsed(b, used))
    && Disjoint(live)
  }

  // ---- Zones ----

  function ZoneLimitFrame(zone: Zone, total: nat): nat {
    match zone
    case Dma => if DMA_LIMIT_FRAME < total then DMA_LIMIT_FRAME else total
    case Normal => if HIGH_LIMIT_FRAME < total then HIGH_LIMIT_FRAME else total
    case High => total
  }

  lemma AlignedThousands(x: nat, k: nat)
    requires k <= MAX_ORDER
    ensures Aligned(1024 * x, k)
  {
    ShlTen(x);
    LowShl(x, 10, 0);
    ShlZero(0, 10);
    AlignedDown(1024 * x, 10, k);
  }

  lemma LimitsAligned(k: nat)
    requires k <= MAX_ORDER
    ensures Aligned(DMA_LIMIT_FRAME, k) && Aligned(HIGH_LIMIT_FRAME, k)
  {
    AlignedThousands(4, k);
    AlignedThousands(1024, k);
  }

  /** Zone borders are multiples of the largest block, so blocks do not straddle them. */
  lemma ZoneOfBlock(b: Block, x: nat)
    requires b.order <= MAX_ORDER && Aligned(b.start, b.order) && In(x, b)
    ensures ZoneOf(x) == ZoneOf(b.start)
  {
    LimitsAligned(b.order);
    if b.start < DMA_LIMIT_FRAME {
      AlignedGap(b.start, DMA_LIMIT_FRAME, b.order);
    } else if b.start < HIGH_LIMIT_FRAME {
      AlignedGap(b.start, HIGH_LIMIT_FRAME, b.order);
    }
  }

  /** A block inside memory always fits its own zone. */
  lemma FitsZone(b: Block, total: nat)
    requires WellFormed(b, total)
    ensures b.start + Pow2(b.order) <= ZoneLimitFrame(ZoneOf(b.start), total)
  {
    var last := b.start + Pow2(b.order) - 1;
    ZoneOfBlock(b, last);
  }

  lemma BuddyZone(b: Block)
    requires b.order < MAX_ORDER && Aligned(b.start, b.order)
    ensures ZoneOf(Buddy(b).start) == ZoneOf(b.start) == ZoneOf(Parent(b).start)
  {
    ParentHalves(b);
    ZoneOfBlock(Parent(b), b.start);
    ZoneOfBlock(Parent(b), Buddy(b).start);
  }

  // ---- Counting ----

  ghost function Frames(lo: nat, n: nat): set<nat> {
    if n == 0 then {} else Frames(lo, n - 1) + {lo + n - 1}
  }

  lemma {:induction false} FramesSize(lo: nat, n: nat)
    ensures |Frames(lo, n)| == n
    ensures forall x: nat :: x in Frames(lo, n) <==> lo <= x < lo + n
  {
    if n == 0 {
    } else {
      FramesSize(lo, n - 1);
    }
  }

  lemma CountTaken(used: seq<bool>, b: Block)
    requires AllFree(b, used)
    ensures |FreeSet(Fill(used, b, true))| == |FreeSet(used)| - Pow2(b.order)
  {
    var frames := Frames(b.start, Pow2(b.order));
    FramesSize(b.start, Pow2(b.order));
    assert forall x: nat :: x in frames <==> In(x, b);
    assert FreeSet(Fill(used, b, true)) == FreeSet(used) - frames;
    assert frames <= FreeSet(used);
  }

  lemma CountGiven(used: seq<bool>, b: Block)
    requires AllUsed(b, used)
    ensures |FreeSet(Fill(used, b, false))| == |FreeSet(used)| + Pow2(b.order)
  {
    var frames := Frames(b.start, Pow2(b.order));
    FramesSize(b.start, Pow2(b.order));
    assert forall x: nat :: x in frames <==> In(x, b);
    assert FreeSet(Fill(used, b, false)) == FreeSet(used) + frames;
    assert frames !! FreeSet(used);
  }

  /** No listed block of this zone is large enough, so there is no run at all. */
  lemma NoBlockNoRun(free: set<Block>, used: seq<bool>, zone: Zone, order: nat)
    requires Tiling(free, used) && order <= MAX_ORDER
    requires forall b :: b in free && b.order >= order ==> ZoneOf(b.start) != zone
    ensures NoRun(zone, order, used)
  {
    forall x: nat | RunIn(Block(x, order), zone, used)
      ensures false
    {
      var b := RunInBlock(free, used, Block(x, order));
      ZoneOfBlock(b, x);
    }
  }

  // Handing out a free block keeps the outstanding blocks apart.
  lemma OutstandingTake(live: set<Block>, used: seq<bool>, b: Block)
    requires Outstanding(live, used) && b.start != 0 && WellFormed(b, |used|) && AllFree(b, used)
    ensures b !in live && Outstanding(live + {b}, Fill(used, b, true))
    ensures forall c, x: nat :: c in live && In(x, b) ==> !In(x, c)
  {
    assert In(b.start, b);
    forall c, x: nat | c in live && In(x, b)
      ensures !In(x, c)
    {
    }
    var used' := Fill(used, b, true);
    forall c | c in live
      ensures AllUsed(c, used')
    {
    }
  }

  lemma OutstandingGive(live: set<Block>, used: seq<bool>, b: Block)
    requires Outstanding(live, used) && b in live
    ensures Outstanding(live - {b}, Fill(used, b, false))
  {
    var used' := Fill(used, b, false);
    forall c | c in live - {b}
      ensures AllUsed(c, used')
    {
      forall x: nat | In(x, c)
        ensures used'[x]
      {
        assert !In(x, b);
      }
    }
  }

  // ---- Building the lists from the bitmap ----

  // A block that greedy growth from its start could not have made larger.
  lemma FreeRange(idx: nat, order: nat, used: seq<bool>)
    requires idx + Pow2(order) <= |used|
    ensures AllFree(Block(idx, order), used) <==> forall x :: idx <= x < idx + Pow2(order) ==> !used[x]
  {
    if AllFree(Block(idx, order), used) {
      forall x | idx <= x < idx + Pow2(order)
        ensures !used[x]
      {
        assert In(x, Block(idx, order));
      }
    }
  }

  lemma FilledIsUsed(used: seq<bool>, b: Block)
    requires b.start + Pow2(b.order) <= |used|
    ensures AllUsed(b, Fill(used, b, true))
  {
  }

  lemma FilledAndCleared(used: seq<bool>, b: Block)
    requires AllFree(b, used)
    ensures Fill(Fill(used, b, true), b, false) == used
  {
  }

  ghost predicate Grown(b: Block, used: seq<bool>) {
    b.order == MAX_ORDER || !Aligned(b.start, b.order + 1) || !AllFree(Block(b.start, b.order + 1), used)
  }

  /** The left-to-right scan has dealt with the frames below idx. */
  ghost predicate Scanned(free: set<Block>, used: seq<bool>, idx: nat) {
    && (forall b :: b in free ==>
         WellFormed(b, |used|) && AllFree(b, used) && Grown(b, used) && b.start + Pow2(b.order) <= idx)
    && (forall x :: 0 <= x < |used| && x < idx && !used[x] ==> Covered(x, free))
    && Disjoint(free)
  }

  lemma ScanBlock(free: set<Block>, used: seq<bool>, b: Block)
    requires Scanned(free, used, b.start) && WellFormed(b, |used|) && AllFree(b, used) && Grown(b, used)
    ensures Scanned(free + {b}, used, b.start + Pow2(b.order))
  {
    forall x | 0 <= x < |used| && x < b.start + Pow2(b.order) && !used[x]
      ensures Covered(x, free + {b})
    {
      if x < b.start {
        var c :| c in free && In(x, c);
        assert c in free + {b};
      } else {
        assert b in free + {b} && In(x, b);
      }
    }
  }

  lemma ScanUsed(free: set<Block>, used: seq<bool>, idx: nat)
    requires Scanned(free, used, idx) && idx < |used| && used[idx]
    ensures Scanned(free, used, idx + 1)
  {
  }

  /** Greedy growth never leaves two buddies free: the lower one would have grown. */
  lemma ScanDone(free: set<Block>, used: seq<bool>, idx: nat)
    requires Scanned(free, used, idx) && idx >= |used|
    ensures Tiling(free, used)
  {
    forall b | b in free && b.order < MAX_ORDER && Aligned(b.start, b.order)
      ensures Buddy(b) !in free
    {
      ParentHalves(b);
      var g := Buddy(b);
      var left := if b.start < g.start then b else g;
      Halves(left);
      if g in free {
        assert AllFree(Parent(left), used);
        BuddyStart(left.start, left.order);
      }
    }
  }

  // ---- The allocator ----

  class Pmm {
    const total: nat
    var used: seq<bool>
    var meta: seq<FrameMeta>
    var heads: map<Key, nat>
    var freeFrames: int

    // The free blocks, the lists that hold them, and the blocks handed out.
    ghost var free: set<Block>
    ghost var lists: map<Key, seq<nat>>
    ghost var live: set<Block>

    ghost predicate ListsValid()
      reads this
    {
      |used| == |meta| == total && Listed(meta, heads, lists, free)
    }

    ghost predicate Valid()
      reads this
    {
      && ListsValid()
      && Flagged(meta, free, {})
      && Tiling(free, used)
      && freeFrames == |FreeSet(used)|
      && (total > 0 ==> used[0])
      && Outstanding(live, used)
    }

    predicate BlockIsHead(idx: nat, order: nat)
      requires |meta| == total
      reads this
    {
      idx < total && meta[idx].head && meta[idx].order == order
    }

    predicate BlockFitsZone(idx: nat, order: nat, zone: Zone)
      reads this
    {
      idx + Pow2(order) <= ZoneLimitFrame(zone, total)
    }

    /** pmm_set_block_bitmap. */
    method SetBlockBitmap(idx: nat, order: nat, taken: bool)
      requires |used| == total && idx + Pow2(order) <= total
      modifies this`used
      ensures used == Fill(old(used), Block(idx, order), taken)
    {
      var i := 0;
      while i < Pow2(order)
        invariant i <= Pow2(order) && |used| == total
        invariant forall x :: 0 <= x < total ==>
                    used[x] == if idx <= x < idx + i then taken else old(used)[x]
      {
        used := used[idx + i := taken];
        i := i + 1;
      }
    }

    /** pmm_buddy_push. */
    method Push(zone: Zone, order: nat, idx: nat)
      requires ListsValid() && order <= MAX_ORDER && idx < total && ZoneOf(idx) == zone
      requires forall b :: b in free ==> b.start != idx
      modifies this`meta, this`heads, this`lists, this`free
      ensures ListsValid() && free == old(free) + {Block(idx, order)}
      ensures forall x :: 0 <= x < total && x != idx ==> meta[x] == old(meta)[x]
      ensures meta[idx].head && meta[idx].order == order
    {
      var key := Key(zone, order);
      assert OneList(meta, heads, lists, free, key);
      ListedPush(meta, heads, lists, free, key, idx);
      meta := meta[idx := FrameMeta(true, order, heads[key])];
      heads := heads[key := idx];
      lists := lists[key := [idx] + lists[key]];
      free := free + {Block(idx, order)};
    }

    // Pushing keeps the HEAD flags right.
    method PushFlagged(zone: Zone, order: nat, idx: nat, ghost except: set<nat>)
      requires ListsValid() && order <= MAX_ORDER && idx < total && ZoneOf(idx) == zone
      requires (forall b :: b in free ==> b.start != idx) && Flagged(meta, free, except)
      modifies this`meta, this`heads, this`lists, this`free
      ensures ListsValid() && free == old(free) + {Block(idx, order)} && Flagged(meta, free, except)
    {
      Push(zone, order, idx);
    }

    /** pmm_buddy_pop: the block leaves its list but keeps its HEAD flag. */
    method Pop(zone: Zone, order: nat) returns (idx: nat)
      requires ListsValid() && order <= MAX_ORDER
      modifies this`meta, this`heads, this`lists, this`free
      ensures idx == STACK_END ==> unchanged(this) && forall b :: b in free && b.order == order ==>
        ZoneOf(b.start) != zone
      ensures idx != STACK_END ==>
                && ListsValid() && Block(idx, order) in old(free) && ZoneOf(idx) == zone
                && free == old(free) - {Block(idx, order)}
                && (forall x :: 0 <= x < total ==>
                     meta[x].head == old(meta)[x].head && meta[x].order == old(meta)[x].order)
    {
      var key := Key(zone, order);
      assert OneList(meta, heads, lists, free, key);
      idx := heads[key];
      if idx == STACK_END {
        forall b | b in free && b.order == order
          ensures ZoneOf(b.start) != zone
        {
          assert b == Block(b.start, key.order) && b.start !in lists[key];
        }
        return;
      }
      assert idx == lists[key][0];
      ghost var meta' := meta[idx := meta[idx].(next := STACK_END)];
      ListedRemove(meta, heads, lists, free, key, 0, meta');
      heads := heads[key := meta[idx].next];
      meta := meta[idx := meta[idx].(next := STACK_END)];
      lists := lists[key := Without(lists[key], 0)];
      free := free - {Block(idx, order)};
    }

    // The unlinking inside pmm_buddy_remove, at position i of the list.
    method Unlink(key: Key, ghost i: nat, prev: nat, cur: nat)
      requires ListsValid() && key.order <= MAX_ORDER && OneList(meta, heads, lists, free, key)
      requires i < |lists[key]| && cur == lists[key][i]
      requires prev == if i == 0 then STACK_END else lists[key][i - 1]
      modifies this`meta, this`heads, this`lists, this`free
      ensures ListsValid() && free == old(free) - {Block(cur, key.order)}
      ensures cur < total && !meta[cur].head
      ensures forall x :: 0 <= x < total && x != cur ==>
        meta[x].head == old(meta)[x].head && meta[x].order == old(meta)[x].order
    {
      ListedUnlink(meta, heads, lists, free, key, i);
      RelinkedFlags(meta, lists[key], i);
      ghost var list, was := lists[key], meta;
      var next := meta[cur].next;
      if prev == STACK_END {
        heads := heads[key := next];
      } else {
        meta := meta[prev := meta[prev].(next := next)];
      }
      meta := meta[cur := FrameMeta(false, meta[cur].order, STACK_END)];
      assert meta == Relinked(was, list, i);
      assert heads == if i == 0 then old(heads)[key := was[list[0]].next] else old(heads);
      lists, free := lists[key := Without(list, i)], free - {Block(cur, key.order)};
    }

    /** pmm_buddy_remove: walk the list, unlink the target and clear its HEAD flag. */
    method Remove(zone: Zone, order: nat, target: nat) returns (found: bool)
      requires ListsValid() && order <= MAX_ORDER
      modifies this`meta, this`heads, this`lists, this`free
      ensures found <==> Block(target, order) in old(free) && ZoneOf(target) == zone
      ensures !found ==> unchanged(this)
      ensures found ==>
                && ListsValid() && free == old(free) - {Block(target, order)}
                && target < total && !meta[target].head
                && (forall x :: 0 <= x < total && x != target ==>
                     meta[x].head == old(meta)[x].head && meta[x].order == old(meta)[x].order)
    {
      var key := Key(zone, order);
      assert OneList(meta, heads, lists, free, key);
      ghost var list := lists[key];
      ghost var i := 0;
      var prev := STACK_END;
      var cur := heads[key];
      while cur != STACK_END
        invariant i <= |list| && cur == (if i < |list| then list[i] else STACK_END)
        invariant prev == (if i == 0 then STACK_END else list[i - 1])
        invariant target !in list[..i]
        invariant unchanged(this)
        decreases |list| - i
      {
        if cur == target {
          assert target in list;
          Unlink(key, i, prev, cur);
          return true;
        }
        prev := cur;
        cur := meta[cur].next;
        i := i + 1;
      }
      assert list[..i] == list;
      return false;
    }

    // One split: the upper half of the held block goes on its list.
    method SplitOnce(zone: Zone, idx: nat, cur: nat)
      requires ListsValid() && ZoneOf(idx) == zone
      requires HoldOut(free, Block(idx, cur + 1), used) && Flagged(meta, free, {idx})
      modifies this`used, this`meta, this`heads, this`lists, this`free
      ensures ListsValid() && used == old(used)
      ensures HoldOut(free, Block(idx, cur), used) && Flagged(meta, free, {idx})
    {
      ghost var h := Block(idx, cur + 1);
      HeldApart(free, h, used);
      HoldSplit(free, h, used);
      var buddyIdx := idx + Pow2(cur);
      assert Buddy(Block(idx, cur)) == Block(buddyIdx, cur);
      assert In(buddyIdx, h);
      ZoneOfBlock(h, buddyIdx);
      FillSame(used, Block(buddyIdx, cur));
      SetBlockBitmap(buddyIdx, cur, false);
      PushFlagged(zone, cur, buddyIdx, {idx});
    }

    method SplitDown(zone: Zone, idx: nat, from: nat, order: nat)
      requires ListsValid() && ZoneOf(idx) == zone && order <= from
      requires HoldOut(free, Block(idx, from), used) && Flagged(meta, free, {idx})
      modifies this`used, this`meta, this`heads, this`lists, this`free
      ensures ListsValid() && used == old(used)
      ensures HoldOut(free, Block(idx, order), used) && Flagged(meta, free, {idx})
    {
      var cur := from;
      while cur > order
        invariant order <= cur && ListsValid() && used == old(used)
        invariant HoldOut(free, Block(idx, cur), used) && Flagged(meta, free, {idx})
      {
        cur := cur - 1;
        SplitOnce(zone, idx, cur);
      }
    }

    // The held block is handed out.
    method TakeHeld(idx: nat, order: nat)
      requires ListsValid() && HoldOut(free, Block(idx, order), used) && Flagged(meta, free, {idx})
      requires freeFrames == |FreeSet(used)| && (total > 0 ==> used[0]) && Outstanding(live, used)
      modifies this
      ensures Valid() && idx != 0
      ensures used == Fill(old(used), Block(idx, order), true) && live == old(live) + {Block(idx, order)}
    {
      ghost var h := Block(idx, order);
      HeldApart(free, h, used);
      assert In(idx, h);
      HoldTake(free, h, used);
      CountTaken(used, h);
      OutstandingTake(live, used, h);
      MetaFrame(meta, heads, lists, free, idx, FrameMeta(false, order, STACK_END));
      SetBlockBitmap(idx, order, true);
      meta := meta[idx := FrameMeta(false, order, STACK_END)];
      freeFrames := freeFrames - Pow2(order);
      live := live + {h};
    }

    // A block just popped from the list of order `cur` serves the request.
    method ServeFrom(zone: Zone, idx: nat, cur: nat, order: nat, ghost before: set<Block>)
      requires ListsValid() && ZoneOf(idx) == zone && order <= cur
      requires Tiling(before, used) && Block(idx, cur) in before && free == before - {Block(idx, cur)}
      requires Flagged(meta, before, {})
      requires freeFrames == |FreeSet(used)| && (total > 0 ==> used[0]) && Outstanding(live, used)
      modifies this
      ensures Valid() && idx != 0
      ensures WellFormed(Block(idx, order), total) && AllFree(Block(idx, order), old(used))
      ensures used == Fill(old(used), Block(idx, order), true) && live == old(live) + {Block(idx, order)}
    {
      HoldPop(before, Block(idx, cur), used);
      SplitDown(zone, idx, cur, order);
      HeldApart(free, Block(idx, order), used);
      TakeHeld(idx, order);
    }

    // All lists of one zone, from the requested order upwards.
    method AllocInZone(order: nat, zone: Zone) returns (idx: nat)
      requires Valid() && order <= MAX_ORDER
      modifies this
      ensures Valid()
      ensures idx == STACK_END ==> unchanged(this) && NoRun(zone, order, used)
      ensures idx != STACK_END ==>
                && idx != 0 && RunIn(Block(idx, order), zone, old(used))
                && used == Fill(old(used), Block(idx, order), true) && live == old(live) + {Block(idx, order)}
    {
      var cur := order;
      while cur <= MAX_ORDER
        invariant order <= cur <= MAX_ORDER + 1 && Valid() && unchanged(this)
        invariant forall b :: b in free && order <= b.order < cur ==> ZoneOf(b.start) != zone
      {
        idx := Pop(zone, cur);
        if idx != STACK_END {
          ServeFrom(zone, idx, cur, order, old(free));
          return;
        }
        cur := cur + 1;
      }
      NoBlockNoRun(free, used, zone, order);
      idx := STACK_END;
    }

    /** pmm_buddy_alloc_block. Failure, address 0, means that no zone tried has a
        run; success comes from the first zone tried that has one. */
    method AllocBlock(order: nat, choice: ZoneChoice) returns (phys: nat)
      requires Valid() && order <= MAX_ORDER
      modifies this
      ensures Valid()
      ensures phys == 0 <==> forall zone :: zone in ZonesTried(choice) ==> NoRun(zone, order, old(used))
      ensures phys == 0 ==> unchanged(this)
      ensures phys != 0 ==>
                var b := Block(phys / PAGE_SIZE, order);
                && phys % PAGE_SIZE == 0
                && WellFormed(b, total) && AllFree(b, old(used))
                && used == Fill(old(used), b, true) && live == old(live) + {b}
                && (forall c, x: nat :: c in old(live) && In(x, b) ==> !In(x, c))
                && FromFirstZone(b, ZonesTried(choice), old(used))
    {
      var zones := ZonesTried(choice);
      var zi := 0;
      while zi < |zones|
        invariant 0 <= zi <= |zones| && Valid() && unchanged(this)
        invariant forall zj :: 0 <= zj < zi ==> NoRun(zones[zj], order, used)
      {
        var idx := AllocInZone(order, zones[zi]);
        if idx != STACK_END {
          RunFound(Block(idx, order), zones, zi, old(used));
          OutstandingTake(old(live), old(used), Block(idx, order));
          FrameAddress(idx);
          return idx * PAGE_SIZE;
        }
        zi := zi + 1;
      }
      phys := 0;
    }

    // The tests of the merge loop: they pass exactly when the buddy is a free block.
    method BuddyIsFree(zone: Zone, idx: nat, order: nat) returns (ok: bool, buddyIdx: nat)
      requires |used| == |meta| == total && ZoneOf(idx) == zone && order < MAX_ORDER
      requires HoldOut(free, Block(idx, order), used) && Flagged(meta, free, {}) && Aligned(idx, order)
      ensures buddyIdx == Buddy(Block(idx, order)).start
      ensures ok <==> Buddy(Block(idx, order)) in free
    {
      ghost var g := Buddy(Block(idx, order));
      XorIsBuddy(idx, order);
      BuddyZone(Block(idx, order));
      buddyIdx := Xor(idx, Pow2(order));
      if g in free {
        assert g in free + {Block(idx, order)} && In(buddyIdx, g);
        FitsZone(g, total);
      }
      ok := false;
      if buddyIdx >= total { return; }
      if !BlockFitsZone(buddyIdx, order, zone) { return; }
      if !BlockIsHead(buddyIdx, order) { return; }
      if used[buddyIdx] { return; }
      ok := true;
    }

    // One round of the merge loop: absorb the buddy if it is free.
    method MergeOnce(zone: Zone, idx: nat, order: nat) returns (merged: bool, idx': nat)
      requires ListsValid() && ZoneOf(idx) == zone && order < MAX_ORDER
      requires HoldOut(free, Block(idx, order), used) && Flagged(meta, free, {}) && Aligned(idx, order)
      modifies this`meta, this`heads, this`lists, this`free
      ensures ListsValid() && Flagged(meta, free, {})
      ensures !merged ==> idx' == idx && unchanged(this) && Buddy(Block(idx, order)) !in free
      ensures merged ==> Aligned(idx', order + 1) && ZoneOf(idx') == zone && HoldOut(free, Block(idx', order + 1), used)
    {
      ghost var h := Block(idx, order);
      idx' := idx;
      var buddyIdx;
      merged, buddyIdx := BuddyIsFree(zone, idx, order);
      if !merged { return; }
      BuddyZone(h);
      ParentHalves(h);
      HoldJoin(free, h, used);
      merged := Remove(zone, order, buddyIdx);
      if !merged { return; }
      if buddyIdx < idx { idx' := buddyIdx; }
    }

    method MergeUp(zone: Zone, start: nat, order0: nat) returns (idx: nat, order: nat)
      requires ListsValid() && ZoneOf(start) == zone && order0 <= MAX_ORDER && Aligned(start, order0)
      requires HoldOut(free, Block(start, order0), used) && Flagged(meta, free, {})
      modifies this`meta, this`heads, this`lists, this`free
      ensures ListsValid() && ZoneOf(idx) == zone && order <= MAX_ORDER && Aligned(idx, order)
      ensures HoldOut(free, Block(idx, order), used) && Flagged(meta, free, {})
      ensures order == MAX_ORDER || Buddy(Block(idx, order)) !in free
    {
      idx, order := start, order0;
      while order < MAX_ORDER
        invariant ListsValid() && ZoneOf(idx) == zone && order <= MAX_ORDER && Aligned(idx, order)
        invariant HoldOut(free, Block(idx, order), used) && Flagged(meta, free, {})
        decreases MAX_ORDER - order
      {
        var merged;
        merged, idx := MergeOnce(zone, idx, order);
        if !merged { return; }
        order := order + 1;
      }
    }

    ghost predicate Counted()
      reads this
    {
      freeFrames == |FreeSet(used)| && (total > 0 && |used| == total ==> used[0]) && Outstanding(live, used)
    }

    method BeginFree(start: nat, order: nat)
      requires Valid() && Block(start, order) in live
      modifies this`used, this`freeFrames, this`live
      ensures ListsValid() && Flagged(meta, free, {}) && HoldOut(free, Block(start, order), used) && Counted()
      ensures used == Fill(old(used), Block(start, order), false) && live == old(live) - {Block(start, order)}
    {
      ghost var b := Block(start, order);
      HoldGive(free, b, used);
      CountGiven(used, b);
      OutstandingGive(live, used, b);
      SetBlockBitmap(start, order, false);
      freeFrames := freeFrames + Pow2(order);
      live := live - {b};
    }

    method ListHeld(zone: Zone, idx: nat, order: nat)
      requires ListsValid() && ZoneOf(idx) == zone && order <= MAX_ORDER && Aligned(idx, order)
      requires HoldOut(free, Block(idx, order), used) && Flagged(meta, free, {}) && Counted()
      requires order == MAX_ORDER || Buddy(Block(idx, order)) !in free
      modifies this`meta, this`heads, this`lists, this`free
      ensures Valid()
    {
      HoldList(free, Block(idx, order), used);
      HeldApart(free, Block(idx, order), used);
      assert In(idx, Block(idx, order));
      Push(zone, order, idx);
    }

    /** pmm_buddy_free_block, for a block currently handed out. */
    method FreeBlock(start: nat, order0: nat)
      requires Valid() && Block(start, order0) in live
      modifies this
      ensures Valid()
      ensures used == Fill(old(used), Block(start, order0), false) && live == old(live) - {Block(start, order0)}
    {
      var zone := ZoneOf(start);
      BeginFree(start, order0);
      var idx, order := MergeUp(zone, start, order0);
      ListHeld(zone, idx, order);
    }

    // Clear the flag byte of a frame that starts no free block.
    method ClearFlags(x: nat)
      requires Valid() && x < total && used[x]
      modifies this`meta
      ensures Valid()
    {
      forall b | b in free
        ensures b.start != x
      {
        assert In(b.start, b);
      }
      MetaFrame(meta, heads, lists, free, x, meta[x].(head := false, order := 0));
      meta := meta[x := meta[x].(head := false, order := 0)];
    }

    // The inner frames of a block in use lose their flags.
    method ClearTail(base: nat, order: nat)
      requires Valid() && AllUsed(Block(base, order), used)
      modifies this`meta
      ensures Valid()
    {
      var i := 0;
      while i < Pow2(order)
        invariant i <= Pow2(order) && Valid()
      {
        if i != 0 {
          assert In(base + i, Block(base, order));
          ClearFlags(base + i);
        }
        i := i + 1;
      }
    }

    /** pmm_alloc_ex in the strict profile: order and trust checks, then the block,
        whose inner frames lose their flags. */
    method AllocEx(order: nat, choice: ZoneChoice, trust: Trust) returns (phys: nat)
      requires Valid()
      modifies this
      ensures Valid()
      ensures phys == 0 <==> order > MAX_ORDER || trust == Unverified ||
                             forall zone :: zone in ZonesTried(choice) ==> NoRun(zone, order, old(used))
      ensures phys == 0 ==> unchanged(this)
      ensures phys != 0 ==>
                var b := Block(phys / PAGE_SIZE, order);
                && phys % PAGE_SIZE == 0 && WellFormed(b, total) && AllFree(b, old(used))
                && used == Fill(old(used), b, true) && live == old(live) + {b}
                && (forall c, x: nat :: c in old(live) && In(x, b) ==> !In(x, c))
    {
      if order > MAX_ORDER {
        return 0;
      }
      if trust == Unverified {
        return 0;
      }
      phys := AllocBlock(order, choice);
      if phys == 0 {
        return;
      }
      FilledIsUsed(old(used), Block(phys / PAGE_SIZE, order));
      ClearTail(phys / PAGE_SIZE, order);
    }

    /** pmm_free_ex, for a block handed out with this order. */
    method FreeEx(phys: nat, order: nat)
      requires Valid()
      requires phys / PAGE_SIZE < total && order <= MAX_ORDER ==> Block(phys / PAGE_SIZE, order) in live
      modifies this
      ensures Valid()
      ensures phys / PAGE_SIZE >= total || order > MAX_ORDER ==> unchanged(this)
      ensures phys / PAGE_SIZE < total && order <= MAX_ORDER ==>
                var b := Block(phys / PAGE_SIZE, order);
                used == Fill(old(used), b, false) && live == old(live) - {b}
    {
      var idx := phys / PAGE_SIZE;
      if idx >= total {
        return;
      }
      if order > MAX_ORDER {
        return;
      }
      ghost var b := Block(idx, order);
      var i := 0;
      while i < Pow2(order)
        invariant i <= Pow2(order) && Valid() && used == old(used) && live == old(live)
      {
        if idx + i >= total {
          break;
        }
        assert In(idx + i, b);
        ClearFlags(idx + i);
        i := i + 1;
      }
      FreeBlock(idx, order);
    }

    /** Allocating any block and freeing it restores the same set of free blocks. */
    method AllocThenFree(order: nat, choice: ZoneChoice, trust: Trust)
      requires Valid()
      modifies this
      ensures Valid() && used == old(used) && live == old(live) && free == old(free)
    {
      var phys := AllocEx(order, choice, trust);
      if phys != 0 {
        ghost var b := Block(phys / PAGE_SIZE, order);
        OutstandingTake(old(live), old(used), b);
        FreeEx(phys, order);
        FilledAndCleared(old(used), b);
        TilingUnique(free, old(free), used);
      }
    }

    // Whether the whole candidate block is free.
    method RangeIsFree(idx: nat, pages: nat) returns (allFree: bool)
      requires |used| == total && idx + pages <= total
      ensures allFree <==> forall x :: idx <= x < idx + pages ==> !used[x]
    {
      var i := 0;
      while i < pages
        invariant i <= pages && forall x :: idx <= x < idx + i ==> !used[x]
      {
        if used[idx + i] {
          return false;
        }
        i := i + 1;
      }
      return true;
    }

    // The largest order to which the block at a free frame can grow.
    method BestOrder(idx: nat, zone: Zone) returns (best: nat)
      requires |used| == total && idx < total && !used[idx] && zone == ZoneOf(idx)
      ensures WellFormed(Block(idx, best), total) && AllFree(Block(idx, best), used) && Grown(Block(idx, best), used)
    {
      best := 0;
      while best < MAX_ORDER
        invariant best <= MAX_ORDER && WellFormed(Block(idx, best), total) && AllFree(Block(idx, best), used)
      {
        var fits := CandidateFits(idx, best + 1, zone);
        if !fits { return; }
        best := best + 1;
      }
    }

    // The tests of one candidate: alignment, the end of memory, the zone, and that every frame is free.
    method CandidateFits(idx: nat, candidate: nat, zone: Zone) returns (fits: bool)
      requires |used| == total && idx < total && zone == ZoneOf(idx) && 0 < candidate <= MAX_ORDER
      ensures fits <==> WellFormed(Block(idx, candidate), total) && AllFree(Block(idx, candidate), used)
    {
      var pages := Pow2(candidate);
      AndMask(candidate, idx);
      if And(pages - 1, idx) != 0 { return false; }
      if idx + pages > total { return false; }
      FitsZone(Block(idx, candidate), total);
      if !BlockFitsZone(idx, candidate, zone) { return false; }
      fits := RangeIsFree(idx, pages);
      FreeRange(idx, candidate, used);
    }

    // One block of the scan, at a free frame.
    method ScanOne(idx: nat) returns (next: nat)
      requires ListsValid() && Flagged(meta, free, {}) && Scanned(free, used, idx)
      requires idx < total && !used[idx]
      modifies this`meta, this`heads, this`lists, this`free
      ensures ListsValid() && Flagged(meta, free, {}) && Scanned(free, used, next) && next > idx
    {
      var zone := ZoneOf(idx);
      var best := BestOrder(idx, zone);
      ScanBlock(free, used, Block(idx, best));
      PushFlagged(zone, best, idx, {});
      next := idx + Pow2(best);
    }

    /** pmm_buddy_init_from_free_frames. */
    method InitFromFreeFrames()
      requires ListsValid() && free == {} && forall x :: 0 <= x < total ==> !meta[x].head
      modifies this`meta, this`heads, this`lists, this`free
      ensures ListsValid() && Flagged(meta, free, {}) && Tiling(free, used)
    {
      var idx := 0;
      while idx < total
        invariant ListsValid() && Flagged(meta, free, {}) && Scanned(free, used, idx)
        decreases total - idx
      {
        if used[idx] {
          ScanUsed(free, used, idx);
          idx := idx + 1;
        } else {
          idx := ScanOne(idx);
        }
      }
      ScanDone(free, used, idx);
    }

    /** The allocator as pmm_init leaves it, on the bitmap of usable frames. */
    constructor (bitmap: seq<bool>)
      requires |bitmap| < STACK_END && (|bitmap| > 0 ==> bitmap[0])
      ensures Valid() && used == bitmap && live == {}
    {
      total := |bitmap|;
      used := bitmap;
      meta := BlankMeta(|bitmap|);
      heads := ForAllKeys(STACK_END);
      lists := ForAllKeys([]);
      freeFrames := |FreeSet(bitmap)|;
      free, live := {}, {};
      new;
      BlankListed(total);
      InitFromFreeFrames();
    }
  }

  lemma MetaFrame(meta: seq<FrameMeta>, heads: map<Key, nat>, lists: map<Key, seq<nat>>, free: set<Block>, x: nat,
                  m: FrameMeta)
    requires Listed(meta, heads, lists, free) && x < |meta| && forall b :: b in free ==> b.start != x
    ensures Listed(meta[x := m], heads, lists, free)
  {
    forall k: Key | k.order <= MAX_ORDER
      ensures OneList(meta[x := m], heads, lists, free, k)
    {
      assert OneList(meta, heads, lists, free, k);
      LinkedFrame(meta, heads[k], lists[k], x, m);
    }
  }
}
