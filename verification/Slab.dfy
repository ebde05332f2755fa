/**
 The slab allocator of one cache: pages split into slots, kept on free, partial and
 full lists per mode.
 */
module Slab {

  import opened Lists
  import opened Options
  import opened IntrusiveQueue
  import opened SlabLists

  const PAGE: nat := 4096
  const HEADER: nat := 72
  const SLOTS: nat := 256
  const MODES: nat := 6

  datatype Fill = Free | Partial | Full

  /** The header of a slab, less its links. A set bit marks a free slot. */
  datatype Slab = Slab(mode: nat, fill: Fill, hint: nat, inUse: nat, free: seq<bool>)

  /** The list for a fill state and mode. */
  function ListOf(fill: Fill, mode: nat): nat {
    match fill
    case Free => mode
    case Partial => MODES + mode
    case Full => 2 * MODES + mode
  }

  // `settled` slabs with nothing in use are marked free.
  ghost predicate SlabOk(s: Slab, max: nat, settled: bool) {
    && s.mode < MODES && |s.free| == SLOTS && max <= SLOTS && s.inUse == Used(s.free, max)
    && (s.fill == Full <==> s.inUse == max)
    && (s.fill == Free ==> s.inUse == 0)
    && (settled && s.inUse == 0 ==> s.fill == Free)
  }

  class Cache {
    const objectSize: nat
    const max: nat
    const minFree: nat
    const modes: set<nat>

    // Slabs and their links, by page number.
    var slabs: map<nat, Slab>
    var next: Links
    var prev: Links
    var heads: seq<Option<nat>>
    var total: nat

    // The lists, the list each slab is on, and the live objects as pages and slots.
    ghost var lists: seq<seq<nat>>
    ghost var home: map<nat, nat>
    ghost var live: set<(nat, nat)>

    ghost predicate Linked()
      reads `next, `prev, `heads, `lists, `home
    {
      |lists| == 3 * MODES && Listed(next, prev, heads, lists, home)
    }

    ghost predicate SlabAt(s: nat, loose: Option<nat>)
      reads `slabs, `home
    {
      s in slabs ==>
        && SlabOk(slabs[s], max, Some(s) != loose)
        && s in home && home[s] == ListOf(slabs[s].fill, slabs[s].mode)
    }

    // Every slab but perhaps `loose` is settled, and on the list of its fill and mode.
    ghost predicate Slabs(loose: Option<nat>)
      reads `slabs, `home
    {
      && home.Keys == slabs.Keys
      && forall s {:trigger SlabAt(s, loose)} :: SlabAt(s, loose)
    }

    ghost predicate LiveAt(s: nat, i: nat)
      reads `slabs, `live
    {
      (s, i) in live <==> s in slabs && i < max && |slabs[s].free| == SLOTS && i < SLOTS && !slabs[s].free[i]
    }

    // The live objects are the clear bits, and are counted.
    ghost predicate Counted()
      reads `slabs, `live, `total
    {
      && (forall s: nat, i: nat {:trigger LiveAt(s, i)} :: LiveAt(s, i))
      && total == |live|
    }

    ghost predicate Sized() {
      0 < objectSize && 0 < max <= SLOTS && HEADER + max * objectSize <= PAGE
    }

    ghost predicate Spare()
      reads `lists
    {
      forall m {:trigger lists[m]} :: 0 <= m < MODES && m < |lists| ==> |lists[m]| <= minFree
    }

    ghost predicate Valid()
      reads this
    {
      Sized() && Linked() && Slabs(None) && Counted() && Spare()
    }

    constructor (objectSize: nat, minFree: nat, modes: set<nat>)
      requires 0 < objectSize && objectSize + HEADER <= PAGE
      ensures Valid() && slabs == map[] && live == {}
    {
      this.objectSize, this.minFree, this.modes := objectSize, minFree, modes;
      var fit := (PAGE - HEADER) / objectSize;
      max := if fit > SLOTS then SLOTS else fit;
      slabs, next, prev, total := map[], map[], map[], 0;
      heads := seq(3 * MODES, _ => None);
      lists, home, live := seq(3 * MODES, _ => []), map[], {};
      new;
      Room(objectSize, max);
    }

    // ---- Lists ----

    method ListPush(s: nat, k: nat)
      requires Linked() && s !in home && k < |lists|
      modifies `next, `prev, `heads, `lists, `home
      ensures Linked() && lists == old(lists)[k := [s] + old(lists)[k]] && home == old(home)[s := k]
    {
      assert ListedAt(next, prev, heads, lists, home, k);
      SlabLists.ListPush(next, prev, heads[k], lists[k], s);
      prev := prev[s := None];
      next := next[s := heads[k]];
      if heads[k].Some? {
        prev := prev[heads[k].value := Some(s)];
      }
      heads := heads[k := Some(s)];
      Relisted(old(next), old(prev), old(heads), lists, home, next, prev, Some(s), [s] + lists[k], home[s := k], k);
      lists, home := lists[k := [s] + lists[k]], home[s := k];
    }

    method ListRemove(s: nat, k: nat)
      requires Linked() && s in home && home[s] == k < |lists|
      modifies `next, `prev, `heads, `lists, `home
      ensures Linked() && home == old(home) - {s}
      ensures lists == old(lists)[k := lists[k]] && |lists[k]| == |old(lists)[k]| - 1
    {
      ghost var q := RemoveListed(next, prev, heads, lists, home, k, s);
      assert s in next && s in prev;
      var after, before := next[s], prev[s];
      if before.Some? {
        next := next[before.value := after];
      }
      if after.Some? {
        prev := prev[after.value := before];
      }
      if heads[k] == Some(s) {
        heads := heads[k := after];
      }
      next := next[s := None];
      prev := prev[s := None];
      assert heads == old(heads)[k := heads[k]];
      lists, home := lists[k := q], home - {s};
    }

    // From one list to another, as the fill state changes.
    method Move(s: nat, fill: Fill)
      requires Linked() && s in slabs && slabs[s].mode < MODES && home.Keys == slabs.Keys
      requires home[s] == ListOf(slabs[s].fill, slabs[s].mode)
      modifies `slabs, `next, `prev, `heads, `lists, `home
      ensures Linked() && slabs == old(slabs)[s := old(slabs)[s].(fill := fill)]
      ensures home == old(home)[s := ListOf(fill, slabs[s].mode)] && home.Keys == slabs.Keys
      ensures fill != Free && old(Spare()) ==> Spare()
      ensures old(Counted()) ==> Counted()
    {
      var from, to := ListOf(slabs[s].fill, slabs[s].mode), ListOf(fill, slabs[s].mode);
      ListRemove(s, from);
      slabs := slabs[s := slabs[s].(fill := fill)];
      ListPush(s, to);
      if old(Counted()) {
        forall t: nat, i: nat
          ensures LiveAt(t, i)
        {
          assert old(LiveAt(t, i));
        }
      }
    }

    // Slab `s` moved between lists, keeping its bitmap; the others are as they were.
    twostate lemma Reframe(s: nat)
      requires old(Valid()) && s in old(slabs) && old(slabs)[s].inUse == 0 && 0 < max
      requires slabs == old(slabs)[s := old(slabs)[s].(fill := Partial)]
      requires home == old(home)[s := ListOf(Partial, slabs[s].mode)]
      ensures Slabs(Some(s))
    {
      forall t
        ensures SlabAt(t, Some(s))
      {
        assert old(SlabAt(t, None));
      }
    }

    lemma Settle(s: nat)
      requires Valid()
      ensures ValidBut(s) && SlabAt(s, None)
    {
      forall t
        ensures SlabAt(t, Some(s))
      {
        assert SlabAt(t, None);
      }
    }

    // ---- Allocation ----

    // Everything holds but that slab `s` may be marked partial with nothing in use.
    ghost predicate ValidBut(s: nat)
      reads this
    {
      Sized() && Linked() && Slabs(Some(s)) && Counted() && Spare()
    }

    // A fresh page becomes a slab with every slot free.
    method AllocatePage(page: nat, mode: nat)
      requires Valid() && page !in slabs && mode < MODES
      modifies `slabs, `next, `prev, `heads, `lists, `home
      ensures ValidBut(page) && page in slabs && slabs[page].fill == Partial && slabs[page].mode == mode
    {
      var free := seq(SLOTS, i => i < max);
      UsedAll(free, max);
      slabs := slabs[page := Slab(mode, Partial, 0, 0, free)];
      ListPush(page, ListOf(Partial, mode));
      forall s
        ensures SlabAt(s, Some(page))
      {
        assert old(SlabAt(s, None));
      }
      forall s: nat, i: nat
        ensures LiveAt(s, i)
      {
        assert old(LiveAt(s, i));
      }
    }

    // The slab to allocate from: a partial one, else a free one, else a new page if there is one.
    method Pick(mode: nat, page: Option<nat>) returns (s: Option<nat>)
      requires Valid() && mode < MODES && (page.Some? ==> page.value !in slabs)
      modifies `slabs, `next, `prev, `heads, `lists, `home
      ensures s.None? <==> !old(Stocked(mode)) && page.None?
      ensures s.None? ==> Valid() && slabs == old(slabs)
      ensures s.Some? ==>
        ValidBut(s.value) && s.value in slabs && slabs[s.value].fill == Partial && slabs[s.value].mode == mode
    {
      assert ListedAt(next, prev, heads, lists, home, ListOf(Partial, mode));
      assert ListedAt(next, prev, heads, lists, home, ListOf(Free, mode));
      s := heads[ListOf(Partial, mode)];
      if s.Some? {
        assert s.value in lists[ListOf(Partial, mode)];
        Settle(s.value);
        return;
      }
      s := heads[ListOf(Free, mode)];
      if s.Some? {
        assert s.value in lists[ListOf(Free, mode)];
        assert SlabAt(s.value, None);
        Move(s.value, Partial);
        Reframe(s.value);
        return;
      }
      if page.Some? {
        AllocatePage(page.value, mode);
        s := page;
      }
    }

    // Marking slot i of slab `s` used or free, with the slab's counts.
    ghost predicate Marked(before: Slab, after: Slab, i: nat, free: bool)
    {
      && i < max <= SLOTS == |before.free| && after.mode == before.mode && after.fill == before.fill
      && before.free[i] != free && after.free == before.free[i := free]
      && after.inUse == (if free then before.inUse - 1 else before.inUse + 1)
    }

    // Take a free slot of slab `s`: there is one.
    method TakeSlot(s: nat) returns (slot: nat)
      requires ValidBut(s) && s in slabs && slabs[s].fill == Partial
      modifies `slabs, `total, `live
      ensures s in slabs && Marked(old(slabs)[s], slabs[s], slot, false) && slabs == old(slabs)[s := slabs[s]]
      ensures (s, slot) !in old(live) && live == old(live) + {(s, slot)} && Counted()
    {
      assert SlabAt(s, Some(s));
      var found, hint := FindFreeSlot(slabs[s].free, max, slabs[s].hint);
      // The panic for a partial slab without a free slot cannot happen.
      assert found >= 0;
      slot := found;
      assert LiveAt(s, slot);
      slabs := slabs[s := slabs[s].(hint := hint, free := slabs[s].free[slot := false], inUse := slabs[s].inUse + 1)];
      total := total + 1;
      live := live + {(s, slot)};
      forall t: nat, i: nat
        ensures LiveAt(t, i)
      {
        assert old(LiveAt(t, i));
      }
    }

    // Some slab of the mode has a free slot.
    ghost predicate Stocked(mode: nat)
      requires Linked() && mode < MODES
      reads `next, `prev, `heads, `lists, `home
    {
      lists[ListOf(Partial, mode)] != [] || lists[ListOf(Free, mode)] != []
    }

    method AllocFrom(s: nat) returns (slot: nat)
      requires ValidBut(s) && s in slabs && slabs[s].fill == Partial
      modifies this
      ensures Valid() && s in slabs && slabs[s].mode == old(slabs)[s].mode
      ensures (s, slot) !in old(live) && live == old(live) + {(s, slot)}
    {
      assert SlabAt(s, Some(s));
      slot := TakeSlot(s);
      UsedUpdate(old(slabs)[s].free, max, slot, false);
      if slabs[s].inUse == max {
        Move(s, Full);
      }
      AfterTake(s);
    }

    // Slab `s` gained an object, and its fill state says so.
    twostate lemma AfterTake(s: nat)
      requires old(ValidBut(s)) && s in old(slabs) && s in slabs && slabs == old(slabs)[s := slabs[s]]
      requires |old(slabs)[s].free| == SLOTS == |slabs[s].free| && slabs[s].mode == old(slabs)[s].mode
      requires slabs[s].inUse == Used(slabs[s].free, max) > 0 &&
        slabs[s].fill == (if slabs[s].inUse == max then Full else Partial)
      requires home == old(home)[s := ListOf(slabs[s].fill, slabs[s].mode)]
      ensures Slabs(None)
    {
      forall t
        ensures SlabAt(t, None)
      {
        assert old(SlabAt(t, Some(s)));
      }
    }

    /** Allocation: a new object of the current mode, disjoint from all live ones, unless the cache
        forbids the mode or there is neither a slab with a free slot nor a page. */
    method Alloc(mode: nat, page: Option<nat>) returns (r: Option<nat>, ghost s: nat, ghost slot: nat)
      requires Valid() && (page.Some? ==> page.value !in slabs)
      modifies this
      ensures Valid()
      ensures r.None? <==> !(mode < MODES && mode in modes && (old(Stocked(mode)) || page.Some?))
      ensures r.None? ==> live == old(live) && slabs == old(slabs)
      ensures r.Some? ==> r.value == Address(s, slot) && s in slabs && slabs[s].mode == mode
      ensures r.Some? ==> (s, slot) !in old(live) && live == old(live) + {(s, slot)}
    {
      s, slot := 0, 0;
      if mode >= MODES || mode !in modes {
        return None, s, slot;
      }
      var picked := Pick(mode, page);
      if picked.None? {
        return None, s, slot;
      }
      var i := AllocFrom(picked.value);
      return Some(Address(picked.value, i)), picked.value, i;
    }

    function Address(s: nat, slot: nat): nat {
      s * PAGE + HEADER + slot * objectSize
    }

    // ---- Freeing ----

    method ValidatePointer(s: nat, addr: nat) returns (slot: int)
      requires Sized()
      ensures -1 <= slot < max
      ensures slot >= 0 ==> addr == Address(s, slot)
      ensures slot < 0 ==> forall i: nat {:trigger Address(s, i)} :: i < max ==> addr != Address(s, i)
    {
      var payload := s * PAGE + HEADER;
      if addr < payload {
        return -1;
      }
      var offset := addr - payload;
      Slots(offset, objectSize, max);
      if offset % objectSize != 0 || offset / objectSize >= max {
        return -1;
      }
      return offset / objectSize;
    }

    // Clear the use of a live slot.
    method GiveSlot(s: nat, slot: nat)
      requires Valid() && (s, slot) in live
      modifies `slabs, `total, `live
      ensures s in old(slabs) && s in slabs && Marked(old(slabs)[s], slabs[s], slot, true) &&
        slabs == old(slabs)[s := slabs[s]]
      ensures live == old(live) - {(s, slot)} && Counted()
    {
      assert LiveAt(s, slot) && SlabAt(s, None);
      UsedUpdate(slabs[s].free, max, slot, true);
      slabs := slabs[s := slabs[s].(free := slabs[s].free[slot := true], inUse := slabs[s].inUse - 1)];
      if total > 0 {
        total := total - 1;
      }
      live := live - {(s, slot)};
      forall t: nat, i: nat
        ensures LiveAt(t, i)
      {
        assert old(LiveAt(t, i));
      }
    }

    // Free slabs of a mode, counted no further than the cache keeps.
    method CountFree(mode: nat) returns (n: nat)
      requires Linked() && mode < MODES
      ensures n == if |lists[mode]| < minFree then |lists[mode]| else minFree
    {
      assert ListedAt(next, prev, heads, lists, home, mode);
      n := 0;
      var it := heads[mode];
      while it.Some? && n < minFree
        invariant 0 <= n <= minFree && n <= |lists[mode]| && it == At(lists[mode], n)
      {
        assert LinkAt(next, lists[mode], n);
        n := n + 1;
        it := next[it.value];
      }
    }

    // A slab with nothing in use goes to the free list, or back to the page allocator.
    method Retire(s: nat)
      requires ValidBut(s) && s in slabs && slabs[s].fill == Partial && slabs[s].inUse == 0
      modifies `slabs, `next, `prev, `heads, `lists, `home
      ensures Valid() && old(slabs)[s].mode < MODES
      ensures var mode := old(slabs)[s].mode;
              if |old(lists)[mode]| < minFree then
                slabs == old(slabs)[s := old(slabs)[s].(fill := Free)] && lists[mode] == [s] + old(lists)[mode]
              else
                slabs == old(slabs) - {s} && lists[mode] == old(lists)[mode]
    {
      assert SlabAt(s, Some(s));
      var mode := slabs[s].mode;
      ListRemove(s, ListOf(Partial, mode));
      var keep := false;
      if minFree > 0 {
        var count := CountFree(mode);
        keep := count < minFree;
      }
      if keep {
        slabs := slabs[s := slabs[s].(fill := Free)];
        ListPush(s, ListOf(Free, mode));
      } else {
        slabs := slabs - {s};
      }
      AfterRetire(s);
    }

    twostate lemma AfterRetire(s: nat)
      requires old(ValidBut(s)) && s in old(slabs) && old(slabs)[s].inUse == 0
      requires (slabs == old(slabs) - {s} && home == old(home) - {s})
            || (slabs == old(slabs)[s := old(slabs)[s].(fill := Free)] &&
                home == old(home)[s := ListOf(Free, old(slabs)[s].mode)])
      requires live == old(live) && total == old(total)
      ensures Slabs(None) && Counted()
    {
      assert old(SlabAt(s, Some(s)));
      UsedAll(old(slabs)[s].free, max);
      forall t
        ensures SlabAt(t, None)
      {
        assert old(SlabAt(t, Some(s)));
      }
      forall t: nat, i: nat
        ensures LiveAt(t, i)
      {
        assert old(LiveAt(t, i));
      }
    }

    method Release(s: nat, slot: nat)
      requires Valid() && (s, slot) in live
      modifies this
      ensures Valid() && live == old(live) - {(s, slot)}
    {
      assert LiveAt(s, slot) && SlabAt(s, None);
      var wasFull := slabs[s].fill == Full;
      UsedUpdate(slabs[s].free, max, slot, true);
      UsedAll(slabs[s].free, max);
      GiveSlot(s, slot);
      if wasFull {
        Move(s, Partial);
      }
      AfterGive(s);
      if slabs[s].inUse == 0 {
        Retire(s);
      } else {
        Settled(s);
      }
    }

    // Slab `s` lost an object and counts as partial.
    twostate lemma AfterGive(s: nat)
      requires old(Valid()) && s in old(slabs) && s in slabs && slabs == old(slabs)[s := slabs[s]]
      requires |slabs[s].free| == SLOTS && slabs[s].mode == old(slabs)[s].mode < MODES
      requires slabs[s].inUse == Used(slabs[s].free, max) < max && slabs[s].fill == Partial
      requires home == old(home)[s := ListOf(Partial, slabs[s].mode)]
      ensures Slabs(Some(s))
    {
      forall t
        ensures SlabAt(t, Some(s))
      {
        assert old(SlabAt(t, None));
      }
    }

    lemma Settled(s: nat)
      requires ValidBut(s) && s in slabs && slabs[s].inUse != 0
      ensures Valid()
    {
      forall t
        ensures SlabAt(t, None)
      {
        assert SlabAt(t, Some(s));
      }
    }

    // A live object sits at `addr`.
    ghost predicate LiveAddress(addr: nat, s: nat, i: nat)
      reads `live
    {
      (s, i) in live && addr == Address(s, i)
    }

    // The checks of a free: which live object, if any, the address names.
    method Locate(addr: nat) returns (r: Outcome, s: nat, slot: nat)
      requires Valid()
      ensures r == Freed ==> LiveAddress(addr, s, slot)
      ensures r != Freed ==> forall t: nat, i: nat :: !LiveAddress(addr, t, i)
    {
      s, slot := addr / PAGE, 0;
      forall t: nat, i: nat | LiveAddress(addr, t, i)
        ensures addr != 0 && t == s && s in slabs && i < max && |slabs[s].free| == SLOTS && !slabs[s].free[i]
      {
        assert LiveAt(t, i);
        InPage(t, i);
      }
      if addr == 0 {
        return Ignored, s, slot;
      }
      if s !in slabs {
        return NotOurs, s, slot;
      }
      assert SlabAt(s, None);
      var found := ValidatePointer(s, addr);
      if found < 0 {
        return BadShape, s, slot;
      }
      slot := found;
      assert LiveAt(s, slot);
      forall i: nat | LiveAddress(addr, s, i)
        ensures i == slot
      {
        SameSlot(s, i, slot);
      }
      if slabs[s].free[slot] {
        return DoubleFree, s, slot;
      }
      return Freed, s, slot;
    }

    lemma SameSlot(s: nat, i: nat, j: nat)
      requires Sized() && Address(s, i) == Address(s, j)
      ensures i == j
    {
      if i < j {
        Further(i, j, objectSize);
      } else if j < i {
        Further(j, i, objectSize);
      }
    }

    /** Freeing takes back exactly the live object at the address; any other address is refused and
        changes nothing. */
    method FreeObject(addr: nat) returns (r: Outcome, ghost s: nat, ghost slot: nat)
      requires Valid()
      modifies this
      ensures Valid()
      ensures r == Freed ==> old(LiveAddress(addr, s, slot)) && live == old(live) - {(s, slot)}
      ensures r != Freed ==> unchanged(this) && forall t: nat, i: nat :: !LiveAddress(addr, t, i)
    {
      var page, index;
      r, page, index := Locate(addr);
      s, slot := page, index;
      if r == Freed {
        Release(page, index);
      }
    }

    /** Live objects lie in their page behind the header, and no two overlap. */
    lemma InPage(s: nat, i: nat)
      requires Sized() && i < max
      ensures s * PAGE + HEADER <= Address(s, i) && Address(s, i) + objectSize <= (s + 1) * PAGE
      ensures Address(s, i) / PAGE == s
    {
      Further(i, max, objectSize);
    }

    lemma LiveDisjoint(s: nat, i: nat, t: nat, j: nat)
      requires Valid() && (s, i) in live && (t, j) in live && (s, i) != (t, j)
      ensures Address(s, i) + objectSize <= Address(t, j) || Address(t, j) + objectSize <= Address(s, i)
    {
      assert LiveAt(s, i) && LiveAt(t, j);
      InPage(s, i);
      InPage(t, j);
      if s == t {
        if i < j {
          Further(i, j, objectSize);
        } else {
          Further(j, i, objectSize);
        }
      }
    }
  }

  datatype Outcome = Ignored | Freed | NotOurs | BadShape | DoubleFree

  lemma Room(size: nat, max: nat)
    requires 0 < size && size + HEADER <= PAGE
    requires max == (if (PAGE - HEADER) / size > SLOTS then SLOTS else (PAGE - HEADER) / size)
    ensures 0 < max <= SLOTS && HEADER + max * size <= PAGE
  {
    var fit := (PAGE - HEADER) / size;
    assert fit * size <= PAGE - HEADER;
    assert max * size <= fit * size;
  }

  lemma Slots(offset: nat, size: nat, max: nat)
    requires 0 < size
    ensures offset % size == 0 ==> offset == offset / size * size
    ensures offset % size != 0 || offset / size >= max ==> forall i: nat {:trigger i * size} :: i < max ==>
      offset != i * size
  {
    forall i: nat | offset == i * size
      ensures offset % size == 0 && offset / size == i
    {
      Multiple(i, size);
    }
  }

  lemma Multiple(i: nat, size: nat)
    requires 0 < size
    ensures (i * size) / size == i && (i * size) % size == 0
  {
    Quotient(i * size, i, size, (i * size) / size);
  }

  lemma Quotient(n: int, i: int, size: int, q: int)
    requires 0 < size && n == i * size && q * size <= n < q * size + size
    ensures q == i
  {
    if q < i {
      Further(q, i, size);
    }
    if i < q {
      Further(i, q, size);
    }
  }

  lemma {:induction false} Further(a: int, b: int, size: int)
    requires a < b && 0 <= size
    ensures a * size + size <= b * size
    decreases b - a
  {
    assert b * size == (b - 1) * size + size;
    if b == a + 1 {
    } else {
      Further(a, b - 1, size);
    }
  }
}
