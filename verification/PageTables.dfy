/**
 The page-table contract engine on 4 KiB pages of the user half, proved to
 refine a flat map from page numbers to leaf entries.
 */
module PageTables {

  import opened Bits
  import opened Options
  import opened PageEntries
  import opened PageTree
  import opened Words

  datatype Op = Map | Unmap

  datatype Outcome = Ok | ErrAlreadyMapped | ErrNotMapped | ErrWalk | ErrAlloc | ErrRollback

  function Entry(flat: map<nat, nat>, p: nat): nat {
    if p in flat then flat[p] else 0
  }

  /** What the hardware sees: a present leaf, or no translation. */
  function Translation(flat: map<nat, nat>, p: nat): Option<nat> {
    var e := Entry(flat, p);
    if IsPresent(e) then Some(e) else None
  }

  /** The leaf of every user page is its entry in the flat map. */
  ghost predicate Refines(mem: map<nat, seq<nat>>, path: map<nat, seq<nat>>, root: nat, flat: map<nat, nat>)
    requires Tree(mem, path, root)
  {
    forall p: nat {:trigger Leaf(mem, path, root, p)} :: p < USER_PAGES ==> Leaf(mem, path, root, p) == Entry(flat, p)
  }

  lemma GrowRefines(mem: map<nat, seq<nat>>, path: map<nat, seq<nat>>, root: nat, t: nat, i: nat, e: nat,
                    flat: map<nat, nat>)
    requires CanGrow(mem, path, root, t, i, e) && Refines(mem, path, root, flat)
    ensures var mem', path' := GrownMem(mem, t, i, e), GrownPath(path, t, i, e);
            Tree(mem', path', root) && Refines(mem', path', root, flat)
  {
    GrowTree(mem, path, root, t, i, e);
    forall p: nat | p < USER_PAGES
      ensures Leaf(GrownMem(mem, t, i, e), GrownPath(path, t, i, e), root, p) == Entry(flat, p)
    {
      GrowLeaf(mem, path, root, t, i, e, p);
    }
  }

  lemma PutRefines(mem: map<nat, seq<nat>>, path: map<nat, seq<nat>>, root: nat, p: nat, pt: nat, e: nat,
                   flat: map<nat, nat>)
    requires Tree(mem, path, root) && p < USER_PAGES && UserPath(PathOf(p))
    requires Node(mem, path, root, PathOf(p)) == Some(pt) && Refines(mem, path, root, flat)
    ensures var mem' := Put(mem, pt, SlotIndex(p), e);
            Tree(mem', path, root) && Refines(mem', path, root, flat[p := e])
  {
    PutLeaf(mem, path, root, p, pt, e, p);
    forall q: nat | q < USER_PAGES
      ensures Leaf(Put(mem, pt, SlotIndex(p), e), path, root, q) == Entry(flat[p := e], q)
    {
      PutLeaf(mem, path, root, p, pt, e, q);
    }
  }

  class AddressSpace {
    const root: nat
    const user: bool
    var mem: map<nat, seq<nat>>
    // The frames the physical allocator will hand out; 0 is a failed allocation.
    var supply: seq<nat>

    ghost var path: map<nat, seq<nat>>
    ghost var flat: map<nat, nat>
    // The places that have a table.
    ghost var tables: set<seq<nat>>

    ghost predicate SupplyOk()
      reads this
    {
      && (forall i :: 0 <= i < |supply| && supply[i] != 0 ==> Low(supply[i], 12) == 0 && supply[i] !in mem)
      && (forall i, j :: 0 <= i < j < |supply| && supply[i] != 0 ==> supply[i] != supply[j])
    }

    ghost predicate Valid()
      reads this
    {
      && Tree(mem, path, root)
      && SupplyOk()
      && Refines(mem, path, root, flat)
      && Listed(mem, path, root, tables)
    }

    constructor (pml4: nat, forProcess: bool, frames: seq<nat>)
      requires forall i :: 0 <= i < |frames| && frames[i] != 0 ==> Low(frames[i], 12) == 0 && frames[i] != pml4
      requires forall i, j :: 0 <= i < j < |frames| && frames[i] != 0 ==> frames[i] != frames[j]
      ensures Valid() && flat == map[] && supply == frames && tables == {[]}
    {
      root := pml4;
      user := forProcess;
      mem := map[pml4 := seq<nat>(ENTRIES, _ => 0)];
      supply := frames;
      path := map[pml4 := []];
      flat := map[];
      tables := {[]};
      new;
      NotPresentZero();
      forall p: nat | p < USER_PAGES
        ensures Leaf(mem, path, root, p) == 0
      {
        PathOfUser(p);
        EmptyTree(mem, path, root, PathOf(p));
      }
      forall idxs | UserPath(idxs)
        ensures Node(mem, path, root, idxs).Some? <==> idxs in tables
      {
        EmptyTree(mem, path, root, idxs);
      }
    }

    // The part of get_next_level that hangs a fresh zeroed table into an entry.
    method HangTable(table: nat, index: nat, frame: nat)
      requires Valid() && table in mem && index < ENTRIES && UserPath(path[table] + [index])
      requires Node(mem, path, root, path[table]) == Some(table) && !IsPresent(mem[table][index])
      requires Low(frame, 12) == 0 && frame !in mem && frame !in supply
      modifies this`mem, this`path, this`tables
      ensures Valid() && frame in mem && UserPath(old(path[table]) + [index])
      ensures Node(mem, path, root, old(path[table]) + [index]) == Some(frame)
      ensures tables == old(tables) + {old(path[table]) + [index]}
    {
      var e := TableEntry(frame, user);
      TableEntryMeans(frame, user);
      GrowFound(mem, path, root, table, index, e);
      GrowRefines(mem, path, root, table, index, e, flat);
      GrowListed(mem, path, root, table, index, e, tables);
      ghost var grown := GrownMem(mem, table, index, e);
      tables := tables + {path[table] + [index]};
      path := GrownPath(path, table, index, e);
      mem := mem[frame := Zeros()];
      mem := Put(mem, table, index, e);
      assert mem == grown;
    }

    /** get_next_level: follow a present entry, or hang a fresh table there. */
    method NextLevel(table: nat, index: nat, ghost place: seq<nat>) returns (next: Option<nat>)
      requires Valid() && table in mem && index < ENTRIES && place == path[table] + [index] && UserPath(place)
      requires Node(mem, path, root, path[table]) == Some(table)
      modifies this`mem, this`supply, this`path, this`tables
      ensures Valid()
      ensures next.Some? ==> Node(mem, path, root, place) == next
      ensures next.Some? <==> LacksPlace(old(tables), place) <= Stock(old(supply))
      ensures next.Some? ==> tables == old(tables) + {place}
      ensures next.Some? ==> Stock(supply) == Stock(old(supply)) - LacksPlace(old(tables), place)
    {
      NodeStep(mem, path, root, path[table], index);
      if IsPresent(mem[table][index]) {
        assert ChildOk(mem, path, table, index);
        assert (path[table] + [index])[..|path[table]|] == path[table];
        return Some(TableOf(mem[table][index]));
      }
      if supply == [] {
        return None;
      }
      var frame := supply[0];
      supply := supply[1..];
      if frame == 0 {
        return None;
      }
      HangTable(table, index, frame);
      next := Some(frame);
    }

    /** vmm_walk_leaf_noalloc: the leaf table and slot of a page. */
    method WalkLeaf(p: nat) returns (leaf: Option<nat>)
      requires Valid() && p < USER_PAGES
      ensures UserPath(PathOf(p)) && leaf == Node(mem, path, root, PathOf(p))
    {
      PathOfUser(p);
      ghost var top, upper := [TopIndex(p)], [TopIndex(p), UpperIndex(p)];
      assert [] + [TopIndex(p)] == top && top + [UpperIndex(p)] == upper && upper + [MiddleIndex(p)] == PathOf(p);
      NodeStep(mem, path, root, [], TopIndex(p));
      NodeStep(mem, path, root, top, UpperIndex(p));
      NodeStep(mem, path, root, upper, MiddleIndex(p));
      leaf := None;
      if !IsPresent(mem[root][TopIndex(p)]) { return; }
      var pdpt := TableOf(mem[root][TopIndex(p)]);
      if !IsPresent(mem[pdpt][UpperIndex(p)]) { return; }
      var pd := TableOf(mem[pdpt][UpperIndex(p)]);
      if !IsPresent(mem[pd][MiddleIndex(p)]) { return; }
      leaf := Some(TableOf(mem[pd][MiddleIndex(p)]));
    }

    // Phase 2 of vmm_map_raw, and the write of vmm_unmap_leaf_noalloc.
    method SetLeaf(p: nat, pt: nat, e: nat)
      requires Valid() && p < USER_PAGES && UserPath(PathOf(p)) && Node(mem, path, root, PathOf(p)) == Some(pt)
      modifies this`mem, this`flat
      ensures Valid() && flat == old(flat)[p := e]
    {
      PutListed(mem, path, root, pt, SlotIndex(p), e, tables);
      PutRefines(mem, path, root, p, pt, e, flat);
      mem := Put(mem, pt, SlotIndex(p), e);
      flat := flat[p := e];
    }

    /** vmm_map_raw for a 4 KiB page. */
    method MapRaw(p: nat, phys: nat, flags: nat, ghost way: nat -> Way) returns (ok: bool)
      requires Follows(way) && Valid() && p < USER_PAGES && !IsHuge(flags)
      modifies this
      ensures Valid()
      ensures flat == if ok then old(flat)[p := LeafFor(phys, flags)] else old(flat)
      ensures ok <==> Lacks(old(tables), way(p)) <= Stock(old(supply))
      ensures ok ==> tables == old(tables) + Above(way(p))
      ensures ok ==> Stock(supply) == Stock(old(supply)) - Lacks(old(tables), way(p))
    {
      PathOfUser(p);
      assert way(p) == WayTo(p);
      var pt := EnsurePath(TopIndex(p), UpperIndex(p), MiddleIndex(p), way(p));
      if pt.None? { return false; }
      SetLeaf(p, pt.value, LeafFor(phys, flags));
      ok := true;
    }

    // Phase 1 of vmm_map_raw: make the three tables above the leaf exist.
    method EnsurePath(top: nat, upper: nat, middle: nat, ghost w: Way) returns (pt: Option<nat>)
      requires w.top == [top] && w.upper == w.top + [upper] && w.leaf == w.upper + [middle]
      requires Valid() && UserPath(w.leaf)
      modifies this`mem, this`supply, this`path, this`tables
      ensures Valid()
      ensures pt.Some? ==> Node(mem, path, root, w.leaf) == pt
      ensures pt.Some? <==> Lacks(old(tables), w) <= Stock(old(supply))
      ensures pt.Some? ==> tables == old(tables) + Above(w)
      ensures pt.Some? ==> Stock(supply) == Stock(old(supply)) - Lacks(old(tables), w)
    {
      LacksInTurn(tables, w);
      assert [] + [top] == w.top && w.leaf[0] == top && w.leaf[1] == upper && w.leaf[2] == middle;
      var pdpt := NextLevel(root, top, w.top);
      if pdpt.None? { return None; }
      var pd := NextLevel(pdpt.value, upper, w.upper);
      if pd.None? { return None; }
      pt := NextLevel(pd.value, middle, w.leaf);
    }

    method PagePresent(p: nat) returns (present: bool)
      requires Valid() && p < USER_PAGES
      ensures present == IsPresent(Entry(flat, p))
    {
      NotPresentZero();
      assert Leaf(mem, path, root, p) == Entry(flat, p);
      var pt := WalkLeaf(p);
      present := pt.Some? && IsPresent(mem[pt.value][SlotIndex(p)]);
    }

    /** vmm_unmap_leaf_noalloc. */
    method UnmapLeaf(p: nat) returns (ok: bool)
      requires Valid() && p < USER_PAGES
      modifies this`mem, this`flat
      ensures Valid()
      ensures ok == IsPresent(Entry(old(flat), p))
      ensures flat == if ok then old(flat)[p := 0] else old(flat)
    {
      NotPresentZero();
      assert Leaf(mem, path, root, p) == Entry(flat, p);
      var pt := WalkLeaf(p);
      if pt.None? { return false; }
      if !IsPresent(mem[pt.value][SlotIndex(p)]) { return false; }
      SetLeaf(p, pt.value, 0);
      ok := true;
    }

    // The pre-check of a MAP contract.
    method NonePresent(first: nat, n: nat) returns (ok: bool)
      requires Valid() && first + n <= USER_PAGES
      ensures ok <==> forall p: nat :: first <= p < first + n ==> Translation(flat, p).None?
    {
      var i := 0;
      while i < n
        invariant i <= n && forall p: nat :: first <= p < first + i ==> Translation(flat, p).None?
      {
        var present := PagePresent(first + i);
        if present {
          assert Translation(flat, first + i).Some?;
          return false;
        }
        i := i + 1;
      }
      ok := true;
    }

    // The pre-check of an UNMAP contract.
    method AllPresent(first: nat, n: nat) returns (ok: bool)
      requires Valid() && first + n <= USER_PAGES
      ensures ok <==> forall p: nat :: first <= p < first + n ==> Translation(flat, p).Some?
    {
      var i := 0;
      while i < n
        invariant i <= n && forall p: nat :: first <= p < first + i ==> Translation(flat, p).Some?
      {
        var present := PagePresent(first + i);
        if !present {
          assert Translation(flat, first + i).None?;
          return false;
        }
        i := i + 1;
      }
      ok := true;
    }

    method MapPages(first: nat, phys: nat, n: nat, flags: nat, ghost way: nat -> Way) returns (applied: nat)
      requires Follows(way) && Valid() && first + n <= USER_PAGES && !IsHuge(flags)
      modifies this
      ensures Valid() && applied <= n && flat == Mapped(old(flat), first, applied, phys, flags)
      ensures applied == n <==> LacksAll(old(tables), way, first, n) <= Stock(old(supply))
    {
      applied := 0;
      while applied < n
        invariant applied <= n && Valid() && flat == Mapped(old(flat), first, applied, phys, flags)
        invariant tables == old(tables) + AllAbove(way, first, applied)
        invariant Stock(supply) + LacksAll(old(tables), way, first, applied) == Stock(old(supply))
      {
        AboveNext(old(tables), way, first, applied);
        var ok := MapRaw(first + applied, phys + applied * PAGE_SIZE, flags, way);
        if !ok {
          LacksMore(old(tables), way, first, applied + 1, n);
          return;
        }
        applied := applied + 1;
      }
    }

    // Undo the pages applied so far; a page that is not present stays as it is.
    method RollBack(first: nat, applied: nat) returns (rollbackOk: bool)
      requires Valid() && first + applied <= USER_PAGES
      modifies this`mem, this`flat
      ensures Valid()
      ensures rollbackOk <==> forall p: nat :: first <= p < first + applied ==> Translation(old(flat), p).Some?
      ensures forall p: nat :: Entry(flat, p) ==
                if first <= p < first + applied && IsPresent(Entry(old(flat), p)) then 0 else Entry(old(flat), p)
    {
      rollbackOk := true;
      var i := 0;
      while i < applied
        invariant i <= applied && Valid()
        invariant rollbackOk <==> forall p: nat :: first <= p < first + i ==> Translation(old(flat), p).Some?
        invariant forall p: nat :: Entry(flat, p) ==
                    if first <= p < first + i && IsPresent(Entry(old(flat), p)) then 0 else Entry(old(flat), p)
      {
        var ok := UnmapLeaf(first + i);
        if !ok {
          assert Translation(old(flat), first + i).None?;
          rollbackOk := false;
        }
        i := i + 1;
      }
    }

    // A failed MAP of present pages leaves no leaf in the pages it had reached: a
    // demand placeholder there is lost, though no translation changes.
    method ApplyMap(first: nat, phys: nat, n: nat, flags: nat, ghost way: nat -> Way)
      returns (ok: bool, result: Outcome, applied: nat)
      requires Follows(way) && Valid() && n > 0 && first + n <= USER_PAGES && !IsHuge(flags)
      modifies this
      ensures Valid() && ok == (result == Ok)
      ensures ok ==> flat == Mapped(old(flat), first, n, phys, flags)
      ensures result == ErrAlreadyMapped <==> exists p: nat :: first <= p < first + n && Translation(old(flat), p).Some?
      ensures ok <==>
        && (forall p: nat :: first <= p < first + n ==> Translation(old(flat), p).None?)
        && LacksAll(old(tables), way, first, n) <= Stock(old(supply))
      ensures !ok ==> forall p: nat :: Translation(flat, p) == Translation(old(flat), p)
      ensures !ok && IsPresent(flags) && !IsDemand(flags) ==>
                && result in {ErrAlreadyMapped, ErrAlloc} && applied < n
                && forall p: nat :: Entry(flat, p) == if first <= p < first + applied then 0 else Entry(old(flat), p)
    {
      applied := 0;
      var free := NonePresent(first, n);
      if !free {
        return false, ErrAlreadyMapped, 0;
      }
      applied := MapPages(first, phys, n, flags, way);
      if applied == n {
        return true, Ok, n;
      }
      ok := false;
      result := GiveUp(first, phys, applied, flags, old(flat));
    }

    // What a MAP does after the allocation for page `applied` failed.
    method GiveUp(first: nat, phys: nat, applied: nat, flags: nat, ghost before: map<nat, nat>)
      returns (result: Outcome)
      requires Valid() && first + applied <= USER_PAGES && flat == Mapped(before, first, applied, phys, flags)
      requires forall p: nat :: first <= p < first + applied ==> Translation(before, p).None?
      modifies this`mem, this`flat
      ensures Valid() && result in {ErrAlloc, ErrRollback}
      ensures forall p: nat :: Translation(flat, p) == Translation(before, p)
      ensures IsPresent(flags) && !IsDemand(flags) ==>
                && result == ErrAlloc
                && forall p: nat :: Entry(flat, p) == if first <= p < first + applied then 0 else Entry(before, p)
    {
      forall p: nat
        ensures Entry(flat, p) == if first <= p < first + applied then LeafFor(phys + (p - first) * PAGE_SIZE, flags)
          else Entry(before, p)
        ensures first <= p < first + applied ==> (IsPresent(Entry(flat, p)) <==> IsPresent(flags) && !IsDemand(flags))
      {
        MappedEntry(before, first, applied, phys, flags, p);
        if first <= p {
          LeafPresent(phys + (p - first) * PAGE_SIZE, flags);
        }
      }
      result := ErrAlloc;
      if applied > 0 {
        var rollbackOk := RollBack(first, applied);
        if !rollbackOk {
          result := ErrRollback;
        }
      }
    }

    method ApplyUnmap(first: nat, n: nat) returns (ok: bool, result: Outcome)
      requires Valid() && n > 0 && first + n <= USER_PAGES
      modifies this`mem, this`flat
      ensures Valid() && ok == (result == Ok)
      ensures ok <==> forall p: nat :: first <= p < first + n ==> Translation(old(flat), p).Some?
      ensures ok ==> flat == Unmapped(old(flat), first, n)
      ensures !ok ==> result == ErrNotMapped && unchanged(this)
    {
      var all := AllPresent(first, n);
      if !all {
        return false, ErrNotMapped;
      }
      var applied := 0;
      while applied < n
        invariant applied <= n && Valid() && flat == Unmapped(old(flat), first, applied)
      {
        UnmappedEntry(old(flat), first, applied, first + applied);
        assert Translation(old(flat), first + applied).Some?;
        var done := UnmapLeaf(first + applied);
        if !done {
          return false, ErrWalk;
        }
        applied := applied + 1;
      }
      return true, Ok;
    }

    /** vmm_apply_compiled_mapping: a failed contract changes no translation. */
    method Apply(c: Compiled) returns (ok: bool, result: Outcome)
      requires Valid() && c.virt / PAGE_SIZE + c.pages <= USER_PAGES && !IsHuge(c.flags)
      modifies this
      ensures Valid()
      ensures c.pages == 0 ==> !ok
      ensures ok ==> flat == Effect(c, old(flat))
      ensures !ok ==> forall p: nat :: Translation(flat, p) == Translation(old(flat), p)
      ensures c.op == Map && c.pages > 0 ==> (ok <==> CanMap(c, old(flat), old(tables), old(supply)))
      ensures c.op == Unmap && !ok ==> unchanged(this)
      ensures c.op == Unmap && c.pages > 0 ==>
                (ok <==> forall p: nat :: c.virt / PAGE_SIZE <= p < c.virt / PAGE_SIZE + c.pages ==>
                  Translation(old(flat), p).Some?)
    {
      if c.pages == 0 {
        return false, ErrWalk;
      }
      if c.op == Map {
        var applied;
        ok, result, applied := ApplyMap(c.virt / PAGE_SIZE, c.phys, c.pages, c.flags, WayTo);
      } else {
        ok, result := ApplyUnmap(c.virt / PAGE_SIZE, c.pages);
      }
    }

    /** Compile, then apply: a region request that reports failure, at compile
        time or after any number of pages, leaves every translation as it was. */
    method Region(k: Contract) returns (ok: bool)
      requires Valid() && k.virt + k.length <= USER_PAGES * PAGE_SIZE && !IsHuge(k.flags)
      modifies this
      ensures Valid()
      ensures ok ==> Compile(k).Accepted? && flat == Effect(Compile(k).c, old(flat))
      ensures !ok ==> forall p: nat :: Translation(flat, p) == Translation(old(flat), p)
      ensures Compile(k).Accepted? && Compile(k).c.op == Map ==>
        (ok <==> CanMap(Compile(k).c, old(flat), old(tables), old(supply)))
    {
      match Compile(k)
      case Rejected(_) => ok := false;
      case Accepted(c) =>
        var result;
        ok, result := Apply(c);
    }

    /** vmm_virt_to_phys. */
    method VirtToPhys(virt: nat) returns (phys: nat)
      requires Valid() && virt / PAGE_SIZE < USER_PAGES
      ensures phys == PhysAt(flat, virt)
    {
      var p := virt / PAGE_SIZE;
      NotPresentZero();
      assert Leaf(mem, path, root, p) == Entry(flat, p);
      var pt := WalkLeaf(p);
      if pt.None? { return 0; }
      if !IsPresent(mem[pt.value][SlotIndex(p)]) { return 0; }
      phys := PhysOf(mem[pt.value][SlotIndex(p)], virt % PAGE_SIZE);
    }
  }

  const KERNEL_VIRT_BASE: nat := 0xffff_ffff_8000_0000
  const OP_MAP: nat := 0
  const OP_UNMAP: nat := 1
  const HUGE_SIZE: nat := 0x20_0000

  /** A request as callers state it; `trust` and `op` may hold any code. */
  datatype Contract = Contract(op: nat, virt: nat, phys: nat, length: nat, flags: nat, kernelOwned: bool, trust: nat)

  datatype Reason = BadOp | BadLength | BadAlignment | Overflow | BadPolicy | BadFlags

  datatype CompileResult = Accepted(c: Compiled) | Rejected(why: Reason)

  datatype Compiled = Compiled(op: Op, virt: nat, phys: nat, pages: nat, flags: nat)

  /** vmm_compile_region_contract, with 64-bit wrap-around of the range ends. */
  function Compile(k: Contract): CompileResult {
    var maxVirt, maxPhys := (k.virt + k.length) % TWO64, (k.phys + k.length) % TWO64;
    if k.op != OP_MAP && k.op != OP_UNMAP then Rejected(BadOp)
    else if k.length == 0 || k.length % PAGE_SIZE != 0 then Rejected(BadLength)
    else if k.virt % PAGE_SIZE != 0 then Rejected(BadAlignment)
    else if maxVirt < k.virt then Rejected(Overflow)
    else if k.trust > 1 then Rejected(BadPolicy)
    else if !k.kernelOwned && (k.virt >= KERNEL_VIRT_BASE || maxVirt > KERNEL_VIRT_BASE) then Rejected(BadPolicy)
    else if k.op == OP_MAP then
      if k.phys % PAGE_SIZE != 0 then Rejected(BadAlignment)
      else if maxPhys < k.phys then Rejected(Overflow)
      else if IsDemand(k.flags) && And(k.flags, PRESENT + NX + ACCESSED + DIRTY) != 0 then Rejected(BadFlags)
      else if IsHuge(k.flags) && k.length != HUGE_SIZE then Rejected(BadLength)
      else if IsHuge(k.flags) && (k.virt % HUGE_SIZE != 0 || k.phys % HUGE_SIZE != 0) then Rejected(BadAlignment)
      else if !k.kernelOwned && And(k.flags, USER) == 0 then Rejected(BadPolicy)
      else Accepted(Compiled(Map, k.virt, k.phys, k.length / PAGE_SIZE, k.flags))
    else if k.phys != 0 || k.flags != 0 then Rejected(BadFlags)
    else Accepted(Compiled(Unmap, k.virt, 0, k.length / PAGE_SIZE, 0))
  }

  /** An accepted contract covers a non-empty aligned range that does not wrap, of
      virtual and, for MAP, physical addresses; a user contract stays below the kernel. */
  lemma AcceptedRange(k: Contract)
    requires Compile(k).Accepted? && k.virt < TWO64 && k.phys < TWO64 && k.length < TWO64
    ensures var c := Compile(k).c;
            && c.virt == k.virt && c.virt % PAGE_SIZE == 0 && c.phys % PAGE_SIZE == 0
            && 0 < c.pages && c.pages * PAGE_SIZE == k.length
            && c.virt + c.pages * PAGE_SIZE < TWO64
            && (c.op == Map ==> c.phys + c.pages * PAGE_SIZE < TWO64)
            && (!k.kernelOwned ==> c.virt + c.pages * PAGE_SIZE <= KERNEL_VIRT_BASE)
  {
    assert k.length == k.length / PAGE_SIZE * PAGE_SIZE;
  }

  /** What a contract means on the flat map. */
  function Effect(c: Compiled, flat: map<nat, nat>): map<nat, nat> {
    match c.op
    case Map => Mapped(flat, c.virt / PAGE_SIZE, c.pages, c.phys, c.flags)
    case Unmap => Unmapped(flat, c.virt / PAGE_SIZE, c.pages)
  }

  function PhysAt(flat: map<nat, nat>, virt: nat): nat {
    match Translation(flat, virt / PAGE_SIZE)
    case None => 0
    case Some(e) => PhysOf(e, virt % PAGE_SIZE)
  }

  /** No page of the range translates, and its pages lack no more tables than the allocator has frames for. */
  ghost predicate CanMap(c: Compiled, flat: map<nat, nat>, tables: set<seq<nat>>, supply: seq<nat>) {
    var first := c.virt / PAGE_SIZE;
    && (forall p: nat :: first <= p < first + c.pages ==> Translation(flat, p).None?)
    && LacksAll(tables, WayTo, first, c.pages) <= Stock(supply)
  }

  /** The flat map after mapping `n` pages. */
  function Mapped(flat: map<nat, nat>, first: nat, n: nat, phys: nat, flags: nat): map<nat, nat> {
    if n == 0 then flat
    else Mapped(flat, first, n - 1, phys, flags)[first + n - 1 := LeafFor(phys + (n - 1) * PAGE_SIZE, flags)]
  }

  /** The flat map after unmapping `n` pages. */
  function Unmapped(flat: map<nat, nat>, first: nat, n: nat): map<nat, nat> {
    if n == 0 then flat else Unmapped(flat, first, n - 1)[first + n - 1 := 0]
  }

  lemma {:induction false} MappedEntry(flat: map<nat, nat>, first: nat, n: nat, phys: nat, flags: nat, p: nat)
    ensures Entry(Mapped(flat, first, n, phys, flags), p) ==
            if first <= p < first + n then LeafFor(phys + (p - first) * PAGE_SIZE, flags) else Entry(flat, p)
  {
    if n == 0 {
    } else {
      MappedEntry(flat, first, n - 1, phys, flags, p);
    }
  }

  lemma {:induction false} UnmappedEntry(flat: map<nat, nat>, first: nat, n: nat, p: nat)
    ensures Entry(Unmapped(flat, first, n), p) == if first <= p < first + n then 0 else Entry(flat, p)
  {
    if n == 0 {
    } else {
      UnmappedEntry(flat, first, n - 1, p);
    }
  }

  lemma {:induction false} EmptyTree(mem: map<nat, seq<nat>>, path: map<nat, seq<nat>>, root: nat, idxs: seq<nat>)
    requires Tree(mem, path, root) && UserPath(idxs) && forall i :: 0 <= i < ENTRIES ==> mem[root][i] == 0
    ensures idxs != [] ==> Node(mem, path, root, idxs).None?
    decreases |idxs|
  {
    NotPresentZero();
    if |idxs| > 1 {
      EmptyTree(mem, path, root, idxs[..|idxs| - 1]);
    }
  }

  /** After a MAP of present pages, every address of the range translates to its
      frame's bits 12 to 51 plus the offset, and every other address as before.
      That is the frame itself exactly when the frame lies below 2^52. */
  lemma MapReadsBack(c: Compiled, flat: map<nat, nat>, virt: nat)
    requires c.op == Map && IsPresent(c.flags) && !IsDemand(c.flags)
    requires c.virt % PAGE_SIZE == 0 && Low(c.phys, 12) == 0
    ensures var first, p := c.virt / PAGE_SIZE, virt / PAGE_SIZE;
            var frame := c.phys + (p - first) * PAGE_SIZE;
            if first <= p < first + c.pages then
              && PhysAt(Effect(c, flat), virt) == Low(frame, 52) + virt % PAGE_SIZE
              && (PhysAt(Effect(c, flat), virt) == frame + virt % PAGE_SIZE <==> frame < TWO52)
            else PhysAt(Effect(c, flat), virt) == PhysAt(flat, virt)
  {
    MappedReads(flat, c.virt / PAGE_SIZE, c.pages, c.phys, c.flags, virt / PAGE_SIZE, virt % PAGE_SIZE);
  }

  lemma MappedReads(flat: map<nat, nat>, first: nat, n: nat, phys: nat, flags: nat, p: nat, offset: nat)
    requires IsPresent(flags) && !IsDemand(flags) && Low(phys, 12) == 0 && offset < PAGE_SIZE
    ensures var e, frame := Entry(Mapped(flat, first, n, phys, flags), p), phys + (p - first) * PAGE_SIZE;
            if first <= p < first + n then
              && IsPresent(e) && PhysOf(e, offset) == Low(frame, 52) + offset
              && (PhysOf(e, offset) == frame + offset <==> frame < TWO52)
            else e == Entry(flat, p)
  {
    MappedEntry(flat, first, n, phys, flags, p);
    if first <= p < first + n {
      FrameAligned(phys, p - first);
      LeafReads(phys + (p - first) * PAGE_SIZE, flags, offset);
    }
  }

  /** And a frame at 2^52 is one the compiler accepts: mapped, it reads back as frame 0. */
  lemma FrameLost(flat: map<nat, nat>)
    ensures var k := Contract(OP_MAP, 0, TWO52, PAGE_SIZE, PRESENT + USER, false, 0);
            && Compile(k).Accepted? && Compile(k).c.phys == TWO52
            && PhysAt(Effect(Compile(k).c, flat), 0) != TWO52
  {
    var k := Contract(OP_MAP, 0, TWO52, PAGE_SIZE, PRESENT + USER, false, 0);
    FrameAligned(0, TWO52 / PAGE_SIZE);
    MapReadsBack(Compile(k).c, flat, 0);
  }

  lemma FrameAligned(phys: nat, k: nat)
    requires Low(phys, 12) == 0
    ensures Low(phys + k * PAGE_SIZE, 12) == 0
  {
    SplitAt(phys, 12);
    var x := Shr(phys, 12);
    ShlTen(x + k);
    ShlShl(x + k, 10, 2);
    ShlTen(x);
    ShlShl(x, 10, 2);
    LowShl(x + k, 12, 0);
    ShlZero(0, 12);
  }

  /** Unmapping what was mapped restores every translation. */
  lemma UnmapUndoesMap(c: Compiled, flat: map<nat, nat>, p: nat)
    requires c.op == Map
    requires forall q: nat :: c.virt / PAGE_SIZE <= q < c.virt / PAGE_SIZE + c.pages ==> Translation(flat, q).None?
    ensures Translation(Effect(c.(op := Unmap), Effect(c, flat)), p) == Translation(flat, p)
  {
    var first := c.virt / PAGE_SIZE;
    MappedEntry(flat, first, c.pages, c.phys, c.flags, p);
    UnmappedEntry(Effect(c, flat), first, c.pages, p);
  }
}
