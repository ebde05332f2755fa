/**
 Capability slots over the lineage forest: lookup, copy, mint, retype, delete
 and revoke, as sequential steps.
 */
module Capabilities {

  import opened Lists
  import opened Options
  import opened Lineage

  const CNODE_SLOTS: nat := 128
  const RIGHT_GRANT: bv16 := 4
  const MODE_VALID_MASK: bv8 := 0x1F

  const KIND_RAM: nat := 3
  const KIND_ENDPOINT: nat := 5
  const KIND_PAGETABLE: nat := 7

  predicate ModesValid(modes: bv8) {
    modes != 0 && modes & !MODE_VALID_MASK == 0
  }

  class Caps {
    var idents: map<nat, Ident>
    var slots: map<Slot, nat>
    var epoch: nat
    var nextId: nat

    ghost var kids: map<nat, seq<nat>>

    ghost predicate Valid()
      reads this
    {
      Core(idents, kids, slots, nextId) && NoGarbage(idents, kids, {}) && epoch >= 1
    }

    constructor ()
      ensures Valid() && slots == map[] && idents == map[]
    {
      idents, slots, epoch, nextId, kids := map[], map[], 1, 0, map[];
    }

    /** cap_identity_is_alive: the own mark, then every ancestor's against the mark
        each child was born under. A broken chain marks the identity itself. */
    method IsAlive(id: nat) returns (alive: bool)
      requires id in idents && Rooted(idents) && epoch >= 1
      modifies this`idents, this`epoch
      ensures alive <==> old(idents)[id].revoked == 0 && ChainIntact(old(idents), id)
      ensures alive || old(idents)[id].revoked != 0 ==> unchanged(this)
      ensures !alive && old(idents)[id].revoked == 0 ==>
                exists e: nat :: e != 0 && idents == old(idents)[id := old(idents)[id].(revoked := e)]
    {
      if idents[id].revoked != 0 {
        return false;
      }
      var child := id;
      var parent := idents[id].parent;
      while parent.Some?
        invariant child in idents && parent == idents[child].parent && unchanged(this)
        invariant ChainIntact(idents, id) <==> ChainIntact(idents, child)
        decreases child
      {
        var p := parent.value;
        if p !in idents {
          idents := idents[id := idents[id].(revoked := epoch)];
          return false;
        }
        var mark := idents[p].revoked;
        if mark != idents[child].epochStart {
          if mark == 0 {
            epoch := epoch + 1;
            mark := epoch;
          }
          idents := idents[id := idents[id].(revoked := mark)];
          return false;
        }
        child := p;
        parent := idents[p].parent;
      }
      return true;
    }

    /** What a lookup may return in a well-formed state. */
    ghost predicate Usable(s: Slot, mask: bv8)
      reads this
    {
      s.index < CNODE_SLOTS && s in slots && slots[s] in idents &&
      idents[slots[s]].revoked == 0 && mask & idents[slots[s]].modes != 0
    }

    /** cap_lookup under the current mode mask. */
    method Lookup(s: Slot, mask: bv8) returns (r: Option<nat>)
      requires Valid()
      modifies this`idents, this`epoch
      ensures unchanged(this)
      ensures r == if Usable(s, mask) then Some(slots[s]) else None
    {
      if s.index >= CNODE_SLOTS || s !in slots {
        return None;
      }
      var id := slots[s];
      LinksRooted(idents, kids);
      if idents[id].revoked == 0 {
        WalkAgrees(idents, kids, id);
      }
      var alive := IsAlive(id);
      if !alive {
        return None;
      }
      assert Placed(idents, nextId, id);
      if !ModesValid(idents[id].modes) {
        return None;
      }
      if mask & idents[id].modes == 0 {
        return None;
      }
      return Some(id);
    }

    /** cap_insert: one more slot and one more reference. */
    method Insert(s: Slot, id: nat) returns (ok: bool)
      requires Core(idents, kids, slots, nextId) && id in idents
      modifies this`idents, this`slots
      ensures ok <==> s.index < CNODE_SLOTS && s !in old(slots)
      ensures !ok ==> unchanged(this)
      ensures ok ==> && slots == old(slots)[s := id]
                     && idents == old(idents)[id := old(idents)[id].(refs := old(idents)[id].refs + 1)]
                     && Core(idents, kids, slots, nextId)
                     && (old(NoGarbage(idents, kids, {id})) ==> NoGarbage(idents, kids, {}))
    {
      if s.index >= CNODE_SLOTS || s in slots {
        return false;
      }
      InsertCore(idents, kids, slots, nextId, s, id);
      InsertGarbage(idents, kids, id);
      slots := slots[s := id];
      idents := idents[id := idents[id].(refs := idents[id].refs + 1)];
      return true;
    }

    /** cap_copy. */
    method Copy(cnode: nat, src: nat, dst: nat, mask: bv8) returns (ok: bool)
      requires Valid()
      modifies this
      ensures Valid() && Evolves(old(Now()), Now())
      ensures !ok ==> unchanged(this)
      ensures ok <==> && old(Usable(Slot(cnode, src), mask)) && Grants(old(idents[slots[Slot(cnode, src)]]))
                      && dst < CNODE_SLOTS && Slot(cnode, dst) !in old(slots)
      ensures ok ==> slots == old(slots)[Slot(cnode, dst) := old(slots)[Slot(cnode, src)]]
    {
      CoreFresh(idents, kids, slots, nextId);
      var id := Source(Slot(cnode, src), mask);
      if id.None? {
        return false;
      }
      assert NoGarbage(idents, kids, {id.value});
      EvolvesRefs(Now(), Now(), id.value, idents[id.value].refs + 1);
      ok := Insert(Slot(cnode, dst), id.value);
    }

    ghost function Now(): View
      reads this
    {
      View(idents, nextId)
    }

    // Create an identity and link it under its parent.
    method LinkNew(p: nat, child: Ident) returns (c: nat)
      requires Valid() && MayDerive(idents, p, child)
      modifies this`idents, this`nextId, this`kids
      ensures Core(idents, kids, slots, nextId) && NoGarbage(idents, kids, {c}) && Evolves(old(Now()), Now())
      ensures c == old(nextId) && nextId == c + 1 && c in idents && Body(idents[c]) == Body(child.(parent := Some(p)))
    {
      c := nextId;
      LinksNew(Now(), kids, slots, p, child);
      idents := LinkChild(idents, p, c, child);
      kids := kids[p := [c] + kids[p]][c := []];
      nextId := nextId + 1;
    }

    // Create, link and insert, as cap_mint and cap_retype do once the destination
    // is known to be an empty slot.
    method Derive(p: nat, child: Ident, s: Slot)
      requires Valid() && MayDerive(idents, p, child)
      requires s.index < CNODE_SLOTS && s !in slots
      modifies this
      ensures Valid() && Evolves(old(Now()), Now())
      ensures nextId == old(nextId) + 1 && slots == old(slots)[s := old(nextId)]
      ensures old(nextId) in idents && Body(idents[old(nextId)]) == Body(child.(parent := Some(p), refs := 1))
    {
      var c := LinkNew(p, child);
      EvolvesRefs(old(Now()), Now(), c, idents[c].refs + 1);
      var ok := Insert(s, c);
    }

    // Both ways of deriving start from a usable source slot with the grant right.
    method Source(s: Slot, mask: bv8) returns (r: Option<nat>)
      requires Valid()
      modifies this`idents, this`epoch
      ensures unchanged(this)
      ensures r == if Usable(s, mask) && Grants(idents[slots[s]]) then Some(slots[s]) else None
    {
      r := Lookup(s, mask);
      if r.None? || !Grants(idents[r.value]) {
        r := None;
      }
    }

    // All the checks of cap_mint, before anything is created.
    method MintSource(s: Slot, d: Slot, rights: bv16, modes: bv8, mask: bv8, memory: bool) returns (r: Option<nat>)
      requires Valid()
      modifies this`idents, this`epoch
      ensures unchanged(this)
      ensures r == if Usable(s, mask) && d !in slots && memory && Mintable(idents[slots[s]], rights, modes)
        then Some(slots[s]) else None
    {
      r := Source(s, mask);
      if r.None? { return; }
      var parent := idents[r.value];
      if !SubRights(rights, parent.rights) { return None; }
      if !ModesValid(modes) { return None; }
      if parent.modes & modes == 0 || d in slots { return None; }
      if !memory { return None; }
    }

    /** cap_mint. `memory` says whether the slab allocator finds room. */
    method Mint(cnode: nat, src: nat, dst: nat, rights: bv16, modes: bv8, mask: bv8, memory: bool) returns (ok: bool)
      requires Valid() && dst < CNODE_SLOTS
      modifies this
      ensures Valid() && Evolves(old(Now()), Now())
      ensures !ok ==> unchanged(this)
      ensures ok <==>
                && old(Usable(Slot(cnode, src), mask)) && Slot(cnode, dst) !in old(slots) && memory
                && Mintable(old(idents[slots[Slot(cnode, src)]]), rights, modes)
      ensures ok ==>
                && slots == old(slots)[Slot(cnode, dst) := old(nextId)]
                && old(nextId) in idents
                && Body(idents[old(nextId)]) ==
                   Minted(old(idents[slots[Slot(cnode, src)]]), rights, modes)
                     .(parent := Some(old(slots[Slot(cnode, src)])), refs := 1)
    {
      CoreFresh(idents, kids, slots, nextId);
      var found := MintSource(Slot(cnode, src), Slot(cnode, dst), rights, modes, mask, memory);
      ok := found.Some?;
      if ok {
        var p := found.value;
        MayMint(idents, nextId, p, rights, modes);
        Derive(p, Minted(idents[p], rights, modes), Slot(cnode, dst));
      }
    }

    /** cap_retype. */
    method Retype(cnode: nat, src: nat, dst: nat, kind: nat, mask: bv8, memory: bool) returns (ok: bool)
      requires Valid() && dst < CNODE_SLOTS
      modifies this
      ensures Valid() && Evolves(old(Now()), Now())
      ensures !ok ==> unchanged(this)
      ensures ok <==>
                && old(Usable(Slot(cnode, src), mask)) && Slot(cnode, dst) !in old(slots) && memory
                && Retypable(old(idents[slots[Slot(cnode, src)]]), kind)
      ensures ok ==>
                && slots == old(slots)[Slot(cnode, dst) := old(nextId)]
                && old(nextId) in idents
                && Body(idents[old(nextId)]) ==
                   Retyped(old(idents[slots[Slot(cnode, src)]]), kind)
                     .(parent := Some(old(slots[Slot(cnode, src)])), refs := 1)
    {
      CoreFresh(idents, kids, slots, nextId);
      ok := false;
      var found := Source(Slot(cnode, src), mask);
      if found.None? { return; }
      var p := found.value;
      if idents[p].kind != KIND_RAM || (kind != KIND_PAGETABLE && kind != KIND_ENDPOINT) { return; }
      if Slot(cnode, dst) in slots { return; }
      if !memory { return; }
      MayRetype(idents, nextId, p, kind);
      Derive(p, Retyped(idents[p], kind), Slot(cnode, dst));
      ok := true;
    }

    /** cap_identity_create followed by cap_insert: a root of the forest. */
    method CreateRoot(s: Slot, kind: nat, rights: bv16, modes: bv8, memory: bool) returns (ok: bool)
      requires Valid()
      modifies this
      ensures Valid() && Evolves(old(Now()), Now())
      ensures ok <==> 0 < kind < 16 && ModesValid(modes) && memory && s.index < CNODE_SLOTS && s !in old(slots)
      ensures !ok ==> unchanged(this)
      ensures ok ==>
                && slots == old(slots)[s := old(nextId)] && nextId == old(nextId) + 1
                && idents == old(idents)[old(nextId) := Ident(kind, rights, modes, None, 0, 0, 1, None, None, None)]
    {
      if !(0 < kind < 16) || !ModesValid(modes) || !memory {
        CoreFresh(idents, kids, slots, nextId);
        return false;
      }
      if s.index >= CNODE_SLOTS || s in slots {
        CoreFresh(idents, kids, slots, nextId);
        return false;
      }
      var c := AddRoot(Ident(kind, rights, modes, None, 0, 0, 0, None, None, None));
      EvolvesRefs(old(Now()), Now(), c, 1);
      ok := Insert(s, c);
      assert idents == old(idents)[c := Ident(kind, rights, modes, None, 0, 0, 1, None, None, None)];
    }

    // A new identity without a parent, not yet in a slot.
    method AddRoot(root: Ident) returns (c: nat)
      requires Valid() && Sound(root) && Bare(root)
      modifies this`idents, this`nextId, this`kids
      ensures Core(idents, kids, slots, nextId) && NoGarbage(idents, kids, {c}) && Evolves(old(Now()), Now())
      ensures c == old(nextId) && nextId == c + 1 && idents == old(idents)[c := root]
    {
      c := nextId;
      RootsNew(Now(), kids, slots, root);
      idents := idents[c := root];
      kids := kids[c := []];
      nextId := nextId + 1;
    }

    /** cap_identity_free: release a childless unreferenced identity, then its
        parent if that leaves the parent unneeded, and so on upwards. */
    method IdentityFree(c: nat)
      requires Core(idents, kids, slots, nextId) && Releasable(idents, kids, c)
      modifies this`idents, this`kids
      ensures Core(idents, kids, slots, nextId) && NoGarbage(idents, kids, {})
      ensures Pruned(old(idents), idents)
      ensures idents.Keys == old(idents).Keys - Chain(old(idents), old(kids), c)
      decreases c
    {
      var parent := idents[c].parent;
      ReleaseOne(idents, kids, slots, nextId, c);
      ChainStep(idents, kids, c);
      ghost var idents1 := Unlink(idents, c);
      kids := UnlinkKids(idents, kids, c);
      idents := Unlink(idents, c);
      if parent.Some? {
        var refs := idents[parent.value].refs;
        var hasChildren := idents[parent.value].firstChild.Some?;
        if refs == 0 && !hasChildren {
          IdentityFree(parent.value);
        }
      }
    }

    // Empty the slot and drop its reference; `last` asks for the release.
    method DropReference(s: Slot) returns (id: nat, last: bool)
      requires Valid() && s in slots
      modifies this`slots, this`idents
      ensures id == old(slots)[s] && slots == old(slots) - {s}
      ensures id in old(idents) && id in kids && idents == Dropped(old(idents), id)
      ensures Core(idents, kids, slots, nextId)
      ensures last <==> old(idents)[id].refs == 1 && kids[id] == []
      ensures if last then Releasable(idents, kids, id) else NoGarbage(idents, kids, {})
    {
      DropCore(idents, kids, slots, nextId, s);
      id := slots[s];
      DropGarbage(idents, kids, id);
      slots := slots - {s};
      var oldRef := idents[id].refs;
      idents := Dropped(idents, id);
      last := oldRef == 1 && idents[id].firstChild.None?;
    }

    /** cap_delete. The last reference to a childless identity releases exactly the
        chain of identities that nothing needs any more. */
    method Delete(s: Slot)
      requires Valid()
      modifies this
      ensures Valid() && Evolves(old(Now()), Now())
      ensures s.index >= CNODE_SLOTS || s !in old(slots) ==> unchanged(this)
      ensures s.index < CNODE_SLOTS && s in old(slots) ==>
                && slots == old(slots) - {s}
                && old(slots)[s] in old(idents) && Pruned(Dropped(old(idents), old(slots)[s]), idents)
                && idents.Keys == old(idents).Keys -
                     if old(idents[slots[s]]).refs == 1 && old(kids[slots[s]]) == []
                       then old(Chain(idents, kids, slots[s])) else {}
    {
      CoreFresh(idents, kids, slots, nextId);
      if s.index >= CNODE_SLOTS || s !in slots {
        return;
      }
      var id, last := DropReference(s);
      if last {
        DropChain(old(idents), old(kids), id, id);
        IdentityFree(id);
      }
      DropEvolves(old(Now()), id, idents);
    }

    /** cnode_destroy: every slot of the node is deleted in turn. */
    method DestroyCNode(cnode: nat)
      requires Valid()
      modifies this
      ensures Valid() && Evolves(old(Now()), Now())
      ensures slots == Emptied(old(slots), cnode, CNODE_SLOTS)
    {
      CoreFresh(idents, kids, slots, nextId);
      EmptiedNone(slots, cnode);
      var i := 0;
      while i < CNODE_SLOTS
        invariant i <= CNODE_SLOTS && Valid() && Evolves(old(Now()), Now())
        invariant slots == Emptied(old(slots), cnode, i)
      {
        DestroySlot(cnode, i, old(Now()), old(slots));
        i := i + 1;
      }
    }

    method DestroySlot(cnode: nat, i: nat, ghost start: View, ghost before: map<Slot, nat>)
      requires i < CNODE_SLOTS && Valid() && Evolves(start, Now()) && slots == Emptied(before, cnode, i)
      modifies this
      ensures Valid() && Evolves(start, Now()) && slots == Emptied(before, cnode, i + 1)
    {
      ghost var mid := Now();
      EmptiedStep(before, cnode, i);
      Delete(Slot(cnode, i));
      EvolvesTrans(start, mid, Now());
    }

    /** cap_revoke_tree: children first, along the sibling links, then the identity. */
    method RevokeTree(id: nat, e: nat)
      requires Links(idents, kids) && id in idents && e != 0 && forall x :: x in idents ==> x < nextId
      modifies this`idents
      ensures Marked(old(idents), idents, id, e)
      decreases nextId - id
    {
      ghost var list := kids[id];
      assert ChildList(idents, kids, id);
      var child := idents[id].firstChild;
      ghost var n := 0;
      assert MarkedFirst(idents, idents, list, 0, e);
      while child.Some?
        invariant n <= |list| && child == At(list, n)
        invariant MarkedFirst(old(idents), idents, list, n, e)
        decreases |list| - n
      {
        var c := child.value;
        ghost var mid := idents;
        MarkedFirstForest(old(idents), idents, kids, list, n, e);
        assert ChildList(idents, kids, id) && ChildAt(idents, id, list, n) && ParentOk(idents, kids, c);
        RevokeTree(c, e);
        MarkNext(old(idents), mid, idents, list, n, e);
        MarkedFirstForest(old(idents), idents, kids, list, n + 1, e);
        assert ChildList(idents, kids, id) && ChildAt(idents, id, list, n);
        child := idents[c].next;
        n := n + 1;
      }
      MarkLast(old(idents), idents, kids, id, e);
      idents := idents[id := idents[id].(revoked := e)];
    }

    /** cap_revoke: a fresh epoch marks the identity and everything below it. */
    method Revoke(s: Slot, mask: bv8)
      requires Valid()
      modifies this
      ensures Valid() && Evolves(old(Now()), Now())
      ensures !old(Usable(s, mask)) ==> unchanged(this)
      ensures old(Usable(s, mask)) ==>
                && slots == old(slots) && nextId == old(nextId) && epoch == old(epoch) + 1
                && Marked(old(idents), idents, old(slots[s]), epoch)
    {
      CoreFresh(idents, kids, slots, nextId);
      var found := Lookup(s, mask);
      if found.None? {
        return;
      }
      epoch := epoch + 1;
      RevokeTree(found.value, epoch);
      MarkedCore(old(idents), kids, slots, nextId, found.value, epoch, idents);
    }

    // ---- Whole runs ----

    method Do(op: Op)
      requires Valid() && InRange(op)
      modifies this
      ensures Valid() && Evolves(old(Now()), Now())
    {
      CoreFresh(idents, kids, slots, nextId);
      match op
      case Find(s, mask) =>
        var r := Lookup(s, mask);
      case Duplicate(cnode, src, dst, mask) =>
        var ok := Copy(cnode, src, dst, mask);
      case Narrow(cnode, src, dst, rights, modes, mask, memory) =>
        var ok := Mint(cnode, src, dst, rights, modes, mask, memory);
      case Convert(cnode, src, dst, kind, mask, memory) =>
        var ok := Retype(cnode, src, dst, kind, mask, memory);
      case Create(s, kind, rights, modes, memory) =>
        var ok := CreateRoot(s, kind, rights, modes, memory);
      case Drop(s) =>
        Delete(s);
      case Destroy(cnode) =>
        DestroyCNode(cnode);
      case Withdraw(s, mask) =>
        Revoke(s, mask);
    }

    method DoAll(ops: seq<Op>)
      requires Valid() && forall i :: 0 <= i < |ops| ==> InRange(ops[i])
      modifies this
      ensures Valid() && Evolves(old(Now()), Now())
    {
      CoreFresh(idents, kids, slots, nextId);
      var i := 0;
      while i < |ops|
        invariant 0 <= i <= |ops| && Valid() && Evolves(old(Now()), Now())
      {
        ghost var mid := Now();
        Do(ops[i]);
        EvolvesTrans(old(Now()), mid, Now());
        i := i + 1;
      }
    }

    /** Revoking an identity and then doing anything at all: whatever is then at or below it is revoked and was
        there at the revocation, and a lookup of any slot that holds such a thing finds nothing. */
    method LookupAfterRevoke(s: Slot, mask: bv8, ops: seq<Op>, t: Slot, mask': bv8) returns (r: Option<nat>)
      requires Valid() && Usable(s, mask) && forall i :: 0 <= i < |ops| ==> InRange(ops[i])
      modifies this
      ensures Valid()
      ensures forall d :: d in idents && Above(idents, old(slots[s]), d) ==> idents[d].revoked != 0 && d < old(nextId)
      ensures t in slots && Above(idents, old(slots[s]), slots[t]) ==> r.None?
    {
      ghost var a, before := slots[s], idents;
      Revoke(s, mask);
      ghost var view, kids1, slots1, e := Now(), kids, slots, epoch;
      DoAll(ops);
      forall d | d in idents && Above(idents, a, d)
        ensures idents[d].revoked != 0 && d < view.next
      {
        DeadBelow(before, a, e, view, kids1, slots1, Now(), kids, slots, d);
      }
      r := Lookup(t, mask');
    }

    /** An identity is allocated exactly while some slot holds it or a descendant. */
    lemma AllocatedWhileHeld(id: nat)
      requires Valid()
      ensures id in idents <==> exists s :: s in slots && Above(idents, id, slots[s])
    {
      CoreFresh(idents, kids, slots, nextId);
      AllocatedIffHeld(idents, kids, slots, id, nextId);
    }

    /** What a slot holds has no more rights or modes than anything it descends from. */
    lemma NoMoreAuthority(s: Slot, a: nat)
      requires Valid() && s in slots && Above(idents, a, slots[s])
      ensures slots[s] in idents && a in idents
      ensures SubRights(idents[slots[s]].rights, idents[a].rights) && SubModes(idents[slots[s]].modes, idents[a].modes)
    {
      AncestorsKept(idents, kids, a, slots[s]);
      forall x | x in idents && idents[x].parent.Some?
        ensures idents[x].parent.value in idents
      {
        assert ParentOk(idents, kids, x);
      }
      AuthorityBounded(idents, a, slots[s]);
    }
  }

  /** Everything that can be done with capabilities, as one request. */
  datatype Op =
    | Find(s: Slot, mask: bv8)
    | Duplicate(cnode: nat, src: nat, dst: nat, mask: bv8)
    | Narrow(cnode: nat, src: nat, dst: nat, rights: bv16, modes: bv8, mask: bv8, memory: bool)
    | Convert(cnode: nat, src: nat, dst: nat, kind: nat, mask: bv8, memory: bool)
    | Create(s: Slot, kind: nat, rights: bv16, modes: bv8, memory: bool)
    | Drop(s: Slot)
    | Destroy(cnode: nat)
    | Withdraw(s: Slot, mask: bv8)

  // Derived capabilities go to a slot of the node.
  predicate InRange(op: Op) {
    (op.Narrow? || op.Convert?) ==> op.dst < CNODE_SLOTS
  }

  predicate Bare(root: Ident) {
    && root.refs == 0 && root.epochStart == 0
    && root.parent.None? && root.next.None? && root.prev.None? && root.firstChild.None?
  }

  lemma RootsNew(v: View, kids: map<nat, seq<nat>>, slots: map<Slot, nat>, root: Ident)
    requires Core(v.idents, kids, slots, v.next) && NoGarbage(v.idents, kids, {}) && Sound(root) && Bare(root)
    ensures var idents', kids' := v.idents[v.next := root], kids[v.next := []];
            && Core(idents', kids', slots, v.next + 1) && NoGarbage(idents', kids', {v.next})
            && Evolves(v, View(idents', v.next + 1))
  {
    CoreFresh(v.idents, kids, slots, v.next);
    RootCore(v.idents, kids, slots, v.next, root);
    RootGarbage(v.idents, kids, v.next, root);
  }

  lemma LinksNew(v: View, kids: map<nat, seq<nat>>, slots: map<Slot, nat>, p: nat, child: Ident)
    requires Core(v.idents, kids, slots, v.next) && NoGarbage(v.idents, kids, {}) && MayDerive(v.idents, p, child)
    ensures p in kids
    ensures var idents', kids' := LinkChild(v.idents, p, v.next, child), kids[p := [v.next] + kids[p]][v.next := []];
            && Core(idents', kids', slots, v.next + 1) && NoGarbage(idents', kids', {v.next})
            && Evolves(v, View(idents', v.next + 1))
            && v.next in idents' && Body(idents'[v.next]) == Body(child.(parent := Some(p)))
  {
    CoreFresh(v.idents, kids, slots, v.next);
    DeriveEvolves(v, kids, p, child);
    DeriveCore(v.idents, kids, slots, v.next, p, child);
    DeriveGarbage(v.idents, kids, p, v.next, child);
    LinkChildBodies(v.idents, kids, p, v.next, child, v.next);
  }

  lemma RootGarbage(idents: map<nat, Ident>, kids: map<nat, seq<nat>>, c: nat, root: Ident)
    requires NoGarbage(idents, kids, {}) && c !in idents && kids.Keys == idents.Keys
    ensures NoGarbage(idents[c := root], kids[c := []], {c})
  {
    forall x | x in idents && x in kids
      ensures Needed(idents[c := root], kids[c := []], x)
    {
      assert Needed(idents, kids, x);
    }
  }

  /** The slots once the first n of a node are gone. */
  function Emptied(slots: map<Slot, nat>, cnode: nat, n: nat): map<Slot, nat> {
    map s | s in slots && !(s.cnode == cnode && s.index < n) :: slots[s]
  }

  lemma EmptiedNone(slots: map<Slot, nat>, cnode: nat)
    ensures Emptied(slots, cnode, 0) == slots
  {
  }

  lemma EmptiedStep(slots: map<Slot, nat>, cnode: nat, n: nat)
    ensures Emptied(slots, cnode, n + 1) == Emptied(slots, cnode, n) - {Slot(cnode, n)}
    ensures Slot(cnode, n) !in Emptied(slots, cnode, n) ==> Emptied(slots, cnode, n + 1) == Emptied(slots, cnode, n)
  {
  }

  predicate Grants(x: Ident) {
    x.rights & RIGHT_GRANT != 0
  }

  predicate Mintable(parent: Ident, rights: bv16, modes: bv8) {
    Grants(parent) && SubRights(rights, parent.rights) && ModesValid(modes) && parent.modes & modes != 0
  }

  function Minted(parent: Ident, rights: bv16, modes: bv8): Ident {
    Ident(parent.kind, rights, parent.modes & modes, None, parent.revoked, 0, 0, None, None, None)
  }

  predicate Retypable(parent: Ident, kind: nat) {
    Grants(parent) && parent.kind == KIND_RAM && (kind == KIND_PAGETABLE || kind == KIND_ENDPOINT)
  }

  function Retyped(parent: Ident, kind: nat): Ident {
    Ident(kind, parent.rights, parent.modes, None, parent.revoked, 0, 0, None, None, None)
  }

  lemma MayMint(idents: map<nat, Ident>, top: nat, p: nat, rights: bv16, modes: bv8)
    requires p in idents && Placed(idents, top, p) && idents[p].revoked == 0
    requires SubRights(rights, idents[p].rights) && idents[p].modes & modes != 0
    ensures MayDerive(idents, p, Minted(idents[p], rights, modes))
  {
  }

  lemma MayRetype(idents: map<nat, Ident>, top: nat, p: nat, kind: nat)
    requires p in idents && Placed(idents, top, p) && idents[p].revoked == 0
    requires kind == KIND_PAGETABLE || kind == KIND_ENDPOINT
    ensures MayDerive(idents, p, Retyped(idents[p], kind))
  {
  }

  lemma InsertGarbage(idents: map<nat, Ident>, kids: map<nat, seq<nat>>, id: nat)
    requires id in idents
    ensures NoGarbage(idents, kids, {id}) ==>
      NoGarbage(idents[id := idents[id].(refs := idents[id].refs + 1)], kids, {})
  {
    var idents' := idents[id := idents[id].(refs := idents[id].refs + 1)];
    if NoGarbage(idents, kids, {id}) {
      forall x | x in idents' && x in kids
        ensures Needed(idents', kids, x)
      {
        assert x != id ==> Needed(idents, kids, x);
      }
    }
  }

  lemma DeriveGarbage(idents: map<nat, Ident>, kids: map<nat, seq<nat>>, p: nat, c: nat, child: Ident)
    requires Links(idents, kids) && NoGarbage(idents, kids, {}) && p in idents && c !in idents && p in kids
    ensures NoGarbage(LinkChild(idents, p, c, child), kids[p := [c] + kids[p]][c := []], {c})
  {
    var idents', kids' := LinkChild(idents, p, c, child), kids[p := [c] + kids[p]][c := []];
    forall x | x in idents' && x in kids' && x != c
      ensures Needed(idents', kids', x)
    {
      assert x in kids ==> x in idents && Needed(idents, kids, x);
      LinkChildBodies(idents, kids, p, c, child, x);
      assert Body(idents'[x]).refs == Body(idents[x]).refs;
    }
  }

  lemma InsertCore(idents: map<nat, Ident>, kids: map<nat, seq<nat>>, slots: map<Slot, nat>, top: nat, s: Slot, id: nat)
    requires Core(idents, kids, slots, top) && id in idents && s !in slots
    ensures Core(idents[id := idents[id].(refs := idents[id].refs + 1)], kids, slots[s := id], top)
  {
    var idents' := idents[id := idents[id].(refs := idents[id].refs + 1)];
    SameForestLinks(idents, idents', kids);
    forall x | x in idents'
      ensures idents'[x].refs == |Holders(slots[s := id], x)|
      ensures EpochAt(idents', x) && AttenuatedAt(idents', x) && Placed(idents', top, x)
    {
      HoldersInsert(slots, s, id, x);
      assert EpochAt(idents, x) && AttenuatedAt(idents, x) && Placed(idents, top, x);
    }
  }

  // What is at or below a revoked identity any time later is revoked and was there.
  lemma {:induction false} DeadBelow(before: map<nat, Ident>, a: nat, e: nat,
                  v: View, kids: map<nat, seq<nat>>, slots: map<Slot, nat>,
                  w: View, kids': map<nat, seq<nat>>, slots': map<Slot, nat>, d: nat)
    requires a in before && e != 0 && Marked(before, v.idents, a, e) && Evolves(v, w)
    requires Core(v.idents, kids, slots, v.next) && Core(w.idents, kids', slots', w.next)
    requires d in w.idents && Above(w.idents, a, d)
    ensures w.idents[d].revoked != 0 && d < v.next
  {
    CoreFresh(v.idents, kids, slots, v.next);
    CoreFresh(w.idents, kids', slots', w.next);
    assert Above(before, a, a) && Numbered(v) && Numbered(w);
    DeadForever([v, w], kids, kids', a, d);
  }
}
