/**
 The lineage forest of capability identities: parent pointers, doubly linked
 sibling lists, reference counts and revocation marks, as values.
 Identities are named by their allocation number, so a name is never reused.
 */
module Lineage {

  import opened Lists
  import opened Options

  datatype Ident = Ident(kind: nat, rights: bv16, modes: bv8, parent: Option<nat>, epochStart: nat,
                         revoked: nat, refs: nat, firstChild: Option<nat>, next: Option<nat>, prev: Option<nat>)

  datatype Slot = Slot(cnode: nat, index: nat)

  // ---- Sibling lists ----

  ghost function Position(list: seq<nat>, c: nat): (i: nat)
    requires c in list
    ensures i < |list| && list[i] == c
  {
    var i :| 0 <= i < |list| && list[i] == c;
    i
  }

  ghost predicate ChildList(idents: map<nat, Ident>, kids: map<nat, seq<nat>>, p: nat) {
    && p in idents && p in kids && idents[p].firstChild == At(kids[p], 0)
    && (forall i :: 0 <= i < |kids[p]| ==> ChildAt(idents, p, kids[p], i))
    && (forall i, j :: 0 <= i < j < |kids[p]| ==> kids[p][i] != kids[p][j])
  }

  ghost predicate ChildAt(idents: map<nat, Ident>, p: nat, list: seq<nat>, i: nat)
    requires i < |list|
  {
    var c := list[i];
    c in idents && idents[c].parent == Some(p) && idents[c].next == At(list, i + 1) && idents[c].prev == At(list, i - 1)
  }

  ghost predicate ParentOk(idents: map<nat, Ident>, kids: map<nat, seq<nat>>, c: nat)
    requires c in idents
  {
    match idents[c].parent
    case Some(p) => p in idents && p in kids && p < c && c in kids[p]
    case None => idents[c].next.None? && idents[c].prev.None?
  }

  /** Well-linked: `kids` lists the children of each identity in sibling order, no
      parent is missing, and parents are older than their children. */
  ghost predicate Links(idents: map<nat, Ident>, kids: map<nat, seq<nat>>) {
    && kids.Keys == idents.Keys
    && (forall p {:trigger ChildList(idents, kids, p)} :: p in idents ==> ChildList(idents, kids, p))
    && (forall c {:trigger ParentOk(idents, kids, c)} :: c in idents ==> ParentOk(idents, kids, c))
  }

  // What linking under a parent changes: the parent's first child and the back
  // link of the child that was first.
  function LinkChild(idents: map<nat, Ident>, p: nat, c: nat, child: Ident): map<nat, Ident>
    requires p in idents
  {
    var first := idents[p].firstChild;
    var with := idents[c := child.(parent := Some(p), next := first, prev := None, firstChild := None)];
    var back := if first.Some? && first.value in with then with[first.value := with[first.value].(prev := Some(c))]
      else with;
    back[p := back[p].(firstChild := Some(c))]
  }

  // Field by field, what an identity looks like afterwards.
  lemma LinkChildAt(idents: map<nat, Ident>, p: nat, c: nat, child: Ident, x: nat)
    requires p in idents && c !in idents && x in LinkChild(idents, p, c, child)
    requires idents[p].firstChild.Some? ==> idents[p].firstChild.value in idents
    ensures x == c || x in idents
    ensures var y := LinkChild(idents, p, c, child)[x];
            if x == c
              then y == child.(parent := Some(p), next := idents[p].firstChild, prev := None, firstChild := None)
            else y == idents[x].(firstChild := if x == p then Some(c) else idents[x].firstChild,
                                 prev := if idents[p].firstChild == Some(x) then Some(c) else idents[x].prev)
  {
  }

  ghost predicate SameLinks(idents: map<nat, Ident>, idents': map<nat, Ident>, d: nat) {
    && d in idents && d in idents' && idents'[d].parent == idents[d].parent
    && idents'[d].next == idents[d].next && idents'[d].prev == idents[d].prev
  }

  lemma ChildListFrame(idents: map<nat, Ident>, kids: map<nat, seq<nat>>, idents': map<nat, Ident>,
                       kids': map<nat, seq<nat>>, q: nat)
    requires ChildList(idents, kids, q) && q in idents' && q in kids' && kids'[q] == kids[q]
    requires idents'[q].firstChild == idents[q].firstChild
    requires forall i :: 0 <= i < |kids[q]| ==> SameLinks(idents, idents', kids[q][i])
    ensures ChildList(idents', kids', q)
  {
    forall i | 0 <= i < |kids[q]|
      ensures ChildAt(idents', q, kids'[q], i)
    {
      assert ChildAt(idents, q, kids[q], i) && SameLinks(idents, idents', kids[q][i]);
    }
  }

  // The old children move one place down, behind the new one.
  lemma LinkChildNext(idents: map<nat, Ident>, kids: map<nat, seq<nat>>, p: nat, c: nat, child: Ident, i: nat)
    requires ChildList(idents, kids, p) && c !in idents && i < |kids[p]|
    ensures ChildAt(LinkChild(idents, p, c, child), p, [c] + kids[p], i + 1)
  {
    var list := kids[p];
    assert ChildAt(idents, p, list, i) && ChildAt(idents, p, list, 0);
    LinkChildAt(idents, p, c, child, list[i]);
    assert At([c] + list, i + 2) == At(list, i + 1);
    assert At([c] + list, i) == if i == 0 then Some(c) else At(list, i - 1);
  }

  lemma LinkChildFirst(idents: map<nat, Ident>, kids: map<nat, seq<nat>>, p: nat, c: nat, child: Ident)
    requires ChildList(idents, kids, p) && c !in idents
    ensures ChildList(LinkChild(idents, p, c, child), kids[p := [c] + kids[p]][c := []], p)
  {
    var list, list' := kids[p], [c] + kids[p];
    var idents' := LinkChild(idents, p, c, child);
    if list != [] { assert ChildAt(idents, p, list, 0); }
    LinkChildAt(idents, p, c, child, c);
    LinkChildAt(idents, p, c, child, p);
    assert At(list', 1) == At(list, 0);
    forall i | 0 <= i < |list'|
      ensures ChildAt(idents', p, list', i)
    {
      if i > 0 {
        LinkChildNext(idents, kids, p, c, child, i - 1);
      }
    }
    forall i, j | 0 <= i < j < |list'|
      ensures list'[i] != list'[j]
    {
      assert ChildAt(idents, p, list, j - 1);
    }
  }

  lemma FirstChildOk(idents: map<nat, Ident>, kids: map<nat, seq<nat>>, p: nat)
    requires Links(idents, kids) && p in idents && idents[p].firstChild.Some?
    ensures idents[p].firstChild.value in idents && idents[idents[p].firstChild.value].parent == Some(p)
  {
    assert ChildList(idents, kids, p) && ChildAt(idents, p, kids[p], 0);
  }

  lemma LinkChildLinks(idents: map<nat, Ident>, kids: map<nat, seq<nat>>, p: nat, c: nat, child: Ident)
    requires Links(idents, kids) && p in idents && c !in idents && p < c
    ensures Links(LinkChild(idents, p, c, child), kids[p := [c] + kids[p]][c := []])
  {
    var idents' := LinkChild(idents, p, c, child);
    var kids' := kids[p := [c] + kids[p]][c := []];
    if idents[p].firstChild.Some? { FirstChildOk(idents, kids, p); }
    forall q | q in idents'
      ensures ChildList(idents', kids', q)
    {
      LinkChildAt(idents, p, c, child, q);
      if q == p {
        LinkChildFirst(idents, kids, p, c, child);
      } else if q != c {
        assert ChildList(idents, kids, q);
        forall i | 0 <= i < |kids[q]|
          ensures SameLinks(idents, idents', kids[q][i])
        {
          assert ChildAt(idents, q, kids[q], i);
          LinkChildAt(idents, p, c, child, kids[q][i]);
        }
        ChildListFrame(idents, kids, idents', kids', q);
      }
    }
    forall d | d in idents'
      ensures ParentOk(idents', kids', d)
    {
      LinkChildAt(idents, p, c, child, d);
      if d == c {
        assert c == kids'[p][0];
      } else {
        LinkChildParent(idents, kids, p, c, child, d);
      }
    }
  }

  lemma LinkChildParent(idents: map<nat, Ident>, kids: map<nat, seq<nat>>, p: nat, c: nat, child: Ident, d: nat)
    requires Links(idents, kids) && p in idents && c !in idents && d in idents && d in LinkChild(idents, p, c, child)
    ensures ParentOk(LinkChild(idents, p, c, child), kids[p := [c] + kids[p]][c := []], d)
  {
    if idents[p].firstChild.Some? { FirstChildOk(idents, kids, p); }
    LinkChildAt(idents, p, c, child, d);
    assert ParentOk(idents, kids, d);
    if idents[d].parent == Some(p) {
      assert ([c] + kids[p])[Position(kids[p], d) + 1] == d;
    }
  }

  // cap_unlink_from_parent followed by the release of the identity.
  function Unlink(idents: map<nat, Ident>, c: nat): map<nat, Ident>
    requires c in idents
  {
    match idents[c].parent
    case None => idents - {c}
    case Some(p) =>
      var me := idents[c];
      var a := if me.prev.Some? && me.prev.value in idents
               then idents[me.prev.value := idents[me.prev.value].(next := me.next)]
               else if p in idents then idents[p := idents[p].(firstChild := me.next)] else idents;
      var b := if me.next.Some? && me.next.value in a then a[me.next.value := a[me.next.value].(prev := me.prev)]
        else a;
      b - {c}
  }

  /** The children lists once `c` is gone. */
  ghost function UnlinkKids(idents: map<nat, Ident>, kids: map<nat, seq<nat>>, c: nat): map<nat, seq<nat>>
    requires Links(idents, kids) && c in idents
  {
    match idents[c].parent
    case None => kids - {c}
    case Some(p) =>
      assert ParentOk(idents, kids, c);
      kids[p := Without(kids[p], Position(kids[p], c))] - {c}
  }

  lemma UnlinkAt(idents: map<nat, Ident>, c: nat, x: nat)
    requires c in idents && x in Unlink(idents, c)
    requires idents[c].parent.Some? ==> idents[c].parent.value in idents && idents[c].parent.value != c
    requires idents[c].next.Some? ==> idents[c].next.value in idents && idents[c].next != idents[c].prev
    requires idents[c].prev.Some? ==> idents[c].prev.value in idents
    ensures x in idents && x != c
    ensures var me, y := idents[c], Unlink(idents, c)[x];
            if me.parent.None? then y == idents[x]
            else y == idents[x].(next := if me.prev == Some(x) then me.next else idents[x].next,
                                 prev := if me.next == Some(x) then me.prev else idents[x].prev,
                                 firstChild := if me.prev.None? && me.parent == Some(x) then me.next
                                   else idents[x].firstChild)
  {
  }

  // The neighbours of an identity in its sibling list.
  lemma Neighbours(idents: map<nat, Ident>, kids: map<nat, seq<nat>>, c: nat)
    requires Links(idents, kids) && c in idents
    ensures var me := idents[c];
            && (me.parent.Some? ==> me.parent.value in idents && me.parent.value < c && c in kids[me.parent.value])
            && (me.next.Some? ==>
                 me.next.value in idents && me.next != me.prev && idents[me.next.value].parent == me.parent &&
                 me.parent.Some?)
            && (me.prev.Some? ==>
                 me.prev.value in idents && idents[me.prev.value].parent == me.parent && me.parent.Some?)
            && (me.parent.Some? ==>
                  var list := kids[me.parent.value]; var i := Position(list, c);
                  me.next == At(list, i + 1) && me.prev == At(list, i - 1))
  {
    assert ParentOk(idents, kids, c);
    if idents[c].parent.Some? {
      var p := idents[c].parent.value;
      var i := Position(kids[p], c);
      assert ChildList(idents, kids, p) && ChildAt(idents, p, kids[p], i);
      if i > 0 { assert ChildAt(idents, p, kids[p], i - 1); }
      if i + 1 < |kids[p]| { assert ChildAt(idents, p, kids[p], i + 1); }
    }
  }

  lemma UnlinkSiblings(idents: map<nat, Ident>, kids: map<nat, seq<nat>>, c: nat, p: nat)
    requires Links(idents, kids) && c in idents && idents[c].parent == Some(p) && p in Unlink(idents, c)
    ensures ChildList(Unlink(idents, c), UnlinkKids(idents, kids, c), p)
  {
    Neighbours(idents, kids, c);
    var list, i := kids[p], Position(kids[p], c);
    var idents', list' := Unlink(idents, c), Without(list, i);
    assert ChildList(idents, kids, p);
    UnlinkAt(idents, c, p);
    forall j | 0 <= j < |list'|
      ensures ChildAt(idents', p, list', j)
    {
      UnlinkSibling(idents, kids, c, p, i, j);
    }
    forall j, k | 0 <= j < k < |list'|
      ensures list'[j] != list'[k]
    {
      WithoutAt(list, i, j);
      WithoutAt(list, i, k);
    }
  }

  // One sibling, with only its own list in view.
  lemma UnlinkSibling(idents: map<nat, Ident>, kids: map<nat, seq<nat>>, c: nat, p: nat, i: nat, j: nat)
    requires ChildList(idents, kids, p) && p != c && c in idents
    requires i < |kids[p]| && kids[p][i] == c && j + 1 < |kids[p]|
    ensures ChildAt(Unlink(idents, c), p, Without(kids[p], i), j)
  {
    var list := kids[p];
    var k := if j < i then j else j + 1;
    assert ChildAt(idents, p, list, i) && ChildAt(idents, p, list, k);
    if i > 0 { assert ChildAt(idents, p, list, i - 1); }
    if i + 1 < |list| { assert ChildAt(idents, p, list, i + 1); }
    WithoutAt(list, i, j);
    UnlinkAt(idents, c, list[k]);
  }

  /** Removing a childless identity keeps the forest well-linked. */
  lemma UnlinkLinks(idents: map<nat, Ident>, kids: map<nat, seq<nat>>, c: nat)
    requires Links(idents, kids) && c in idents && kids[c] == []
    ensures Links(Unlink(idents, c), UnlinkKids(idents, kids, c))
  {
    var idents', kids' := Unlink(idents, c), UnlinkKids(idents, kids, c);
    Neighbours(idents, kids, c);
    forall q | q in idents'
      ensures ChildList(idents', kids', q)
    {
      UnlinkAt(idents, c, q);
      if idents[c].parent == Some(q) {
        UnlinkSiblings(idents, kids, c, q);
      } else {
        UnlinkElsewhere(idents, kids, c, q);
      }
    }
    forall d | d in idents'
      ensures ParentOk(idents', kids', d)
    {
      UnlinkAt(idents, c, d);
      UnlinkParent(idents, kids, c, d);
    }
  }

  lemma StillListed(list: seq<nat>, c: nat, d: nat)
    requires c in list && d in list && c != d
    ensures d in Without(list, Position(list, c))
  {
    var i, j := Position(list, c), Position(list, d);
    WithoutAt(list, i, if j < i then j else j - 1);
  }

  lemma UnlinkParent(idents: map<nat, Ident>, kids: map<nat, seq<nat>>, c: nat, d: nat)
    requires Links(idents, kids) && c in idents && kids[c] == [] && d in Unlink(idents, c) && d in idents && d != c
    ensures ParentOk(Unlink(idents, c), UnlinkKids(idents, kids, c), d)
  {
    Neighbours(idents, kids, c);
    UnlinkAt(idents, c, d);
    assert ParentOk(idents, kids, d);
    if idents[d].parent.Some? && idents[c].parent == idents[d].parent {
      StillListed(kids[idents[d].parent.value], c, d);
    }
  }

  lemma UnlinkElsewhere(idents: map<nat, Ident>, kids: map<nat, seq<nat>>, c: nat, q: nat)
    requires Links(idents, kids) && c in idents && kids[c] == []
    requires q in Unlink(idents, c) && q in idents && q != c && idents[c].parent != Some(q)
    ensures ChildList(Unlink(idents, c), UnlinkKids(idents, kids, c), q)
  {
    Neighbours(idents, kids, c);
    UnlinkAt(idents, c, q);
    assert ChildList(idents, kids, q);
    forall i | 0 <= i < |kids[q]|
      ensures SameLinks(idents, Unlink(idents, c), kids[q][i])
    {
      assert ChildAt(idents, q, kids[q], i);
      assert kids[q][i] != c;
      UnlinkAt(idents, c, kids[q][i]);
    }
    ChildListFrame(idents, kids, Unlink(idents, c), UnlinkKids(idents, kids, c), q);
  }

  // Fields other than links do not matter to the forest.
  ghost predicate SameForest(idents: map<nat, Ident>, idents': map<nat, Ident>) {
    && idents'.Keys == idents.Keys
    && forall d :: d in idents ==> SameLinks(idents, idents', d) && idents'[d].firstChild == idents[d].firstChild
  }

  lemma SameForestLinks(idents: map<nat, Ident>, idents': map<nat, Ident>, kids: map<nat, seq<nat>>)
    requires Links(idents, kids) && SameForest(idents, idents')
    ensures Links(idents', kids)
  {
    forall p | p in idents'
      ensures ChildList(idents', kids, p)
    {
      assert ChildList(idents, kids, p);
      forall i | 0 <= i < |kids[p]|
        ensures SameLinks(idents, idents', kids[p][i])
      {
        assert ChildAt(idents, p, kids[p], i);
      }
      ChildListFrame(idents, kids, idents', kids, p);
    }
    forall c | c in idents'
      ensures ParentOk(idents', kids, c)
    {
      assert ParentOk(idents, kids, c) && SameLinks(idents, idents', c);
    }
  }

  // ---- Ancestors ----

  function ParentOf(idents: map<nat, Ident>, c: nat): Option<nat> {
    if c in idents && idents[c].parent.Some? && idents[c].parent.value < c then idents[c].parent else None
  }

  /** `a` is `d` or an ancestor of `d`. */
  predicate Above(idents: map<nat, Ident>, a: nat, d: nat)
    decreases d
  {
    a == d || (ParentOf(idents, d).Some? && Above(idents, a, ParentOf(idents, d).value))
  }

  lemma {:induction false} AboveTrans(idents: map<nat, Ident>, a: nat, b: nat, d: nat)
    requires Above(idents, a, b) && Above(idents, b, d)
    ensures Above(idents, a, d)
    decreases d
  {
    if b == d {
    } else {
      AboveTrans(idents, a, b, ParentOf(idents, d).value);
    }
  }

  lemma {:induction false} AboveSame(idents: map<nat, Ident>, idents': map<nat, Ident>, a: nat, d: nat)
    requires forall x :: ParentOf(idents, x) == ParentOf(idents', x)
    ensures Above(idents, a, d) <==> Above(idents', a, d)
    decreases d
  {
    if ParentOf(idents, d).None? {
    } else {
      AboveSame(idents, idents', a, ParentOf(idents, d).value);
    }
  }

  /** Below an identity lie itself and whatever lies below its children. */
  lemma {:induction false} AboveByChild(idents: map<nat, Ident>, kids: map<nat, seq<nat>>, a: nat, d: nat)
    requires Links(idents, kids) && a in idents
    ensures Above(idents, a, d) <==> d == a || exists i :: 0 <= i < |kids[a]| && Above(idents, kids[a][i], d)
    decreases d
  {
    var up := ParentOf(idents, d);
    if d != a && up.Some? && Above(idents, a, up.value) {
      if up.value == a {
        assert ParentOk(idents, kids, d);
        assert kids[a][Position(kids[a], d)] == d;
      } else {
        AboveByChild(idents, kids, a, up.value);
      }
    }
    if i :| 0 <= i < |kids[a]| && Above(idents, kids[a][i], d) {
      assert ChildList(idents, kids, a) && ChildAt(idents, a, kids[a], i);
      assert ParentOk(idents, kids, kids[a][i]);
      assert Above(idents, a, kids[a][i]);
      AboveTrans(idents, a, kids[a][i], d);
    }
  }

  // ---- Slots and reference counts ----

  ghost function Holders(slots: map<Slot, nat>, id: nat): set<Slot> {
    set s | s in slots && slots[s] == id
  }

  ghost predicate Counted(idents: map<nat, Ident>, slots: map<Slot, nat>) {
    && (forall s :: s in slots ==> slots[s] in idents)
    && (forall id {:trigger Holders(slots, id)} :: id in idents ==> idents[id].refs == |Holders(slots, id)|)
  }

  lemma HoldersInsert(slots: map<Slot, nat>, s: Slot, id: nat, x: nat)
    requires s !in slots
    ensures |Holders(slots[s := id], x)| == |Holders(slots, x)| + if x == id then 1 else 0
  {
    assert Holders(slots[s := id], x) == Holders(slots, x) + if x == id then {s} else {};
  }

  lemma HoldersDelete(slots: map<Slot, nat>, s: Slot, x: nat)
    requires s in slots
    ensures |Holders(slots - {s}, x)| == |Holders(slots, x)| - if x == slots[s] then 1 else 0
  {
    assert Holders(slots - {s}, x) == Holders(slots, x) - {s};
  }

  /** Nothing is kept that neither a slot nor a child needs, `except` aside. */
  ghost predicate NoGarbage(idents: map<nat, Ident>, kids: map<nat, seq<nat>>, except: set<nat>) {
    forall id {:trigger Needed(idents, kids, id)} :: id in idents && id in kids && id !in except ==>
      Needed(idents, kids, id)
  }

  ghost predicate Needed(idents: map<nat, Ident>, kids: map<nat, seq<nat>>, id: nat)
    requires id in idents && id in kids
  {
    idents[id].refs > 0 || kids[id] != []
  }

  /** Every identity is held by a slot, directly or through a descendant ... */
  lemma {:induction false} HeldBelow(idents: map<nat, Ident>, kids: map<nat, seq<nat>>, slots: map<Slot, nat>, id: nat,
                                     top: nat)
    returns (s: Slot)
    requires Links(idents, kids) && Counted(idents, slots) && NoGarbage(idents, kids, {})
    requires id in idents && forall x :: x in idents ==> x < top
    ensures s in slots && Above(idents, id, slots[s])
    decreases top - id
  {
    assert Needed(idents, kids, id);
    if idents[id].refs > 0 {
      assert Holders(slots, id) != {};
      s :| s in Holders(slots, id);
    } else {
      assert ChildList(idents, kids, id) && ChildAt(idents, id, kids[id], 0);
      var c := kids[id][0];
      assert ParentOk(idents, kids, c);
      s := HeldBelow(idents, kids, slots, c, top);
      assert Above(idents, id, c);
      AboveTrans(idents, id, c, slots[s]);
    }
  }

  lemma {:induction false} AncestorsKept(idents: map<nat, Ident>, kids: map<nat, seq<nat>>, a: nat, d: nat)
    requires Links(idents, kids) && d in idents && Above(idents, a, d)
    ensures a in idents
    decreases d
  {
    if a == d {
    } else {
      assert ParentOk(idents, kids, d);
      AncestorsKept(idents, kids, a, ParentOf(idents, d).value);
    }
  }

  /** ... so an identity is allocated exactly while some slot holds it or a
      descendant of it. */
  lemma AllocatedIffHeld(idents: map<nat, Ident>, kids: map<nat, seq<nat>>, slots: map<Slot, nat>, id: nat, top: nat)
    requires Links(idents, kids) && Counted(idents, slots) && NoGarbage(idents, kids, {})
    requires forall x :: x in idents ==> x < top
    ensures id in idents <==> exists s :: s in slots && Above(idents, id, slots[s])
  {
    if id in idents {
      var s := HeldBelow(idents, kids, slots, id, top);
    }
    if s :| s in slots && Above(idents, id, slots[s]) {
      AncestorsKept(idents, kids, id, slots[s]);
    }
  }

  // ---- Revocation marks ----

  /** Marks cover descendants, and every identity was born under a live parent. */
  ghost predicate Epochs(idents: map<nat, Ident>) {
    forall c {:trigger EpochAt(idents, c)} :: c in idents ==> EpochAt(idents, c)
  }

  ghost predicate EpochAt(idents: map<nat, Ident>, c: nat)
    requires c in idents
  {
    && idents[c].epochStart == 0
    && (idents[c].parent.Some? && idents[c].parent.value in idents && idents[idents[c].parent.value].revoked != 0
        ==> idents[c].revoked != 0)
  }

  /** The walk of cap_identity_is_alive above an identity: every ancestor is
      allocated and carries the mark its child was born under. */
  predicate ChainIntact(idents: map<nat, Ident>, c: nat)
    requires c in idents && forall x :: x in idents && idents[x].parent.Some? ==> idents[x].parent.value < x
    decreases c
  {
    match idents[c].parent
    case None => true
    case Some(p) => p in idents && idents[p].revoked == idents[c].epochStart && ChainIntact(idents, p)
  }

  predicate Rooted(idents: map<nat, Ident>) {
    forall x :: x in idents && idents[x].parent.Some? ==> idents[x].parent.value < x
  }

  lemma LinksRooted(idents: map<nat, Ident>, kids: map<nat, seq<nat>>)
    requires Links(idents, kids)
    ensures Rooted(idents)
  {
    forall x | x in idents && idents[x].parent.Some?
      ensures idents[x].parent.value < x
    {
      assert ParentOk(idents, kids, x);
    }
  }

  /** In well-formed states the ancestor walk agrees with the identity's own mark. */
  lemma {:induction false} WalkAgrees(idents: map<nat, Ident>, kids: map<nat, seq<nat>>, c: nat)
    requires Links(idents, kids) && Epochs(idents) && Rooted(idents) && c in idents && idents[c].revoked == 0
    ensures ChainIntact(idents, c)
    decreases c
  {
    assert ParentOk(idents, kids, c) && EpochAt(idents, c);
    if idents[c].parent.Some? {
      WalkAgrees(idents, kids, idents[c].parent.value);
    }
  }

  /** A mark on an identity reaches everything below it. */
  lemma {:induction false} MarkReaches(idents: map<nat, Ident>, a: nat, d: nat)
    requires Epochs(idents) && a in idents && idents[a].revoked != 0 && d in idents && Above(idents, a, d)
    requires forall x :: x in idents && idents[x].parent.Some? ==> idents[x].parent.value in idents
    ensures idents[d].revoked != 0
    decreases d
  {
    if a == d {
    } else {
      assert EpochAt(idents, d);
      MarkReaches(idents, a, ParentOf(idents, d).value);
    }
  }

  // ---- Authority ----

  predicate SubRights(a: bv16, b: bv16) { a & b == a }
  predicate SubModes(a: bv8, b: bv8) { a & b == a }

  /** Each identity has at most the rights and modes of its parent. */
  ghost predicate Attenuated(idents: map<nat, Ident>) {
    forall c {:trigger AttenuatedAt(idents, c)} :: c in idents ==> AttenuatedAt(idents, c)
  }

  ghost predicate AttenuatedAt(idents: map<nat, Ident>, c: nat)
    requires c in idents
  {
    idents[c].parent.Some? && idents[c].parent.value in idents ==>
      var p := idents[c].parent.value;
      SubRights(idents[c].rights, idents[p].rights) && SubModes(idents[c].modes, idents[p].modes)
  }

  lemma SubTrans(a: bv16, b: bv16, c: bv16, x: bv8, y: bv8, z: bv8)
    ensures SubRights(a, b) && SubRights(b, c) ==> SubRights(a, c)
    ensures SubModes(x, y) && SubModes(y, z) ==> SubModes(x, z)
    ensures SubRights(a, a) && SubModes(x, x)
  {
  }

  /** No identity has more authority than any of its ancestors. */
  lemma {:induction false} AuthorityBounded(idents: map<nat, Ident>, a: nat, d: nat)
    requires Attenuated(idents) && a in idents && d in idents && Above(idents, a, d)
    requires forall x :: x in idents && idents[x].parent.Some? ==> idents[x].parent.value in idents
    ensures SubRights(idents[d].rights, idents[a].rights) && SubModes(idents[d].modes, idents[a].modes)
    decreases d
  {
    if a != d {
      var p := ParentOf(idents, d).value;
      assert AttenuatedAt(idents, d);
      AuthorityBounded(idents, a, p);
      SubTrans(idents[d].rights, idents[p].rights, idents[a].rights, idents[d].modes, idents[p].modes, idents[a].modes);
    } else {
      SubTrans(idents[d].rights, idents[d].rights, idents[d].rights, idents[d].modes, idents[d].modes, idents[d].modes);
    }
  }

  // ---- Releasing identities ----

  function Body(x: Ident): Ident {
    x.(firstChild := None, next := None, prev := None)
  }

  /** Only links, if anything, differ for the identities that remain. */
  ghost predicate Pruned(idents: map<nat, Ident>, idents': map<nat, Ident>) {
    forall x :: x in idents' ==> x in idents && Body(idents'[x]) == Body(idents[x])
  }

  ghost predicate Sound(x: Ident) {
    0 < x.kind < 16 && x.modes != 0 && x.modes & 0xE0 == 0
  }

  /** Everything the capability operations keep, apart from garbage freedom. */
  ghost predicate Core(idents: map<nat, Ident>, kids: map<nat, seq<nat>>, slots: map<Slot, nat>, top: nat) {
    && Links(idents, kids) && Counted(idents, slots) && Epochs(idents) && Attenuated(idents)
    && (forall x {:trigger Placed(idents, top, x)} :: x in idents ==> Placed(idents, top, x))
  }

  ghost predicate Placed(idents: map<nat, Ident>, top: nat, x: nat)
    requires x in idents
  {
    x < top && Sound(idents[x])
  }

  lemma CoreFresh(idents: map<nat, Ident>, kids: map<nat, seq<nat>>, slots: map<Slot, nat>, top: nat)
    requires Core(idents, kids, slots, top)
    ensures forall x :: x in idents ==> x < top
  {
    forall x | x in idents
      ensures x < top
    {
      assert Placed(idents, top, x);
    }
  }

  lemma UnlinkPruned(idents: map<nat, Ident>, kids: map<nat, seq<nat>>, c: nat)
    requires Links(idents, kids) && c in idents
    ensures Pruned(idents, Unlink(idents, c)) && Unlink(idents, c).Keys == idents.Keys - {c}
  {
    Neighbours(idents, kids, c);
    forall x | x in Unlink(idents, c)
      ensures x in idents && Body(Unlink(idents, c)[x]) == Body(idents[x])
    {
      UnlinkAt(idents, c, x);
    }
  }

  lemma PrunedCore(idents: map<nat, Ident>, kids: map<nat, seq<nat>>, slots: map<Slot, nat>, top: nat,
                   idents': map<nat, Ident>, kids': map<nat, seq<nat>>)
    requires Core(idents, kids, slots, top) && Links(idents', kids') && Pruned(idents, idents')
    requires forall s :: s in slots ==> slots[s] in idents'
    ensures Core(idents', kids', slots, top)
  {
    forall x | x in idents'
      ensures x in idents && idents'[x].refs == idents[x].refs && idents'[x].revoked == idents[x].revoked
      ensures idents'[x].parent == idents[x].parent && idents'[x].epochStart == idents[x].epochStart
      ensures idents'[x].rights == idents[x].rights && idents'[x].modes == idents[x].modes &&
        idents'[x].kind == idents[x].kind
    {
      assert Body(idents'[x]) == Body(idents[x]);
    }
    forall x | x in idents'
      ensures EpochAt(idents', x) && AttenuatedAt(idents', x) && Placed(idents', top, x)
    {
      assert EpochAt(idents, x) && AttenuatedAt(idents, x) && Placed(idents, top, x);
    }
  }

  /** The unreferenced chain that goes with a childless identity: its parent too,
      if this was the parent's only child and no slot holds the parent, and so on. */
  ghost function Chain(idents: map<nat, Ident>, kids: map<nat, seq<nat>>, c: nat): set<nat>
    requires Links(idents, kids) && c in idents
    decreases c
  {
    match idents[c].parent
    case None => {c}
    case Some(p) =>
      assert ParentOk(idents, kids, c);
      {c} + if idents[p].refs == 0 && kids[p] == [c] then Chain(idents, kids, p) else {}
  }

  // Unlinking below does not disturb the chain above.
  lemma {:induction false} ChainAfterUnlink(idents: map<nat, Ident>, kids: map<nat, seq<nat>>, c: nat, d: nat)
    requires Links(idents, kids) && c in idents && kids[c] == [] &&
      Links(Unlink(idents, c), UnlinkKids(idents, kids, c))
    requires d in idents && d < c && (idents[c].parent.Some? ==> d <= idents[c].parent.value)
    requires d in Unlink(idents, c)
    ensures Chain(Unlink(idents, c), UnlinkKids(idents, kids, c), d) == Chain(idents, kids, d)
    decreases d
  {
    UnlinkPruned(idents, kids, c);
    assert ParentOk(idents, kids, c) && ParentOk(idents, kids, d);
    assert Body(Unlink(idents, c)[d]) == Body(idents[d]);
    if idents[d].parent.Some? {
      var p := idents[d].parent.value;
      assert Body(Unlink(idents, c)[p]) == Body(idents[p]);
      ChainAfterUnlink(idents, kids, c, p);
    }
  }

  // ---- Deriving identities ----

  ghost predicate MayDerive(idents: map<nat, Ident>, p: nat, child: Ident) {
    && p in idents && idents[p].revoked == 0
    && Sound(child) && child.refs == 0 && child.revoked == 0 && child.epochStart == idents[p].revoked
    && SubRights(child.rights, idents[p].rights) && SubModes(child.modes, idents[p].modes)
  }

  // After linking, the old identities have the same bodies.
  lemma LinkChildBodies(idents: map<nat, Ident>, kids: map<nat, seq<nat>>, p: nat, c: nat, child: Ident, x: nat)
    requires Links(idents, kids) && p in idents && c !in idents && x in LinkChild(idents, p, c, child)
    ensures x == c || x in idents
    ensures Body(LinkChild(idents, p, c, child)[x]) == if x == c then Body(child.(parent := Some(p)))
      else Body(idents[x])
  {
    if idents[p].firstChild.Some? { FirstChildOk(idents, kids, p); }
    LinkChildAt(idents, p, c, child, x);
  }

  lemma DeriveCore(idents: map<nat, Ident>, kids: map<nat, seq<nat>>, slots: map<Slot, nat>, c: nat, p: nat,
                   child: Ident)
    requires Core(idents, kids, slots, c) && MayDerive(idents, p, child)
    ensures p in kids && c !in idents &&
      Core(LinkChild(idents, p, c, child), kids[p := [c] + kids[p]][c := []], slots, c + 1)
  {
    var idents' := LinkChild(idents, p, c, child);
    assert Placed(idents, c, p);
    CoreFresh(idents, kids, slots, c);
    LinkChildLinks(idents, kids, p, c, child);
    forall x | x in idents'
      ensures x == c || x in idents
      ensures Body(idents'[x]) == if x == c then Body(child.(parent := Some(p))) else Body(idents[x])
    {
      LinkChildBodies(idents, kids, p, c, child, x);
    }
    BodiesCore(idents, kids, slots, c, p, child, idents');
  }

  lemma BodiesCore(idents: map<nat, Ident>, kids: map<nat, seq<nat>>, slots: map<Slot, nat>, c: nat, p: nat,
                   child: Ident, idents': map<nat, Ident>)
    requires Core(idents, kids, slots, c) && MayDerive(idents, p, child)
    requires idents'.Keys == idents.Keys + {c} && c !in idents
    requires forall x :: x in idents' ==> Body(idents'[x]) == if x == c then Body(child.(parent := Some(p)))
      else Body(idents[x])
    ensures Counted(idents', slots) && Epochs(idents') && Attenuated(idents')
    ensures forall x :: x in idents' ==> Placed(idents', c + 1, x)
  {
    assert Holders(slots, c) == {};
    forall x | x in idents'
      ensures idents'[x].refs == |Holders(slots, x)| && Sound(idents'[x])
      ensures idents'[x].revoked == if x == c then 0 else idents[x].revoked
      ensures idents'[x].parent == if x == c then Some(p) else idents[x].parent
      ensures idents'[x].epochStart == 0
      ensures idents'[x].rights == if x == c then child.rights else idents[x].rights
      ensures idents'[x].modes == if x == c then child.modes else idents[x].modes
      ensures x != c ==> idents[x].parent != Some(c)
    {
      assert Body(idents'[x]) == if x == c then Body(child.(parent := Some(p))) else Body(idents[x]);
      if x != c {
        assert ParentOk(idents, kids, x) && EpochAt(idents, x) && Placed(idents, c, x);
      }
    }
    forall x | x in idents'
      ensures EpochAt(idents', x) && AttenuatedAt(idents', x) && Placed(idents', c + 1, x)
    {
      if x != c {
        assert EpochAt(idents, x) && AttenuatedAt(idents, x) && Placed(idents, c, x);
      }
    }
  }

  lemma RootCore(idents: map<nat, Ident>, kids: map<nat, seq<nat>>, slots: map<Slot, nat>, c: nat, root: Ident)
    requires Core(idents, kids, slots, c) && Sound(root) && root.refs == 0 && root.epochStart == 0
    requires root.parent.None? && root.next.None? && root.prev.None? && root.firstChild.None?
    ensures Core(idents[c := root], kids[c := []], slots, c + 1)
  {
    var idents', kids' := idents[c := root], kids[c := []];
    CoreFresh(idents, kids, slots, c);
    assert Holders(slots, c) == {};
    forall q | q in idents'
      ensures ChildList(idents', kids', q) && ParentOk(idents', kids', q)
      ensures EpochAt(idents', q) && AttenuatedAt(idents', q) && Placed(idents', c + 1, q)
    {
      if q != c {
        assert ChildList(idents, kids, q) && ParentOk(idents, kids, q);
        assert EpochAt(idents, q) && AttenuatedAt(idents, q) && Placed(idents, c, q);
        forall i | 0 <= i < |kids[q]|
          ensures SameLinks(idents, idents', kids[q][i])
        {
          assert ChildAt(idents, q, kids[q], i);
        }
        ChildListFrame(idents, kids, idents', kids', q);
      }
    }
  }

  // ---- Runs ----

  datatype View = View(idents: map<nat, Ident>, next: nat)

  /** Freed, or marked. */
  ghost predicate Dead(v: View, id: nat) {
    id < v.next && (id !in v.idents || v.idents[id].revoked != 0)
  }

  /** What every operation does to the identities: none comes back, none changes
      its place or authority, no mark is lifted, and no identity is born under one
      that was dead. */
  ghost predicate Evolves(v: View, w: View) {
    && v.next <= w.next
    && (forall id :: id in w.idents && id < v.next ==> Continues(v, w, id))
    && (forall id :: id in w.idents && id >= v.next && w.idents[id].parent.Some? ==>
          var p := w.idents[id].parent.value;
          p >= v.next || (p in v.idents && v.idents[p].revoked == 0))
  }

  ghost predicate Continues(v: View, w: View, id: nat)
    requires id in w.idents
  {
    && id in v.idents && w.idents[id].parent == v.idents[id].parent
    && w.idents[id].kind == v.idents[id].kind
    && w.idents[id].rights == v.idents[id].rights && w.idents[id].modes == v.idents[id].modes
    && (v.idents[id].revoked != 0 ==> w.idents[id].revoked != 0)
  }

  lemma EvolvesRefs(v: View, w: View, c: nat, refs: nat)
    requires Evolves(v, w) && c in w.idents
    ensures Evolves(v, w.(idents := w.idents[c := w.idents[c].(refs := refs)]))
  {
    var w' := w.(idents := w.idents[c := w.idents[c].(refs := refs)]);
    forall id | id in w'.idents && id < v.next
      ensures Continues(v, w', id)
    {
      assert Continues(v, w, id);
    }
  }

  lemma DeriveEvolves(v: View, kids: map<nat, seq<nat>>, p: nat, child: Ident)
    requires Numbered(v) && Links(v.idents, kids) && MayDerive(v.idents, p, child)
    ensures Evolves(v, View(LinkChild(v.idents, p, v.next, child), v.next + 1))
  {
    var c := v.next;
    var w := View(LinkChild(v.idents, p, c, child), c + 1);
    forall x | x in w.idents
      ensures w.idents[x].parent == if x == c then Some(p) else v.idents[x].parent
      ensures x != c ==> Continues(v, w, x)
    {
      LinkChildBodies(v.idents, kids, p, c, child, x);
    }
  }

  lemma EvolvesTrans(u: View, v: View, w: View)
    requires Evolves(u, v) && Evolves(v, w)
    ensures Evolves(u, w)
  {
    forall id | id in w.idents && id < u.next
      ensures Continues(u, w, id)
    {
      assert Continues(v, w, id) && Continues(u, v, id);
    }
    forall id | id in w.idents && id >= u.next && w.idents[id].parent.Some?
      ensures var p := w.idents[id].parent.value; p >= u.next || (p in u.idents && u.idents[p].revoked == 0)
    {
      var p := w.idents[id].parent.value;
      if id < v.next {
        assert Continues(v, w, id);
      } else if p < u.next {
        assert p in v.idents;
        assert Continues(u, v, p);
      }
    }
  }

  ghost predicate Numbered(v: View) {
    forall id :: id in v.idents ==> id < v.next
  }

  ghost predicate Run(vs: seq<View>) {
    (forall i :: 0 <= i < |vs| ==> Numbered(vs[i])) && forall i :: 0 <= i < |vs| - 1 ==> Evolves(vs[i], vs[i + 1])
  }

  lemma {:induction false} RunEvolves(vs: seq<View>)
    requires Run(vs) && vs != []
    ensures Evolves(vs[0], vs[|vs| - 1])
  {
    if |vs| <= 1 {
    } else {
      var front := vs[..|vs| - 1];
      RunEvolves(front);
      assert Evolves(vs[|vs| - 2], vs[|vs| - 1]);
      EvolvesTrans(vs[0], vs[|vs| - 2], vs[|vs| - 1]);
    }
  }

  /** Over a whole run: an identity that is dead stays dead, so does everything
      below it, and nothing below it is younger than the state it was dead in. */
  lemma {:induction false} DeadForever(vs: seq<View>, kids: map<nat, seq<nat>>, last: map<nat, seq<nat>>, id: nat,
                                       d: nat)
    requires Run(vs) && vs != [] && Dead(vs[0], id)
    requires Links(vs[0].idents, kids) && Epochs(vs[0].idents)
    requires var w := vs[|vs| - 1]; Links(w.idents, last) && Epochs(w.idents) && d in w.idents && Above(w.idents, id, d)
    ensures var w := vs[|vs| - 1]; w.idents[d].revoked != 0 && d < vs[0].next && Dead(w, d)
    decreases d
  {
    var v, w := vs[0], vs[|vs| - 1];
    RunEvolves(vs);
    if d == id {
      assert Continues(v, w, d);
    } else {
      assert ParentOk(w.idents, last, d) && EpochAt(w.idents, d);
      var p := ParentOf(w.idents, d).value;
      DeadForever(vs, kids, last, id, p);
      if d >= v.next {
        DeadParent(v, w, kids, last, id, p);
      }
    }
  }

  // An identity below a dead one was itself dead from the start.
  lemma {:induction false} DeadParent(v: View, w: View, kids: map<nat, seq<nat>>, last: map<nat, seq<nat>>, id: nat,
                                      p: nat)
    requires Evolves(v, w) && Dead(v, id) && Links(v.idents, kids) && Epochs(v.idents) && Links(w.idents, last)
    requires p in w.idents && p < v.next && Above(w.idents, id, p)
    ensures p in v.idents && v.idents[p].revoked != 0
    decreases p
  {
    assert Continues(v, w, p);
    if p != id {
      assert ParentOk(w.idents, last, p) && ParentOk(v.idents, kids, p) && EpochAt(v.idents, p);
      var q := ParentOf(w.idents, p).value;
      DeadParent(v, w, kids, last, id, q);
    }
  }

  // ---- Releasing one identity ----

  /** A childless identity that no slot holds, the only one not needed. */
  ghost predicate Releasable(idents: map<nat, Ident>, kids: map<nat, seq<nat>>, c: nat) {
    c in idents && c in kids && idents[c].refs == 0 && kids[c] == [] && NoGarbage(idents, kids, {c})
  }

  lemma ReleaseOne(idents: map<nat, Ident>, kids: map<nat, seq<nat>>, slots: map<Slot, nat>, top: nat, c: nat)
    requires Core(idents, kids, slots, top) && Releasable(idents, kids, c)
    ensures var idents', kids' := Unlink(idents, c), UnlinkKids(idents, kids, c);
            && Core(idents', kids', slots, top) && Pruned(idents, idents') && idents'.Keys == idents.Keys - {c}
            && (idents[c].parent.None? ==> NoGarbage(idents', kids', {}))
            && (idents[c].parent.Some? ==>
                  var p := idents[c].parent.value;
                  && p in idents' && p < c && idents'[p].refs == idents[p].refs
                  && (idents'[p].firstChild.None? <==> kids[p] == [c])
                  && (if idents'[p].refs == 0 && idents'[p].firstChild.None? then Releasable(idents', kids', p)
                       else NoGarbage(idents', kids', {})))
  {
    var idents', kids' := Unlink(idents, c), UnlinkKids(idents, kids, c);
    UnlinkLinks(idents, kids, c);
    UnlinkPruned(idents, kids, c);
    assert Holders(slots, c) == {};
    forall s | s in slots
      ensures slots[s] in idents'
    {
      assert s in Holders(slots, slots[s]);
    }
    PrunedCore(idents, kids, slots, top, idents', kids');
    assert ParentOk(idents, kids, c);
    forall x | x in idents' && x in kids' && idents[c].parent != Some(x)
      ensures Needed(idents', kids', x)
    {
      assert Needed(idents, kids, x) && Body(idents'[x]).refs == Body(idents[x]).refs;
    }
    if idents[c].parent.Some? {
      var p := idents[c].parent.value;
      assert Body(idents'[p]).refs == Body(idents[p]).refs;
      assert ChildList(idents', kids', p) && ChildList(idents, kids, p);
      OnlyChild(kids[p], c);
    }
  }

  lemma OnlyChild(list: seq<nat>, c: nat)
    requires c in list
    ensures Without(list, Position(list, c)) == [] <==> list == [c]
  {
  }

  /** What releasing one identity adds to the chain released from its parent on. */
  lemma ChainStep(idents: map<nat, Ident>, kids: map<nat, seq<nat>>, c: nat)
    requires Links(idents, kids) && c in idents && kids[c] == [] &&
      Links(Unlink(idents, c), UnlinkKids(idents, kids, c))
    ensures Chain(idents, kids, c) ==
            {c} + if idents[c].parent.Some? && idents[c].parent.value in Unlink(idents, c) &&
                     idents[idents[c].parent.value].refs == 0 && kids[idents[c].parent.value] == [c]
                  then Chain(Unlink(idents, c), UnlinkKids(idents, kids, c), idents[c].parent.value) else {}
  {
    assert ParentOk(idents, kids, c);
    UnlinkPruned(idents, kids, c);
    if idents[c].parent.Some? {
      ChainAfterUnlink(idents, kids, c, idents[c].parent.value);
    }
  }

  // ---- Dropping one reference ----

  function Dropped(idents: map<nat, Ident>, id: nat): map<nat, Ident>
    requires id in idents
  {
    idents[id := idents[id].(refs := if idents[id].refs > 0 then idents[id].refs - 1 else 0)]
  }

  lemma DropCore(idents: map<nat, Ident>, kids: map<nat, seq<nat>>, slots: map<Slot, nat>, top: nat, s: Slot)
    requires Core(idents, kids, slots, top) && s in slots
    ensures var id := slots[s];
            && id in idents && idents[id].refs > 0
            && Core(Dropped(idents, id), kids, slots - {s}, top)
  {
    var id := slots[s];
    assert s in Holders(slots, id);
    var idents' := Dropped(idents, id);
    SameForestLinks(idents, idents', kids);
    forall x | x in idents'
      ensures idents'[x].refs == |Holders(slots - {s}, x)|
      ensures EpochAt(idents', x) && AttenuatedAt(idents', x) && Placed(idents', top, x)
    {
      HoldersDelete(slots, s, x);
      assert EpochAt(idents, x) && AttenuatedAt(idents, x) && Placed(idents, top, x);
    }
  }

  // ---- Marking a subtree ----

  ghost predicate Marked(idents: map<nat, Ident>, idents': map<nat, Ident>, a: nat, e: nat) {
    && idents'.Keys == idents.Keys
    && forall x {:trigger Above(idents, a, x)} :: x in idents ==> idents'[x] == if Above(idents, a, x)
         then idents[x].(revoked := e) else idents[x]
  }

  ghost predicate Touched(idents: map<nat, Ident>, list: seq<nat>, n: nat, x: nat)
    requires n <= |list|
  {
    exists j :: 0 <= j < n && Above(idents, list[j], x)
  }

  /** The subtrees of the first n children are marked. */
  ghost predicate MarkedFirst(idents: map<nat, Ident>, idents': map<nat, Ident>, list: seq<nat>, n: nat, e: nat) {
    && n <= |list| && idents'.Keys == idents.Keys
    && forall x {:trigger Touched(idents, list, n, x)} :: x in idents ==>
         idents'[x] == if Touched(idents, list, n, x) then idents[x].(revoked := e) else idents[x]
  }

  lemma MarkedFirstForest(idents: map<nat, Ident>, idents': map<nat, Ident>, kids: map<nat, seq<nat>>, list: seq<nat>,
                          n: nat, e: nat)
    requires MarkedFirst(idents, idents', list, n, e) && Links(idents, kids)
    ensures SameForest(idents, idents') && Links(idents', kids)
    ensures forall a, x :: Above(idents, a, x) <==> Above(idents', a, x)
  {
    forall d | d in idents
      ensures SameLinks(idents, idents', d) && idents'[d].firstChild == idents[d].firstChild
    {
      var t := Touched(idents, list, n, d);
    }
    SameForestLinks(idents, idents', kids);
    forall a, x
      ensures Above(idents, a, x) <==> Above(idents', a, x)
    {
      AboveSame(idents, idents', a, x);
    }
  }

  lemma MarkNext(idents: map<nat, Ident>, mid: map<nat, Ident>, idents': map<nat, Ident>, list: seq<nat>, n: nat,
                 e: nat)
    requires MarkedFirst(idents, mid, list, n, e) && n < |list| && Marked(mid, idents', list[n], e)
    requires forall a, x :: Above(idents, a, x) <==> Above(mid, a, x)
    ensures MarkedFirst(idents, idents', list, n + 1, e)
  {
    forall x | x in idents
      ensures idents'[x] == if Touched(idents, list, n + 1, x) then idents[x].(revoked := e) else idents[x]
    {
      assert Touched(idents, list, n + 1, x) <==> Touched(idents, list, n, x) || Above(idents, list[n], x);
      assert Above(mid, list[n], x) <==> Above(idents, list[n], x);
    }
  }

  lemma MarkLast(idents: map<nat, Ident>, mid: map<nat, Ident>, kids: map<nat, seq<nat>>, a: nat, e: nat)
    requires Links(idents, kids) && a in idents && a in mid && MarkedFirst(idents, mid, kids[a], |kids[a]|, e)
    ensures Marked(idents, mid[a := mid[a].(revoked := e)], a, e)
  {
    forall x | x in idents
      ensures mid[a := mid[a].(revoked := e)][x] == if Above(idents, a, x) then idents[x].(revoked := e) else idents[x]
    {
      AboveByChild(idents, kids, a, x);
      var t := Touched(idents, kids[a], |kids[a]|, x);
      var t' := Touched(idents, kids[a], |kids[a]|, a);
    }
  }

  /** Marking a whole subtree keeps everything, including that marks cover descendants. */
  lemma MarkedCore(idents: map<nat, Ident>, kids: map<nat, seq<nat>>, slots: map<Slot, nat>, top: nat, a: nat, e: nat,
                   idents': map<nat, Ident>)
    requires Core(idents, kids, slots, top) && Marked(idents, idents', a, e) && e != 0
    ensures Core(idents', kids, slots, top)
    ensures NoGarbage(idents, kids, {}) ==> NoGarbage(idents', kids, {})
    ensures Evolves(View(idents, top), View(idents', top))
  {
    CoreFresh(idents, kids, slots, top);
    forall x | x in idents
      ensures idents'[x].(revoked := 0) == idents[x].(revoked := 0)
      ensures idents'[x].revoked == if Above(idents, a, x) then e else idents[x].revoked
      ensures SameLinks(idents, idents', x)
      ensures Continues(View(idents, top), View(idents', top), x)
    {
      var t := Above(idents, a, x);
    }
    SameForestLinks(idents, idents', kids);
    forall x | x in idents'
      ensures idents'[x].refs == |Holders(slots, x)|
      ensures EpochAt(idents', x) && AttenuatedAt(idents', x) && Placed(idents', top, x)
    {
      assert EpochAt(idents, x) && AttenuatedAt(idents, x) && Placed(idents, top, x) && ParentOk(idents, kids, x);
      if idents[x].parent.Some? && Above(idents, a, idents[x].parent.value) {
        assert Above(idents, a, x);
      }
    }
    if NoGarbage(idents, kids, {}) {
      forall x | x in idents' && x in kids
        ensures Needed(idents', kids, x)
      {
        assert Needed(idents, kids, x);
      }
    }
  }

  lemma DropChain(idents: map<nat, Ident>, kids: map<nat, seq<nat>>, c: nat, d: nat)
    requires Links(idents, kids) && c in idents && d in idents && d <= c
    requires Links(Dropped(idents, c), kids)
    ensures Chain(Dropped(idents, c), kids, d) == Chain(idents, kids, d)
    decreases d
  {
    assert ParentOk(idents, kids, d);
    if idents[d].parent.Some? {
      DropChain(idents, kids, c, idents[d].parent.value);
    }
  }

  lemma DropGarbage(idents: map<nat, Ident>, kids: map<nat, seq<nat>>, id: nat)
    requires Links(idents, kids) && id in idents && idents[id].refs > 0 && NoGarbage(idents, kids, {})
    ensures var idents' := Dropped(idents, id);
            if idents'[id].refs == 0 && idents'[id].firstChild.None?
              then kids[id] == [] && Releasable(idents', kids, id)
            else (idents'[id].refs > 0 || kids[id] != []) && NoGarbage(idents', kids, {})
  {
    var idents' := Dropped(idents, id);
    assert ChildList(idents, kids, id);
    forall x | x in idents' && x in kids && x != id
      ensures Needed(idents', kids, x)
    {
      assert Needed(idents, kids, x);
    }
  }

  lemma DropEvolves(v: View, id: nat, idents: map<nat, Ident>)
    requires Numbered(v) && id in v.idents && Pruned(Dropped(v.idents, id), idents)
    ensures Evolves(v, View(idents, v.next))
  {
    forall x | x in idents
      ensures Continues(v, View(idents, v.next), x)
    {
      assert Body(idents[x]).(refs := 0) == Body(v.idents[x]).(refs := 0);
    }
  }
}
