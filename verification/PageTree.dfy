/**
 Four-level page tables as a tree of 512-entry arrays, and how writes to single
 entries change the leaves.
 */
module PageTree {

  import opened Options
  import opened PageEntries

  // Pages of the user half: bits 12 to 46 of an address.
  const USER_PAGES: nat := 0x8_0000_0000

  // The table indices of a page number: bits 39, 30, 21 and 12 of its address.
  function TopIndex(p: nat): nat { p / 0x800_0000 % 512 }
  function UpperIndex(p: nat): nat { p / 0x4_0000 % 512 }
  function MiddleIndex(p: nat): nat { p / 0x200 % 512 }
  function SlotIndex(p: nat): nat { p % 512 }

  function PathOf(p: nat): seq<nat> {
    [TopIndex(p), UpperIndex(p), MiddleIndex(p)]
  }

  ghost predicate UserPath(idxs: seq<nat>) {
    |idxs| <= 3 && (forall k :: 0 <= k < |idxs| ==> idxs[k] < ENTRIES) && (idxs != [] ==> idxs[0] < 256)
  }

  lemma PathOfUser(p: nat)
    requires p < USER_PAGES
    ensures UserPath(PathOf(p)) && SlotIndex(p) < ENTRIES
  {
  }

  /** The four indices determine the page. */
  lemma PageUnique(p: nat, q: nat)
    requires p < USER_PAGES && q < USER_PAGES
    requires PathOf(p) == PathOf(q) && SlotIndex(p) == SlotIndex(q)
    ensures p == q
  {
    Rebuild(p);
    Rebuild(q);
    assert PathOf(p)[0] == PathOf(q)[0] && PathOf(p)[1] == PathOf(q)[1] && PathOf(p)[2] == PathOf(q)[2];
  }

  lemma Rebuild(p: nat)
    requires p < USER_PAGES
    ensures p == SlotIndex(p) + 0x200 * MiddleIndex(p) + 0x4_0000 * UpperIndex(p) + 0x800_0000 * TopIndex(p)
  {
    var a, b, c := p / 0x200, p / 0x4_0000, p / 0x800_0000;
    assert a / 512 == b && b / 512 == c && c < 512;
  }

  ghost predicate ChildOk(mem: map<nat, seq<nat>>, path: map<nat, seq<nat>>, t: nat, i: nat)
    requires t in mem && t in path && i < |mem[t]|
  {
    var child := TableOf(mem[t][i]);
    child in mem && child in path && path[child] == path[t] + [i] && !IsHuge(mem[t][i])
  }

  /** Every table has one place in the tree, `path`, and present interior entries
      of the user half lead to the table whose place extends theirs. */
  ghost predicate Tree(mem: map<nat, seq<nat>>, path: map<nat, seq<nat>>, root: nat) {
    && root in mem && root in path && path[root] == []
    && (forall t :: t in mem ==> t in path && |mem[t]| == ENTRIES && UserPath(path[t]))
    && (forall t, i :: t in mem && 0 <= i < ENTRIES && UserPath(path[t] + [i]) && IsPresent(mem[t][i]) ==>
         ChildOk(mem, path, t, i))
  }

  /** The table at a place, if all entries on the way are present. */
  ghost function Node(mem: map<nat, seq<nat>>, path: map<nat, seq<nat>>, root: nat, idxs: seq<nat>): (r: Option<nat>)
    requires Tree(mem, path, root) && UserPath(idxs)
    ensures r.Some? ==> r.value in mem && path[r.value] == idxs
    decreases |idxs|
  {
    if idxs == [] then Some(root)
    else
      var n := |idxs| - 1;
      var up := Node(mem, path, root, idxs[..n]);
      if up.None? then None
      else
        var t, i := up.value, idxs[n];
        assert path[t] + [i] == idxs;
        if !IsPresent(mem[t][i]) then None
        else
          assert ChildOk(mem, path, t, i);
          Some(TableOf(mem[t][i]))
  }

  lemma NodeStep(mem: map<nat, seq<nat>>, path: map<nat, seq<nat>>, root: nat, idxs: seq<nat>, i: nat)
    requires Tree(mem, path, root) && UserPath(idxs) && UserPath(idxs + [i])
    ensures var up, down := Node(mem, path, root, idxs), Node(mem, path, root, idxs + [i]);
            down == if up.Some? && IsPresent(mem[up.value][i]) then Some(TableOf(mem[up.value][i])) else None
  {
    assert (idxs + [i])[..|idxs|] == idxs;
  }

  /** The leaf entry of a page; 0 if the walk stops early. */
  ghost function Leaf(mem: map<nat, seq<nat>>, path: map<nat, seq<nat>>, root: nat, p: nat): nat
    requires Tree(mem, path, root) && p < USER_PAGES
  {
    PathOfUser(p);
    var t := Node(mem, path, root, PathOf(p));
    if t.None? then 0 else mem[t.value][SlotIndex(p)]
  }

  // ---- Writing a leaf entry ----

  function Put(mem: map<nat, seq<nat>>, t: nat, i: nat, e: nat): map<nat, seq<nat>>
    requires t in mem && i < |mem[t]|
  {
    var row: seq<nat> := mem[t][i := e];
    mem[t := row]
  }

  lemma PutLeafTree(mem: map<nat, seq<nat>>, path: map<nat, seq<nat>>, root: nat, t: nat, i: nat, e: nat)
    requires Tree(mem, path, root) && t in mem && i < ENTRIES && |path[t]| == 3
    ensures Tree(Put(mem, t, i, e), path, root)
  {
    var mem' := Put(mem, t, i, e);
    forall u, j | u in mem' && 0 <= j < ENTRIES && UserPath(path[u] + [j]) && IsPresent(mem'[u][j])
      ensures ChildOk(mem', path, u, j)
    {
      assert u != t;
      assert ChildOk(mem, path, u, j);
    }
  }

  lemma {:induction false} PutLeafNode(mem: map<nat, seq<nat>>, path: map<nat, seq<nat>>, root: nat, t: nat, i: nat,
                                       e: nat, idxs: seq<nat>)
    requires Tree(mem, path, root) && t in mem && i < ENTRIES && |path[t]| == 3
    requires Tree(Put(mem, t, i, e), path, root) && UserPath(idxs)
    ensures Node(Put(mem, t, i, e), path, root, idxs) == Node(mem, path, root, idxs)
    decreases |idxs|
  {
    if idxs == [] {
    } else {
      PutLeafNode(mem, path, root, t, i, e, idxs[..|idxs| - 1]);
    }
  }

  /** A leaf write changes the leaf of that page and of no other. */
  lemma PutLeaf(mem: map<nat, seq<nat>>, path: map<nat, seq<nat>>, root: nat, p: nat, t: nat, e: nat, q: nat)
    requires Tree(mem, path, root) && p < USER_PAGES && q < USER_PAGES
    requires UserPath(PathOf(p)) && Node(mem, path, root, PathOf(p)) == Some(t)
    ensures var mem' := Put(mem, t, SlotIndex(p), e);
            Tree(mem', path, root) && Leaf(mem', path, root, q) == if q == p then e else Leaf(mem, path, root, q)
  {
    var i := SlotIndex(p);
    PutLeafTree(mem, path, root, t, i, e);
    PathOfUser(q);
    PutLeafNode(mem, path, root, t, i, e, PathOf(q));
    if q != p && Node(mem, path, root, PathOf(q)) == Some(t) && SlotIndex(q) == i {
      PageUnique(p, q);
    }
  }

  // ---- Creating an intermediate table ----

  function Zeros(): seq<nat> {
    seq<nat>(ENTRIES, _ => 0)
  }

  ghost predicate CanGrow(mem: map<nat, seq<nat>>, path: map<nat, seq<nat>>, root: nat, t: nat, i: nat, e: nat) {
    && Tree(mem, path, root) && t in mem && i < ENTRIES && UserPath(path[t] + [i])
    && !IsPresent(mem[t][i]) && IsPresent(e) && !IsHuge(e) && TableOf(e) !in mem
  }

  ghost function GrownMem(mem: map<nat, seq<nat>>, t: nat, i: nat, e: nat): map<nat, seq<nat>>
    requires t in mem && i < |mem[t]|
  {
    Put(mem, t, i, e)[TableOf(e) := Zeros()]
  }

  ghost function GrownPath(path: map<nat, seq<nat>>, t: nat, i: nat, e: nat): map<nat, seq<nat>>
    requires t in path
  {
    path[TableOf(e) := path[t] + [i]]
  }

  lemma GrowTree(mem: map<nat, seq<nat>>, path: map<nat, seq<nat>>, root: nat, t: nat, i: nat, e: nat)
    requires CanGrow(mem, path, root, t, i, e)
    ensures Tree(GrownMem(mem, t, i, e), GrownPath(path, t, i, e), root)
  {
    var mem', path' := GrownMem(mem, t, i, e), GrownPath(path, t, i, e);
    NotPresentZero();
    forall u, j | u in mem' && 0 <= j < ENTRIES && UserPath(path'[u] + [j]) && IsPresent(mem'[u][j])
      ensures ChildOk(mem', path', u, j)
    {
      assert u != TableOf(e);
      if u != t || j != i {
        assert ChildOk(mem, path, u, j);
      }
    }
  }

  lemma NotPresentZero()
    ensures !IsPresent(0)
  {
  }

  // The new table is empty and hangs where nothing hung before.
  lemma {:induction false} GrowNode(mem: map<nat, seq<nat>>, path: map<nat, seq<nat>>, root: nat, t: nat, i: nat,
                                    e: nat, idxs: seq<nat>)
    requires CanGrow(mem, path, root, t, i, e) && UserPath(idxs)
    requires Tree(GrownMem(mem, t, i, e), GrownPath(path, t, i, e), root)
    ensures var mem', path' := GrownMem(mem, t, i, e), GrownPath(path, t, i, e);
            var before, after := Node(mem, path, root, idxs), Node(mem', path', root, idxs);
            after == before || (before.None? && after == Some(TableOf(e)))
    decreases |idxs|
  {
    if idxs == [] {
    } else {
      NotPresentZero();
      GrowNode(mem, path, root, t, i, e, idxs[..|idxs| - 1]);
    }
  }

  /** Creating an intermediate table changes no leaf. */
  lemma GrowLeaf(mem: map<nat, seq<nat>>, path: map<nat, seq<nat>>, root: nat, t: nat, i: nat, e: nat, q: nat)
    requires CanGrow(mem, path, root, t, i, e) && q < USER_PAGES
    ensures var mem', path' := GrownMem(mem, t, i, e), GrownPath(path, t, i, e);
            Tree(mem', path', root) && Leaf(mem', path', root, q) == Leaf(mem, path, root, q)
  {
    GrowTree(mem, path, root, t, i, e);
    PathOfUser(q);
    GrowNode(mem, path, root, t, i, e, PathOf(q));
    var before := Node(mem, path, root, PathOf(q));
    if before.Some? {
      assert |path[before.value]| == 3;
      assert before.value != t;
    }
  }

  /** The new table is found at its place. */
  lemma GrowFound(mem: map<nat, seq<nat>>, path: map<nat, seq<nat>>, root: nat, t: nat, i: nat, e: nat)
    requires CanGrow(mem, path, root, t, i, e) && Node(mem, path, root, path[t]) == Some(t)
    ensures var mem', path' := GrownMem(mem, t, i, e), GrownPath(path, t, i, e);
            Tree(mem', path', root) && Node(mem', path', root, path[t] + [i]) == Some(TableOf(e))
  {
    GrowTree(mem, path, root, t, i, e);
    GrowNode(mem, path, root, t, i, e, path[t]);
    assert (path[t] + [i])[..|path[t]|] == path[t];
  }

  // Which entry of a table leads on, before and after.
  lemma GrowEntry(mem: map<nat, seq<nat>>, path: map<nat, seq<nat>>, root: nat, t: nat, i: nat, e: nat, u: nat, j: nat)
    requires CanGrow(mem, path, root, t, i, e) && j < ENTRIES
    requires u in mem || u == TableOf(e)
    ensures var row := GrownMem(mem, t, i, e)[u];
            |row| == ENTRIES && (IsPresent(row[j]) <==> u in mem && (IsPresent(mem[u][j]) || (u == t && j == i)))
  {
    NotPresentZero();
  }

  // It is the one new place.
  lemma {:induction false} GrowPlace(mem: map<nat, seq<nat>>, path: map<nat, seq<nat>>, root: nat, t: nat, i: nat,
                                     e: nat, idxs: seq<nat>)
    requires CanGrow(mem, path, root, t, i, e) && Node(mem, path, root, path[t]) == Some(t) && UserPath(idxs)
    requires Tree(GrownMem(mem, t, i, e), GrownPath(path, t, i, e), root)
    ensures Node(GrownMem(mem, t, i, e), GrownPath(path, t, i, e), root, idxs).Some? <==>
      Node(mem, path, root, idxs).Some? || idxs == path[t] + [i]
    decreases |idxs|
  {
    if idxs == [] {
    } else {
      var up, j := idxs[..|idxs| - 1], idxs[|idxs| - 1];
      assert idxs == up + [j];
      var mem', path' := GrownMem(mem, t, i, e), GrownPath(path, t, i, e);
      GrowPlace(mem, path, root, t, i, e, up);
      GrowNode(mem, path, root, t, i, e, up);
      NodeStep(mem, path, root, up, j);
      NodeStep(mem', path', root, up, j);
      var u := Node(mem', path', root, up);
      if u.Some? {
        GrowEntry(mem, path, root, t, i, e, u.value, j);
      }
      SameEnd(up, j, path[t], i);
    }
  }

  lemma SameEnd(a: seq<nat>, i: nat, b: seq<nat>, j: nat)
    ensures a + [i] == b + [j] <==> a == b && i == j
  {
    if a + [i] == b + [j] {
      assert a == (a + [i])[..|a|] && b == (b + [j])[..|a|];
      assert i == (a + [i])[|a|];
    }
  }

  // ---- The tables there are, and those a mapping needs ----

  /** `tables` are the places that have a table. */
  ghost predicate Listed(mem: map<nat, seq<nat>>, path: map<nat, seq<nat>>, root: nat, tables: set<seq<nat>>)
    requires Tree(mem, path, root)
  {
    forall idxs {:trigger Node(mem, path, root, idxs)} :: UserPath(idxs) ==>
      (Node(mem, path, root, idxs).Some? <==> idxs in tables)
  }

  lemma GrowListed(mem: map<nat, seq<nat>>, path: map<nat, seq<nat>>, root: nat, t: nat, i: nat, e: nat,
                   tables: set<seq<nat>>)
    requires CanGrow(mem, path, root, t, i, e) && Node(mem, path, root, path[t]) == Some(t)
    requires Listed(mem, path, root, tables)
    ensures var mem', path' := GrownMem(mem, t, i, e), GrownPath(path, t, i, e);
            Tree(mem', path', root) && Listed(mem', path', root, tables + {path[t] + [i]})
  {
    GrowTree(mem, path, root, t, i, e);
    forall idxs | UserPath(idxs)
      ensures Node(GrownMem(mem, t, i, e), GrownPath(path, t, i, e), root, idxs).Some? <==>
        idxs in tables + {path[t] + [i]}
    {
      GrowPlace(mem, path, root, t, i, e, idxs);
    }
  }

  lemma PutListed(mem: map<nat, seq<nat>>, path: map<nat, seq<nat>>, root: nat, t: nat, i: nat, e: nat,
                  tables: set<seq<nat>>)
    requires Tree(mem, path, root) && t in mem && i < ENTRIES && |path[t]| == 3 && Listed(mem, path, root, tables)
    ensures Tree(Put(mem, t, i, e), path, root) && Listed(Put(mem, t, i, e), path, root, tables)
  {
    PutLeafTree(mem, path, root, t, i, e);
    forall idxs | UserPath(idxs)
      ensures Node(Put(mem, t, i, e), path, root, idxs).Some? <==> idxs in tables
    {
      PutLeafNode(mem, path, root, t, i, e, idxs);
    }
  }

  /** The places of the three tables above a page. */
  datatype Way = Way(top: seq<nat>, upper: seq<nat>, leaf: seq<nat>)

  function WayTo(p: nat): Way {
    Way([TopIndex(p)], [TopIndex(p), UpperIndex(p)], PathOf(p))
  }

  // `way` is WayTo, said so that proofs about ranges of pages need not look into its arithmetic.
  ghost predicate Follows(way: nat -> Way) {
    forall p: nat {:trigger WayTo(p)} :: way(p) == WayTo(p)
  }

  function Above(w: Way): set<seq<nat>> {
    {w.top, w.upper, w.leaf}
  }

  function AllAbove(way: nat -> Way, first: nat, n: nat): set<seq<nat>> {
    if n == 0 then {} else AllAbove(way, first, n - 1) + Above(way(first + n - 1))
  }

  /** How many frames the allocator hands out before it fails. */
  function Stock(supply: seq<nat>): nat {
    if supply == [] || supply[0] == 0 then 0 else 1 + Stock(supply[1..])
  }

  function LacksPlace(tables: set<seq<nat>>, place: seq<nat>): nat {
    if place in tables then 0 else 1
  }

  /** How many tables are missing on the way. */
  function Lacks(tables: set<seq<nat>>, w: Way): nat {
    LacksPlace(tables, w.top) + LacksPlace(tables, w.upper) + LacksPlace(tables, w.leaf)
  }

  /** How many tables n pages lack, those of one page serving the next. */
  function LacksAll(tables: set<seq<nat>>, way: nat -> Way, first: nat, n: nat): nat {
    if n == 0 then 0
    else LacksAll(tables, way, first, n - 1) + Lacks(tables + AllAbove(way, first, n - 1), way(first + n - 1))
  }

  lemma LacksInTurn(tables: set<seq<nat>>, w: Way)
    requires Deep(w)
    ensures LacksPlace(tables + {w.top}, w.upper) == LacksPlace(tables, w.upper)
    ensures LacksPlace(tables + {w.top} + {w.upper}, w.leaf) == LacksPlace(tables, w.leaf)
    ensures tables + {w.top} + {w.upper} + {w.leaf} == tables + Above(w)
  {
  }

  lemma {:induction false} LacksMore(tables: set<seq<nat>>, way: nat -> Way, first: nat, k: nat, n: nat)
    requires k <= n
    ensures LacksAll(tables, way, first, k) <= LacksAll(tables, way, first, n)
    decreases n
  {
    if k == n {
    } else {
      LacksMore(tables, way, first, k, n - 1);
    }
  }

  lemma {:induction false} LacksAtMost(tables: set<seq<nat>>, way: nat -> Way, first: nat, n: nat)
    ensures LacksAll(tables, way, first, n) <= 3 * n
    decreases n
  {
    if n == 0 {
    } else {
      LacksAtMost(tables, way, first, n - 1);
    }
  }

  lemma AboveNext(tables: set<seq<nat>>, way: nat -> Way, first: nat, k: nat)
    ensures (tables + AllAbove(way, first, k)) + Above(way(first + k)) == tables + AllAbove(way, first, k + 1)
  {
  }

  lemma LackingMore<T>(x: T, rest: set<T>, tables: set<T>)
    requires x !in rest
    ensures |({x} + rest) - tables| == (if x in tables then 0 else 1) + |rest - tables|
  {
    if x in tables {
      assert ({x} + rest) - tables == rest - tables;
    } else {
      assert ({x} + rest) - tables == {x} + (rest - tables);
    }
  }

  predicate Deep(w: Way) {
    |w.top| == 1 && |w.upper| == 2 && |w.leaf| == 3
  }

  lemma LackingOne(tables: set<seq<nat>>, w: Way)
    requires Deep(w)
    ensures |Above(w) - tables| == Lacks(tables, w)
  {
    LackingMore(w.leaf, {}, tables);
    assert {w.leaf} + {} == {w.leaf};
    LackingMore(w.upper, {w.leaf}, tables);
    LackingMore(w.top, {w.upper} + {w.leaf}, tables);
    assert {w.top} + ({w.upper} + {w.leaf}) == Above(w);
  }

  // What is there already, and what one more page then lacks.
  lemma LackingNext(before: set<seq<nat>>, more: set<seq<nat>>, tables: set<seq<nat>>)
    ensures |(before + more) - tables| == |before - tables| + |more - (tables + before)|
  {
    var a, b := before - tables, more - (tables + before);
    assert (before + more) - tables == a + b && a !! b;
  }

  lemma {:induction false} LacksAllOn(tables: set<seq<nat>>, way: nat -> Way, first: nat, n: nat)
    requires forall p: nat :: Deep(way(p))
    ensures LacksAll(tables, way, first, n) == |AllAbove(way, first, n) - tables|
    decreases n
  {
    if n == 0 {
      assert AllAbove(way, first, n) - tables == {};
    } else {
      LacksAllOn(tables, way, first, n - 1);
      var before := AllAbove(way, first, n - 1);
      LackingNext(before, Above(way(first + n - 1)), tables);
      LackingOne(tables + before, way(first + n - 1));
    }
  }

  /** What n pages lack are the places above them that have no table. */
  lemma LacksAllCounts(tables: set<seq<nat>>, first: nat, n: nat)
    ensures LacksAll(tables, WayTo, first, n) == |AllAbove(WayTo, first, n) - tables|
  {
    LacksAllOn(tables, WayTo, first, n);
  }
}
