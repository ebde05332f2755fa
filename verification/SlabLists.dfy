/**
 Doubly linked lists threaded through slabs, one list per fill state and mode, and
 the counting of used slots in a slab's bitmap.
 */
module SlabLists {

  import opened Lists
  import opened Options
  import opened IntrusiveQueue

  // ---- One list ----

  ghost predicate BackAt(prev: Links, q: seq<nat>, i: nat) {
    i < |q| ==> q[i] in prev && prev[q[i]] == At(q, i - 1)
  }

  /** `q`, in order, hangs from `head` through both links. */
  ghost predicate List(next: Links, prev: Links, head: Option<nat>, q: seq<nat>) {
    && head == At(q, 0) && Distinct(q)
    && (forall i: nat {:trigger LinkAt(next, q, i)} :: LinkAt(next, q, i))
    && (forall i: nat {:trigger BackAt(prev, q, i)} :: BackAt(prev, q, i))
  }

  ghost predicate Same(links: Links, links': Links, q: seq<nat>) {
    forall t {:trigger SameAt(links, links', t)} :: t in q ==> SameAt(links, links', t)
  }

  lemma ListFrame(next: Links, prev: Links, next': Links, prev': Links, head: Option<nat>, q: seq<nat>)
    requires List(next, prev, head, q) && Same(next, next', q) && Same(prev, prev', q)
    ensures List(next', prev', head, q)
  {
    forall i: nat
      ensures LinkAt(next', q, i) && BackAt(prev', q, i)
    {
      assert LinkAt(next, q, i) && BackAt(prev, q, i);
      if i < |q| {
        assert SameAt(next, next', q[i]) && SameAt(prev, prev', q[i]);
      }
    }
  }

  function PushBack(prev: Links, head: Option<nat>, s: nat): Links {
    if head.Some? then prev[s := None][head.value := Some(s)] else prev[s := None]
  }

  lemma ListPush(next: Links, prev: Links, head: Option<nat>, q: seq<nat>, s: nat)
    requires List(next, prev, head, q) && s !in q
    ensures List(next[s := head], PushBack(prev, head, s), Some(s), [s] + q)
  {
    var q', next', prev' := [s] + q, next[s := head], PushBack(prev, head, s);
    forall i: nat
      ensures LinkAt(next', q', i) && BackAt(prev', q', i)
    {
      if 0 < i {
        assert LinkAt(next, q, i - 1) && BackAt(prev, q, i - 1) && Differ(q, 0, i - 1);
      }
    }
    forall i: nat, j: nat
      ensures Differ(q', i, j)
    {
      if 0 < i < j {
        assert Differ(q, i - 1, j - 1);
      }
    }
  }

  function Forward(next: Links, prev: Links, s: nat): Links
    requires s in next && s in prev
  {
    (if prev[s].Some? then next[prev[s].value := next[s]] else next)[s := None]
  }

  function Backward(next: Links, prev: Links, s: nat): Links
    requires s in next && s in prev
  {
    (if next[s].Some? then prev[next[s].value := prev[s]] else prev)[s := None]
  }

  lemma ListRemove(next: Links, prev: Links, head: Option<nat>, a: seq<nat>, s: nat, b: seq<nat>)
    requires List(next, prev, head, a + [s] + b)
    ensures s in next && s in prev && next[s] == At(b, 0) && prev[s] == Last(a)
    ensures List(Forward(next, prev, s), Backward(next, prev, s), if head == Some(s) then next[s] else head, a + b)
  {
    var q, n := a + [s] + b, |a|;
    assert LinkAt(next, q, n) && BackAt(prev, q, n) && q[n] == s;
    var q', next', prev' := a + b, Forward(next, prev, s), Backward(next, prev, s);
    forall i: nat
      ensures LinkAt(next', q', i) && BackAt(prev', q', i)
    {
      if i < |q'| {
        var k := if i < n then i else i + 1;
        assert q[k] == q'[i] && LinkAt(next, q, k) && BackAt(prev, q, k);
        assert Differ(q, k, n) && Differ(q, n, k) && Differ(q, n + 1, k) && Differ(q, k, n + 1);
        if a != [] {
          assert Differ(q, k, n - 1) && Differ(q, n - 1, k);
        }
      }
    }
    assert Differ(q, 0, n);
    forall i: nat, j: nat
      ensures Differ(q', i, j)
    {
      assert Differ(q, if i < n then i else i + 1, if j < n then j else j + 1);
    }
  }

  // ---- All lists ----

  // List k is well linked and holds exactly the slabs that belong there.
  ghost predicate ListedAt(next: Links, prev: Links, heads: seq<Option<nat>>, lists: seq<seq<nat>>,
                           home: map<nat, nat>, k: nat) {
    k < |lists| == |heads| ==>
      && List(next, prev, heads[k], lists[k])
      && forall s :: s in lists[k] <==> s in home && home[s] == k
  }

  ghost predicate Listed(next: Links, prev: Links, heads: seq<Option<nat>>, lists: seq<seq<nat>>, home: map<nat, nat>) {
    && |heads| == |lists|
    && forall k: nat {:trigger ListedAt(next, prev, heads, lists, home, k)} ::
         ListedAt(next, prev, heads, lists, home, k)
  }

  // Links of slabs at home elsewhere are not touched.
  ghost predicate Away(links: Links, links': Links, home: map<nat, nat>, k: nat) {
    forall t {:trigger SameAt(links, links', t)} :: t in home && home[t] != k ==> SameAt(links, links', t)
  }

  // Changing list k, its links and who is at home there keeps the other lists.
  lemma Relisted(next: Links, prev: Links, heads: seq<Option<nat>>, lists: seq<seq<nat>>, home: map<nat, nat>,
                 next': Links, prev': Links, head: Option<nat>, q: seq<nat>, home': map<nat, nat>, k: nat)
    requires Listed(next, prev, heads, lists, home) && k < |lists|
    requires Away(next, next', home, k) && Away(prev, prev', home, k) && List(next', prev', head, q)
    requires forall s :: s in q <==> s in home' && home'[s] == k
    requires forall s :: s in home && home[s] != k <==> s in home' && home'[s] != k
    requires forall s :: s in home && home[s] != k ==> home'[s] == home[s]
    ensures Listed(next', prev', heads[k := head], lists[k := q], home')
  {
    var heads', lists' := heads[k := head], lists[k := q];
    forall l: nat
      ensures ListedAt(next', prev', heads', lists', home', l)
    {
      assert ListedAt(next, prev, heads, lists, home, l);
      if l < |lists| && l != k {
        assert forall t :: t in lists[l] ==> SameAt(next, next', t) && SameAt(prev, prev', t);
        ListFrame(next, prev, next', prev', heads[l], lists[l]);
      }
    }
  }

  lemma RemovedOnly(q: seq<nat>, i: nat, s: nat)
    requires i < |q| && q[i] == s && Distinct(q)
    ensures forall t :: t in q[..i] + q[i + 1..] <==> t in q && t != s
  {
    forall j | 0 <= j < |q| && j != i
      ensures q[j] != s
    {
      assert Differ(q, i, j) && Differ(q, j, i);
    }
    assert q == q[..i] + [s] + q[i + 1..];
  }

  // Taking slab `s` off its list k.
  lemma RemoveListed(next: Links, prev: Links, heads: seq<Option<nat>>, lists: seq<seq<nat>>, home: map<nat, nat>,
                     k: nat, s: nat) returns (q: seq<nat>)
    requires Listed(next, prev, heads, lists, home) && k < |lists| && s in home && home[s] == k
    ensures s in next && s in prev && |q| == |lists[k]| - 1
    ensures Listed(Forward(next, prev, s), Backward(next, prev, s),
                   heads[k := if heads[k] == Some(s) then next[s] else heads[k]], lists[k := q], home - {s})
  {
    assert ListedAt(next, prev, heads, lists, home, k);
    var i :| 0 <= i < |lists[k]| && lists[k][i] == s;
    var a, b := lists[k][..i], lists[k][i + 1..];
    assert lists[k] == a + [s] + b;
    ListRemove(next, prev, heads[k], a, s, b);
    RemovedOnly(lists[k], i, s);
    q := a + b;
    assert (prev[s].Some? ==> prev[s].value in a) && (next[s].Some? ==> next[s].value in b);
    Relisted(next, prev, heads, lists, home, Forward(next, prev, s), Backward(next, prev, s),
             if heads[k] == Some(s) then next[s] else heads[k], q, home - {s}, k);
  }

  // ---- Bitmaps ----

  /** Slots in use among the first `n`: those whose free bit is clear. */
  function Used(free: seq<bool>, n: nat): (u: nat)
    requires n <= |free|
    ensures u <= n
  {
    if n == 0 then 0 else Used(free, n - 1) + if free[n - 1] then 0 else 1
  }

  lemma {:induction false} UsedUpdate(free: seq<bool>, n: nat, i: nat, b: bool)
    requires n <= |free| && i < |free|
    ensures Used(free[i := b], n) + (if i < n && !free[i] then 1 else 0) == Used(free, n) + if i < n && !b then 1 else 0
  {
    if n == 0 {
    } else {
      UsedUpdate(free, n - 1, i, b);
    }
  }

  lemma {:induction false} UsedAll(free: seq<bool>, n: nat)
    requires n <= |free|
    ensures Used(free, n) == n <==> forall i :: 0 <= i < n ==> !free[i]
    ensures Used(free, n) == 0 <==> forall i :: 0 <= i < n ==> free[i]
  {
    if n == 0 {
    } else {
      UsedAll(free, n - 1);
    }
  }

  /** The slot search starts at the hint, goes once around, and fails only on a full bitmap. */
  method FindFreeSlot(free: seq<bool>, max: nat, hint: nat) returns (slot: int, hint': nat)
    requires 0 < max <= |free|
    ensures -1 <= slot < max && (slot >= 0 ==> free[slot] && hint' < max) && (slot < 0 ==> hint' == hint)
    ensures slot < 0 <==> Used(free, max) == max
  {
    UsedAll(free, max);
    var start := if hint >= max then 0 else hint;
    var n := 0;
    while n < max
      invariant 0 <= n <= max
      invariant forall i :: 0 <= i < max && (start <= i < start + n || i + max < start + n) ==> !free[i]
    {
      var idx := if start + n < max then start + n else start + n - max;
      assert idx == (start + n) % max by {
        Around(start + n, max);
      }
      if free[idx] {
        return idx, if idx + 1 == max then 0 else idx + 1;
      }
      n := n + 1;
    }
    return -1, hint;
  }

  lemma Around(n: nat, max: nat)
    requires 0 < max && n < 2 * max
    ensures n % max == if n < max then n else n - max
  {
    if max <= n {
      assert n == 1 * max + (n - max);
    }
  }
}
