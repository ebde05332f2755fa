/**
 The intrusive free lists: one singly linked list per zone and order, threaded
 through the frame metadata.
 */
module BuddyLists {
  import opened BuddyBlocks
  import opened Lists

  const STACK_END: nat := 0xFFFF_FFFF
  const DMA_LIMIT_FRAME: nat := 4096
  const HIGH_LIMIT_FRAME: nat := 0x10_0000

  datatype Zone = Dma | Normal | High

  datatype Key = Key(zone: Zone, order: nat)

  /** The HEAD flag, the order nibble and the list link of one frame. */
  datatype FrameMeta = FrameMeta(head: bool, order: nat, next: nat)

  function ZoneOf(frame: nat): Zone {
    if frame < DMA_LIMIT_FRAME then Dma
    else if frame < HIGH_LIMIT_FRAME then Normal
    else High
  }

  function After(list: seq<nat>, i: nat): nat {
    if i + 1 < |list| then list[i + 1] else STACK_END
  }

  function First(list: seq<nat>): nat {
    if list == [] then STACK_END else list[0]
  }

  /** The frames of `list`, in order, hang off `head`, each linked to the next. */
  ghost predicate Linked(meta: seq<FrameMeta>, head: nat, list: seq<nat>) {
    && head == First(list)
    && (forall i :: 0 <= i < |list| ==> list[i] < |meta| && meta[list[i]].next == After(list, i))
    && (forall i, j :: 0 <= i < j < |list| ==> list[i] != list[j])
  }

  ghost predicate ListFor(list: seq<nat>, key: Key, free: set<Block>) {
    forall i :: i in list <==> Block(i, key.order) in free && ZoneOf(i) == key.zone
  }

  ghost predicate OneList(meta: seq<FrameMeta>, heads: map<Key, nat>, lists: map<Key, seq<nat>>, free: set<Block>,
                          key: Key) {
    key in heads && key in lists && Linked(meta, heads[key], lists[key]) && ListFor(lists[key], key, free)
  }

  /** Every free block is on exactly the list of its zone and order. */
  ghost predicate Listed(meta: seq<FrameMeta>, heads: map<Key, nat>, lists: map<Key, seq<nat>>, free: set<Block>) {
    && |meta| < STACK_END
    && (forall b :: b in free ==> b.order <= MAX_ORDER && b.start < |meta|)
    && (forall b, c :: b in free && c in free && b.start == c.start ==> b == c)
    && (forall key: Key :: key.order <= MAX_ORDER ==> OneList(meta, heads, lists, free, key))
  }

  // A write to a frame outside a list leaves the list alone.
  lemma LinkedFrame(meta: seq<FrameMeta>, head: nat, list: seq<nat>, x: nat, m: FrameMeta)
    requires Linked(meta, head, list) && x < |meta| && x !in list
    ensures Linked(meta[x := m], head, list)
  {
  }

  lemma LinkedPush(meta: seq<FrameMeta>, head: nat, list: seq<nat>, x: nat, m: FrameMeta)
    requires Linked(meta, head, list) && x < |meta| && x !in list && m.next == head
    ensures Linked(meta[x := m], x, [x] + list)
  {
    var list' := [x] + list;
    forall i | 0 <= i < |list'|
      ensures list'[i] < |meta| && meta[x := m][list'[i]].next == After(list', i)
    {
      if i > 0 {
        assert list'[i] == list[i - 1];
      }
    }
  }

  lemma WithoutMembers(list: seq<nat>, i: nat, x: nat)
    requires i < |list| && forall j, k :: 0 <= j < k < |list| ==> list[j] != list[k]
    ensures x in Without(list, i) <==> x in list && x != list[i]
  {
    var list' := Without(list, i);
    if x in list && x != list[i] {
      var j :| 0 <= j < |list| && list[j] == x;
      assert list'[if j < i then j else j - 1] == x;
    }
    if x in list' {
      var j :| 0 <= j < |list'| && list'[j] == x;
      assert list[if j < i then j else j + 1] == x;
    }
  }

  lemma WithoutAfter(list: seq<nat>, i: nat, j: nat)
    requires i < |list| && j + 1 < |list|
    ensures After(Without(list, i), j) == After(list, if j + 1 < i then j else if j + 1 == i then i else j + 1)
  {
  }

  // Unlinking entry i: its predecessor, or the head, takes over its link.
  lemma LinkedRemove(meta: seq<FrameMeta>, head: nat, list: seq<nat>, i: nat, meta': seq<FrameMeta>)
    requires Linked(meta, head, list) && i < |list| && |meta'| == |meta|
    requires forall j :: 0 <= j < |list| && j != i && j + 1 != i ==> meta'[list[j]].next == meta[list[j]].next
    requires i > 0 ==> meta'[list[i - 1]].next == meta[list[i]].next
    ensures Linked(meta', if i == 0 then meta[list[0]].next else head, Without(list, i))
  {
    var list' := Without(list, i);
    forall j | 0 <= j < |list'|
      ensures list'[j] < |meta'| && meta'[list'[j]].next == After(list', j)
    {
      WithoutAt(list, i, j);
      WithoutAfter(list, i, j);
    }
    forall j, k | 0 <= j < k < |list'|
      ensures list'[j] != list'[k]
    {
      WithoutAt(list, i, j);
      WithoutAfter(list, i, j);
      WithoutAt(list, i, k);
    }
  }

  /** Two lists never share a frame. */
  lemma ListsApart(meta: seq<FrameMeta>, heads: map<Key, nat>, lists: map<Key, seq<nat>>, free: set<Block>, a: Key,
                   b: Key, x: nat)
    requires Listed(meta, heads, lists, free) && a.order <= MAX_ORDER && b.order <= MAX_ORDER
    requires OneList(meta, heads, lists, free, a) && OneList(meta, heads, lists, free, b)
    requires x in lists[a] && x in lists[b]
    ensures a == b
  {
    assert Block(x, a.order) in free && Block(x, b.order) in free;
  }

  lemma ListedPush(meta: seq<FrameMeta>, heads: map<Key, nat>, lists: map<Key, seq<nat>>, free: set<Block>, key: Key,
                   x: nat)
    requires Listed(meta, heads, lists, free) && key.order <= MAX_ORDER && OneList(meta, heads, lists, free, key)
    requires x < |meta| && ZoneOf(x) == key.zone && forall b :: b in free ==> b.start != x
    ensures Listed(meta[x := FrameMeta(true, key.order, heads[key])], heads[key := x],
                   lists[key := [x] + lists[key]], free + {Block(x, key.order)})
  {
    var meta' := meta[x := FrameMeta(true, key.order, heads[key])];
    var heads', lists' := heads[key := x], lists[key := [x] + lists[key]];
    var free' := free + {Block(x, key.order)};
    forall k: Key | k.order <= MAX_ORDER
      ensures OneList(meta', heads', lists', free', k)
    {
      assert OneList(meta, heads, lists, free, k);
      assert x !in lists[k];
      if k == key {
        LinkedPush(meta, heads[k], lists[k], x, meta'[x]);
      } else {
        LinkedFrame(meta, heads[k], lists[k], x, meta'[x]);
      }
    }
  }

  // What unlinking entry i of the list of `key` may touch.
  ghost predicate UnlinkedAt(meta: seq<FrameMeta>, meta': seq<FrameMeta>, list: seq<nat>, i: nat)
    requires i < |list|
  {
    && |meta'| == |meta|
    && (forall x :: 0 <= x < |meta| && x != list[i] && (i > 0 ==> x != list[i - 1]) ==> meta'[x].next == meta[x].next)
    && (i > 0 && list[i - 1] < |meta| && list[i] < |meta| ==> meta'[list[i - 1]].next == meta[list[i]].next)
  }

  // The list the entry is taken from.
  lemma RemoveHere(meta: seq<FrameMeta>, heads: map<Key, nat>, lists: map<Key, seq<nat>>, free: set<Block>,
                   key: Key, i: nat, meta': seq<FrameMeta>)
    requires Listed(meta, heads, lists, free) && key.order <= MAX_ORDER && OneList(meta, heads, lists, free, key)
    requires i < |lists[key]| && UnlinkedAt(meta, meta', lists[key], i)
    ensures OneList(meta', heads[key := if i == 0 then meta[lists[key][0]].next else heads[key]],
                    lists[key := Without(lists[key], i)], free - {Block(lists[key][i], key.order)}, key)
  {
    var list := lists[key];
    LinkedRemove(meta, heads[key], list, i, meta');
    forall x: nat
      ensures x in Without(list, i) <==> x in list && x != list[i]
    {
      WithoutMembers(list, i, x);
    }
  }

  // Any other list.
  lemma RemoveElsewhere(meta: seq<FrameMeta>, heads: map<Key, nat>, lists: map<Key, seq<nat>>, free: set<Block>,
                        key: Key, i: nat, meta': seq<FrameMeta>, k: Key)
    requires Listed(meta, heads, lists, free) && key.order <= MAX_ORDER && OneList(meta, heads, lists, free, key)
    requires i < |lists[key]| && UnlinkedAt(meta, meta', lists[key], i)
    requires k != key && k.order <= MAX_ORDER
    ensures OneList(meta', heads[key := if i == 0 then meta[lists[key][0]].next else heads[key]],
                    lists[key := Without(lists[key], i)], free - {Block(lists[key][i], key.order)}, k)
  {
    assert OneList(meta, heads, lists, free, k);
    forall j | 0 <= j < |lists[k]|
      ensures meta'[lists[k][j]].next == meta[lists[k][j]].next
    {
      if lists[k][j] in lists[key] {
        ListsApart(meta, heads, lists, free, key, k, lists[k][j]);
      }
    }
  }

  lemma ListedRemove(meta: seq<FrameMeta>, heads: map<Key, nat>, lists: map<Key, seq<nat>>, free: set<Block>,
                     key: Key, i: nat, meta': seq<FrameMeta>)
    requires Listed(meta, heads, lists, free) && key.order <= MAX_ORDER && OneList(meta, heads, lists, free, key)
    requires i < |lists[key]| && UnlinkedAt(meta, meta', lists[key], i)
    ensures Listed(meta', heads[key := if i == 0 then meta[lists[key][0]].next else heads[key]],
                   lists[key := Without(lists[key], i)], free - {Block(lists[key][i], key.order)})
  {
    forall k: Key | k.order <= MAX_ORDER
      ensures OneList(meta', heads[key := if i == 0 then meta[lists[key][0]].next else heads[key]],
                      lists[key := Without(lists[key], i)], free - {Block(lists[key][i], key.order)}, k)
    {
      if k == key {
        RemoveHere(meta, heads, lists, free, key, i, meta');
      } else {
        RemoveElsewhere(meta, heads, lists, free, key, i, meta', k);
      }
    }
  }

  // The writes of pmm_buddy_remove to the links of entry i and of the one before it.
  function Relinked(meta: seq<FrameMeta>, list: seq<nat>, i: nat): seq<FrameMeta>
    requires i < |list| && list[i] < |meta| && (0 < i ==> list[i - 1] < |meta|)
  {
    var cur := list[i];
    var linked := if i == 0 then meta else meta[list[i - 1] := meta[list[i - 1]].(next := meta[cur].next)];
    linked[cur := FrameMeta(false, linked[cur].order, STACK_END)]
  }

  // Entry i loses its HEAD flag; no other frame's flag or order changes.
  lemma RelinkedFlags(meta: seq<FrameMeta>, list: seq<nat>, i: nat)
    requires i < |list| && list[i] < |meta| && (0 < i ==> list[i - 1] < |meta|)
    ensures |Relinked(meta, list, i)| == |meta| && !Relinked(meta, list, i)[list[i]].head
    ensures forall x :: 0 <= x < |meta| && x != list[i] ==>
      Relinked(meta, list, i)[x].head == meta[x].head && Relinked(meta, list, i)[x].order == meta[x].order
  {
  }

  lemma ListedUnlink(meta: seq<FrameMeta>, heads: map<Key, nat>, lists: map<Key, seq<nat>>, free: set<Block>,
                     key: Key, i: nat)
    requires Listed(meta, heads, lists, free) && key.order <= MAX_ORDER && OneList(meta, heads, lists, free, key)
    requires i < |lists[key]|
    ensures lists[key][i] < |meta| && (0 < i ==> lists[key][i - 1] < |meta| && lists[key][i - 1] != lists[key][i])
    ensures Listed(Relinked(meta, lists[key], i),
                   if i == 0 then heads[key := meta[lists[key][0]].next] else heads,
                   lists[key := Without(lists[key], i)], free - {Block(lists[key][i], key.order)})
  {
    ListedRemove(meta, heads, lists, free, key, i, Relinked(meta, lists[key], i));
    assert heads[key := heads[key]] == heads;
  }

  // ---- Empty lists ----

  function ForAllKeys<T>(v: T): (m: map<Key, T>)
    ensures forall k: Key :: k.order <= MAX_ORDER ==> k in m && m[k] == v
  {
    var m := map zone: Zone, order: nat | order <= MAX_ORDER :: Key(zone, order) := v;
    assert forall k: Key :: k == Key(k.zone, k.order);
    m
  }

  function BlankMeta(n: nat): (meta: seq<FrameMeta>)
    ensures |meta| == n && forall x :: 0 <= x < n ==> !meta[x].head
  {
    seq(n, _ => FrameMeta(false, 0, STACK_END))
  }

  lemma BlankListed(n: nat)
    requires n < STACK_END
    ensures Listed(BlankMeta(n), ForAllKeys(STACK_END), ForAllKeys([]), {})
  {
  }
}
