/**
 Singly linked queues threaded through the objects they hold, as head and tail
 pointers plus one link per object; objects are numbered.
 */
module IntrusiveQueue {

  import opened Lists
  import opened Options

  type Links = map<nat, Option<nat>>

  function Last(q: seq<nat>): Option<nat> {
    At(q, |q| - 1)
  }

  ghost predicate LinkAt(next: Links, q: seq<nat>, i: nat) {
    i < |q| ==> q[i] in next && next[q[i]] == At(q, i + 1)
  }

  ghost predicate Differ(q: seq<nat>, i: nat, j: nat) {
    i < j < |q| ==> q[i] != q[j]
  }

  ghost predicate Distinct(q: seq<nat>) {
    forall i: nat, j: nat {:trigger Differ(q, i, j)} :: Differ(q, i, j)
  }

  ghost predicate SameAt(next: Links, next': Links, t: nat) {
    t in next ==> t in next' && next'[t] == next[t]
  }

  /** The objects `q`, in order, hang between head and tail. */
  ghost predicate Queue(next: Links, head: Option<nat>, tail: Option<nat>, q: seq<nat>) {
    && head == At(q, 0) && tail == Last(q)
    && (forall i: nat {:trigger LinkAt(next, q, i)} :: LinkAt(next, q, i))
    && Distinct(q)
  }

  lemma QueueFrame(next: Links, next': Links, head: Option<nat>, tail: Option<nat>, q: seq<nat>)
    requires Queue(next, head, tail, q)
    requires forall t :: t in q && t in next ==> t in next' && next'[t] == next[t]
    ensures Queue(next', head, tail, q)
  {
    forall i: nat
      ensures LinkAt(next', q, i)
    {
      assert LinkAt(next, q, i);
    }
  }

  lemma QueuePop(next: Links, head: Option<nat>, tail: Option<nat>, q: seq<nat>)
    requires Queue(next, head, tail, q) && q != []
    ensures q[0] in next && next[q[0]] == At(q, 1)
    ensures Queue(next, next[q[0]], if |q| == 1 then None else tail, q[1..]) && q[0] !in q[1..]
  {
    assert LinkAt(next, q, 0);
    forall i: nat, j: nat
      ensures Differ(q[1..], i, j)
    {
      assert Differ(q, i + 1, j + 1);
    }
    forall i | 0 < i < |q|
      ensures q[i] != q[0]
    {
      assert Differ(q, 0, i);
    }
    forall i: nat
      ensures LinkAt(next, q[1..], i)
    {
      assert LinkAt(next, q, i + 1);
    }
  }

  lemma QueuePush(next: Links, head: Option<nat>, tail: Option<nat>, q: seq<nat>, t: nat)
    requires Queue(next, head, tail, q) && t !in q
    ensures var linked := if q == [] then next[t := None] else next[t := None][q[|q| - 1] := Some(t)];
            Queue(linked, if q == [] then Some(t) else head, Some(t), q + [t])
  {
    var linked := if q == [] then next[t := None] else next[t := None][q[|q| - 1] := Some(t)];
    var q' := q + [t];
    forall i: nat
      ensures LinkAt(linked, q', i)
    {
      assert LinkAt(next, q, i) && (q != [] ==> Differ(q, i, |q| - 1));
    }
    forall i: nat, j: nat
      ensures Differ(q', i, j)
    {
      assert Differ(q, i, j);
    }
  }

  lemma QueuePushHead(next: Links, head: Option<nat>, tail: Option<nat>, q: seq<nat>, t: nat)
    requires Queue(next, head, tail, q) && t !in q
    ensures Queue(next[t := head], Some(t), if q == [] then Some(t) else tail, [t] + q)
  {
    var q', next' := [t] + q, next[t := head];
    forall i: nat
      ensures LinkAt(next', q', i)
    {
      if 0 < i {
        assert LinkAt(next, q, i - 1);
      }
    }
    forall i: nat, j: nat
      ensures Differ(q', i, j)
    {
      if 0 < i < j {
        assert Differ(q, i - 1, j - 1);
      }
    }
  }

  /** The links after the object behind `prev` is taken out. */
  function Bypass(next: Links, prev: Option<nat>, t: nat): Links
    requires t in next
  {
    (if prev.None? then next else next[prev.value := next[t]])[t := None]
  }

  lemma QueueUnlink(next: Links, head: Option<nat>, tail: Option<nat>, a: seq<nat>, t: nat, b: seq<nat>)
    requires Queue(next, head, tail, a + [t] + b)
    ensures t in next && next[t] == At(b, 0)
    ensures Queue(Bypass(next, Last(a), t), if a == [] then next[t] else head,
                  if tail == Some(t) then Last(a) else tail, a + b)
  {
    var q := a + [t] + b;
    assert LinkAt(next, q, |a|);
    assert q[|a|] == t;
    var after, next' := a + b, Bypass(next, Last(a), t);
    forall i: nat
      ensures LinkAt(next', after, i)
    {
      if i < |after| {
        var k := if i < |a| then i else i + 1;
        assert LinkAt(next, q, k) && q[k] == after[i];
        assert Differ(q, k, |a|) && Differ(q, |a|, k);
        if a != [] {
          assert Differ(q, k, |a| - 1) && Differ(q, |a| - 1, k);
        }
      }
    }
    assert Differ(q, |a|, |q| - 1);
    forall i: nat, j: nat
      ensures Differ(after, i, j)
    {
      assert Differ(q, if i < |a| then i else i + 1, if j < |a| then j else j + 1);
    }
  }
}
