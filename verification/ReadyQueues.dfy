/**
 The scheduler's ready queues, one per CPU and mode, linked through the threads,
 and the revocation of a process, which takes its threads off all of them.
 */
module ReadyQueues {

  import opened Lists
  import opened Options
  import opened IntrusiveQueue

  datatype ThreadState = Ready | Running | Blocked | BlockedAuth | SuspendedMode | Zombie

  const CPUS: nat := 64
  const MODES: nat := 6

  predicate Owns(owner: map<nat, nat>, proc: nat, t: nat) {
    t in owner && owner[t] == proc
  }

  function Keep(t: nat, owner: map<nat, nat>, proc: nat): seq<nat> {
    if Owns(owner, proc, t) then [] else [t]
  }

  /** The first `n` threads of the queue, in order, without those of `proc`. */
  function NotOwned(q: seq<nat>, n: nat, owner: map<nat, nat>, proc: nat): seq<nat>
    requires n <= |q|
  {
    if n == 0 then [] else NotOwned(q, n - 1, owner, proc) + Keep(q[n - 1], owner, proc)
  }

  lemma {:induction false} NotOwnedHolds(q: seq<nat>, n: nat, owner: map<nat, nat>, proc: nat, t: nat)
    requires n <= |q|
    ensures t in NotOwned(q, n, owner, proc) <==> !Owns(owner, proc, t) && exists i :: 0 <= i < n && q[i] == t
  {
    if n == 0 {
    } else {
      NotOwnedHolds(q, n - 1, owner, proc, t);
    }
  }

  function Own(t: nat, owner: map<nat, nat>, proc: nat): set<nat> {
    if Owns(owner, proc, t) then {t} else {}
  }

  /** The threads among the first `n` that `proc` owns. */
  ghost function Owned(q: seq<nat>, n: nat, owner: map<nat, nat>, proc: nat): set<nat>
    requires n <= |q|
  {
    if n == 0 then {} else Owned(q, n - 1, owner, proc) + Own(q[n - 1], owner, proc)
  }

  lemma {:induction false} OwnedHolds(q: seq<nat>, n: nat, owner: map<nat, nat>, proc: nat, t: nat)
    requires n <= |q|
    ensures t in Owned(q, n, owner, proc) <==> Owns(owner, proc, t) && exists i :: 0 <= i < n && q[i] == t
  {
    if n == 0 {
    } else {
      OwnedHolds(q, n - 1, owner, proc, t);
    }
  }

  lemma KeptOnly(q: seq<nat>, n: nat, owner: map<nat, nat>, proc: nat)
    requires n <= |q|
    ensures forall t :: t in NotOwned(q, n, owner, proc) ==> t in q
  {
    forall t | t in NotOwned(q, n, owner, proc)
      ensures t in q
    {
      NotOwnedHolds(q, n, owner, proc, t);
    }
  }

  lemma Halves(kept: seq<nat>, q: seq<nat>, i: nat)
    requires i <= |q|
    ensures i == |q| ==> kept + q[i..] == kept
    ensures i < |q| ==> kept + q[i..] == kept + [q[i]] + q[i + 1..] && At(q[i + 1..], 0) == At(q, i + 1)
  {
  }

  predicate Position(q: seq<nat>, i: nat, t: nat) {
    i < |q| && q[i] == t
  }

  ghost predicate Apart(a: seq<nat>, b: seq<nat>) {
    forall t :: t in a ==> t !in b
  }

  /** The state of a thread that loses its authority. */
  function Stopped(s: ThreadState): ThreadState {
    if s == Ready || s == Running then BlockedAuth else s
  }

  /** Links change only on the threads of `q`. */
  ghost predicate Local(next: Links, next': Links, q: seq<nat>) {
    forall t {:trigger SameAt(next, next', t)} :: t !in q ==> SameAt(next, next', t)
  }

  lemma LocalTwice(next: Links, next1: Links, next2: Links, q: seq<nat>)
    requires Local(next, next1, q) && Local(next1, next2, q)
    ensures Local(next, next2, q)
  {
    forall x | x !in q
      ensures SameAt(next, next2, x)
    {
      assert SameAt(next, next1, x) && SameAt(next1, next2, x);
    }
  }

  lemma LocalWithin(next: Links, next': Links, some: seq<nat>, t: nat, q: seq<nat>)
    requires Local(next, next', some + [t]) && t in q && forall x :: x in some ==> x in q
    ensures Local(next, next', q)
  {
  }

  /** The scan of `q` stands at its i-th thread: the kept ones before it, then the rest, are linked. */
  ghost predicate Scanned(next: Links, head: Option<nat>, tail: Option<nat>, prev: Option<nat>, cur: Option<nat>,
                          q: seq<nat>, i: nat, owner: map<nat, nat>, proc: nat)
    requires i <= |q|
  {
    && cur == At(q, i) && prev == Last(NotOwned(q, i, owner, proc))
    && Queue(next, head, tail, NotOwned(q, i, owner, proc) + q[i..])
  }

  // Each queue is well linked, and no thread is on two of them.
  ghost predicate AllLinked(next: Links, heads: seq<Option<nat>>, tails: seq<Option<nat>>, queues: seq<seq<nat>>) {
    && |heads| == |tails| == |queues|
    && (forall k {:trigger queues[k]} :: 0 <= k < |queues| ==> Queue(next, heads[k], tails[k], queues[k]))
    && (forall k, l :: 0 <= k < |queues| && 0 <= l < |queues| && k != l ==> Apart(queues[k], queues[l]))
  }

  // No queue but k holds a thread of `q`.
  ghost predicate Free(queues: seq<seq<nat>>, k: nat, q: seq<nat>) {
    forall l :: 0 <= l < |queues| && l != k ==> Apart(queues[l], q)
  }

  // Queue k becomes `q`, of threads no other queue holds; links move only on `touched`, as foreign to the others.
  lemma Relinked(next: Links, heads: seq<Option<nat>>, tails: seq<Option<nat>>, queues: seq<seq<nat>>,
                 next': Links, heads': seq<Option<nat>>, tails': seq<Option<nat>>, k: nat, q: seq<nat>,
                 touched: seq<nat>)
    requires AllLinked(next, heads, tails, queues) && k < |queues|
    requires |heads'| == |heads| && heads' == heads[k := heads'[k]]
    requires |tails'| == |tails| && tails' == tails[k := tails'[k]]
    requires Queue(next', heads'[k], tails'[k], q) && Free(queues, k, q)
    requires Local(next, next', touched) && Free(queues, k, touched)
    ensures AllLinked(next', heads', tails', queues[k := q])
  {
    forall l | 0 <= l < |queues| && l != k
      ensures Queue(next', heads'[l], tails'[l], queues[l])
    {
      assert Apart(queues[l], touched);
      assert forall t :: t in queues[l] ==> SameAt(next, next', t);
      QueueFrame(next, next', heads[l], tails[l], queues[l]);
    }
  }

  ghost predicate StopsAt(state: map<nat, ThreadState>, state': map<nat, ThreadState>, gone: set<nat>, t: nat) {
    && (t in state' <==> t in state)
    && (t in state ==> state'[t] == if t in gone then Stopped(state[t]) else state[t])
  }

  /** Each thread in `gone`, and no other, lost its authority and stopped. */
  ghost predicate Stops(state: map<nat, ThreadState>, authorized: set<nat>,
                        state': map<nat, ThreadState>, authorized': set<nat>, gone: set<nat>) {
    && (forall t {:trigger StopsAt(state, state', gone, t)} :: StopsAt(state, state', gone, t))
    && authorized' == authorized - gone
  }

  lemma StopsMore(s: map<nat, ThreadState>, a: set<nat>, s1: map<nat, ThreadState>, a1: set<nat>,
                  s2: map<nat, ThreadState>, a2: set<nat>, gone: set<nat>, more: set<nat>)
    requires Stops(s, a, s1, a1, gone) && Stops(s1, a1, s2, a2, more)
    ensures Stops(s, a, s2, a2, gone + more)
  {
    forall t
      ensures StopsAt(s, s2, gone + more, t)
    {
      assert StopsAt(s, s1, gone, t) && StopsAt(s1, s2, more, t);
    }
  }

  ghost predicate RunsAt(current: seq<Option<nat>>, state: map<nat, ThreadState>, t: nat) {
    t in state && state[t] == Running ==> Some(t) in current
  }

  // Threads in sight have a state, and a running thread is the current one of its CPU.
  ghost predicate Known(queues: seq<seq<nat>>, current: seq<Option<nat>>, state: map<nat, ThreadState>) {
    && (forall k, t {:trigger t in queues[k]} :: 0 <= k < |queues| && t in queues[k] ==> t in state)
    && (forall c {:trigger current[c]} :: 0 <= c < |current| && current[c].Some? ==> current[c].value in state)
    && (forall t {:trigger RunsAt(current, state, t)} :: RunsAt(current, state, t))
  }

  lemma KnownLess(queues: seq<seq<nat>>, current: seq<Option<nat>>, state: map<nat, ThreadState>, k: nat, q: seq<nat>)
    requires Known(queues, current, state) && k < |queues| && forall t :: t in q ==> t in queues[k]
    ensures Known(queues[k := q], current, state)
  {
    var queues' := queues[k := q];
    forall l, t | 0 <= l < |queues'| && t in queues'[l]
      ensures t in state
    {
      assert t in queues[l];
    }
  }

  lemma KnownAfter(queues: seq<seq<nat>>, current: seq<Option<nat>>, state: map<nat, ThreadState>, authorized: set<nat>,
                   k: nat, q: seq<nat>, state': map<nat, ThreadState>, authorized': set<nat>, gone: set<nat>)
    requires Known(queues, current, state) && Stops(state, authorized, state', authorized', gone)
    requires k < |queues| && forall t :: t in q ==> t in queues[k]
    ensures Known(queues[k := q], current, state')
  {
    var queues' := queues[k := q];
    forall l, t | 0 <= l < |queues'| && t in queues'[l]
      ensures t in state'
    {
      assert t in queues[l] && StopsAt(state, state', gone, t);
    }
    forall c | 0 <= c < |current| && current[c].Some?
      ensures current[c].value in state'
    {
      assert StopsAt(state, state', gone, current[c].value);
    }
    forall t
      ensures RunsAt(current, state', t)
    {
      assert RunsAt(current, state, t) && StopsAt(state, state', gone, t);
    }
  }

  /** From the one state to the other, threads of `proc` may have stopped, and nothing else. */
  ghost predicate FadesAt(state: map<nat, ThreadState>, state': map<nat, ThreadState>,
                          owner: map<nat, nat>, proc: nat, t: nat) {
    && (t in state' <==> t in state)
    && (t in state && state'[t] != state[t] ==> Owns(owner, proc, t) && state'[t] == Stopped(state[t]))
  }

  ghost predicate Fades(state: map<nat, ThreadState>, authorized: set<nat>, state': map<nat, ThreadState>,
                        authorized': set<nat>, owner: map<nat, nat>, proc: nat) {
    && (forall t {:trigger FadesAt(state, state', owner, proc, t)} :: FadesAt(state, state', owner, proc, t))
    && authorized' <= authorized && (forall t :: t in authorized - authorized' ==> Owns(owner, proc, t))
  }

  lemma FadesTwice(s: map<nat, ThreadState>, a: set<nat>, s1: map<nat, ThreadState>, a1: set<nat>,
                   s2: map<nat, ThreadState>, a2: set<nat>, owner: map<nat, nat>, proc: nat)
    requires Fades(s, a, s1, a1, owner, proc) && Fades(s1, a1, s2, a2, owner, proc)
    ensures Fades(s, a, s2, a2, owner, proc)
  {
    forall t
      ensures FadesAt(s, s2, owner, proc, t)
    {
      assert FadesAt(s, s1, owner, proc, t) && FadesAt(s1, s2, owner, proc, t);
    }
  }

  lemma StopsFade(s: map<nat, ThreadState>, a: set<nat>, s': map<nat, ThreadState>, a': set<nat>,
                  q: seq<nat>, owner: map<nat, nat>, proc: nat)
    requires Stops(s, a, s', a', Owned(q, |q|, owner, proc))
    ensures Fades(s, a, s', a', owner, proc)
    ensures forall t :: t in q && Owns(owner, proc, t) && t in s ==> Gone(s', a', t)
  {
    var gone := Owned(q, |q|, owner, proc);
    forall t
      ensures FadesAt(s, s', owner, proc, t)
      ensures t in gone ==> Owns(owner, proc, t)
      ensures t in q && Owns(owner, proc, t) && t in s ==> Gone(s', a', t)
    {
      assert StopsAt(s, s', gone, t);
      OwnedHolds(q, |q|, owner, proc, t);
    }
  }

  /** Thread `t` has no authority and is neither ready nor running. */
  ghost predicate Gone(state: map<nat, ThreadState>, authorized: set<nat>, t: nat) {
    t in state && t !in authorized && state[t] != Ready && state[t] != Running
  }

  // The thread fields a revocation touches.
  datatype Fields = Fields(next: Links, state: map<nat, ThreadState>, authorized: set<nat>)

  /** After `i` threads of the scan of `q`, only links of `q` moved and only the owned ones stopped. */
  ghost predicate Sifted(was: Fields, now: Fields, q: seq<nat>, i: nat, owner: map<nat, nat>, proc: nat)
    requires i <= |q|
  {
    && Local(was.next, now.next, q)
    && Stops(was.state, was.authorized, now.state, now.authorized, Owned(q, i, owner, proc))
  }

  lemma ScanBegins(next: Links, head: Option<nat>, tail: Option<nat>, q: seq<nat>,
                   owner: map<nat, nat>, proc: nat, was: Fields)
    requires Queue(next, head, tail, q)
    ensures Scanned(next, head, tail, None, head, q, 0, owner, proc) && Sifted(was, was, q, 0, owner, proc)
  {
    assert [] + q[0..] == q;
  }

  lemma ScanEnds(next: Links, head: Option<nat>, tail: Option<nat>, prev: Option<nat>, q: seq<nat>, i: nat,
                 owner: map<nat, nat>, proc: nat)
    requires i <= |q| && Scanned(next, head, tail, prev, None, q, i, owner, proc)
    ensures i == |q| && Queue(next, head, tail, NotOwned(q, i, owner, proc))
  {
    Halves(NotOwned(q, i, owner, proc), q, i);
  }

  ghost predicate PurgedAt(state: map<nat, ThreadState>, authorized: set<nat>, was: seq<nat>, q: seq<nat>,
                           owner: map<nat, nat>, proc: nat) {
    && q == NotOwned(was, |was|, owner, proc)
    && forall t :: t in was && Owns(owner, proc, t) ==> Gone(state, authorized, t)
  }

  /** The first `n` queues are rid of the threads of `proc`, which have stopped; the others are as they were. */
  ghost predicate Purged(state: map<nat, ThreadState>, authorized: set<nat>, was: seq<seq<nat>>, queues: seq<seq<nat>>,
                         n: nat, owner: map<nat, nat>, proc: nat) {
    && n <= |was| == |queues|
    && (forall k {:trigger queues[k]} :: 0 <= k < n ==> PurgedAt(state, authorized, was[k], queues[k], owner, proc))
    && (forall k {:trigger queues[k]} :: n <= k < |queues| ==> queues[k] == was[k])
  }

  lemma PurgedStays(s: map<nat, ThreadState>, a: set<nat>, s': map<nat, ThreadState>, a': set<nat>,
                    was: seq<seq<nat>>, queues: seq<seq<nat>>, n: nat, owner: map<nat, nat>, proc: nat)
    requires Purged(s, a, was, queues, n, owner, proc) && Fades(s, a, s', a', owner, proc)
    ensures Purged(s', a', was, queues, n, owner, proc)
  {
    forall k, t | 0 <= k < n && t in was[k] && Owns(owner, proc, t)
      ensures Gone(s', a', t)
    {
      assert PurgedAt(s, a, was[k], queues[k], owner, proc) && Gone(s, a, t);
      assert FadesAt(s, s', owner, proc, t);
    }
  }

  lemma PurgedMore(s: map<nat, ThreadState>, a: set<nat>, was: seq<seq<nat>>, queues: seq<seq<nat>>,
                   n: nat, q: seq<nat>, owner: map<nat, nat>, proc: nat)
    requires Purged(s, a, was, queues, n, owner, proc) && n < |was| && PurgedAt(s, a, was[n], q, owner, proc)
    ensures Purged(s, a, was, queues[n := q], n + 1, owner, proc)
  {
  }

  // No CPU below `c` runs a thread of `proc`.
  ghost predicate Quiet(current: seq<Option<nat>>, state: map<nat, ThreadState>, c: nat, owner: map<nat, nat>,
                        proc: nat) {
    forall j {:trigger current[j]} ::
      0 <= j < c && j < |current| && current[j].Some? && Owns(owner, proc, current[j].value) ==>
      current[j].value in state && state[current[j].value] != Running
  }

  lemma QuietStays(current: seq<Option<nat>>, s: map<nat, ThreadState>, a: set<nat>, s': map<nat, ThreadState>,
                   a': set<nat>, c: nat, owner: map<nat, nat>, proc: nat)
    requires Quiet(current, s, c, owner, proc) && Fades(s, a, s', a', owner, proc)
    ensures Quiet(current, s', c, owner, proc)
  {
    forall j | 0 <= j < c && j < |current| && current[j].Some? && Owns(owner, proc, current[j].value)
      ensures current[j].value in s' && s'[current[j].value] != Running
    {
      assert FadesAt(s, s', owner, proc, current[j].value);
    }
  }

  lemma NoneRuns(queues: seq<seq<nat>>, current: seq<Option<nat>>, state: map<nat, ThreadState>,
                 owner: map<nat, nat>, proc: nat)
    requires Known(queues, current, state) && Quiet(current, state, |current|, owner, proc)
    ensures forall t :: t in state && Owns(owner, proc, t) ==> state[t] != Running
  {
    forall t | t in state && Owns(owner, proc, t)
      ensures state[t] != Running
    {
      assert RunsAt(current, state, t);
    }
  }

  class Scheduler {
    // Queue k belongs to CPU k / MODES and mode k % MODES.
    var heads: seq<Option<nat>>
    var tails: seq<Option<nat>>
    var current: seq<Option<nat>>

    // Fields of the threads.
    var next: Links
    var owner: map<nat, nat>
    var state: map<nat, ThreadState>
    var authorized: set<nat>

    ghost var queues: seq<seq<nat>>

    ghost predicate Valid()
      reads this
    {
      && |queues| == CPUS * MODES && |current| == CPUS
      && AllLinked(next, heads, tails, queues) && Known(queues, current, state)
    }

    /** Threads none of which runs yet, with every queue empty and every CPU idle. */
    constructor (owner: map<nat, nat>, state: map<nat, ThreadState>, authorized: set<nat>)
      requires forall t :: t in state ==> state[t] != Running
      ensures Valid() && this.owner == owner && this.state == state && this.authorized == authorized
      ensures forall k :: 0 <= k < |queues| ==> queues[k] == []
      ensures forall c :: 0 <= c < |current| ==> current[c].None?
    {
      heads, tails := seq(CPUS * MODES, _ => None), seq(CPUS * MODES, _ => None);
      current := seq(CPUS, _ => None);
      next, queues := map[], seq(CPUS * MODES, _ => []);
      this.owner, this.state, this.authorized := owner, state, authorized;
    }

    // ---- Queue operations ----

    // Thread `t` is on no ready queue.
    ghost predicate Unqueued(t: nat)
      reads `queues
    {
      forall k {:trigger queues[k]} :: 0 <= k < |queues| ==> t !in queues[k]
    }

    method Enqueue(k: nat, t: nat)
      requires Valid() && k < |queues| && t in state && Unqueued(t)
      modifies `heads, `tails, `next, `queues
      ensures Valid() && queues == old(queues)[k := old(queues)[k] + [t]]
    {
      QueuePush(next, heads[k], tails[k], queues[k], t);
      next := next[t := None];
      if heads[k].None? {
        heads := heads[k := Some(t)];
      } else {
        next := next[tails[k].value := Some(t)];
      }
      tails := tails[k := Some(t)];
      ghost var q := queues[k] + [t];
      Relinked(old(next), old(heads), old(tails), queues, next, heads, tails, k, q, q);
      queues := queues[k := q];
    }

    method EnqueueHead(k: nat, t: nat)
      requires Valid() && k < |queues| && t in state && Unqueued(t)
      modifies `heads, `tails, `next, `queues
      ensures Valid() && queues == old(queues)[k := [t] + old(queues)[k]]
    {
      QueuePushHead(next, heads[k], tails[k], queues[k], t);
      next := next[t := heads[k]];
      heads := heads[k := Some(t)];
      if tails[k].None? {
        tails := tails[k := Some(t)];
      }
      ghost var q := [t] + queues[k];
      Relinked(old(next), old(heads), old(tails), queues, next, heads, tails, k, q, q);
      queues := queues[k := q];
    }

    method Dequeue(k: nat) returns (t: Option<nat>)
      requires Valid() && k < |queues|
      modifies `heads, `tails, `next, `queues
      ensures Valid() && t == At(old(queues)[k], 0)
      ensures queues == if t.None? then old(queues) else old(queues)[k := old(queues)[k][1..]]
    {
      t := heads[k];
      if t.Some? {
        ghost var q := queues[k][1..];
        QueuePop(next, heads[k], tails[k], queues[k]);
        heads := heads[k := next[t.value]];
        if heads[k].None? {
          tails := tails[k := None];
        }
        next := next[t.value := None];
        QueueFrame(old(next), next, heads[k], tails[k], q);
        Relinked(old(next), old(heads), old(tails), queues, next, heads, tails, k, q, queues[k]);
        KnownLess(queues, current, state, k, q);
        queues := queues[k := q];
      }
    }

    /** Removal takes out exactly the one thread, if it is there, and keeps the order of the rest. */
    method Remove(k: nat, target: nat) returns (found: bool)
      requires Valid() && k < |queues|
      modifies `heads, `tails, `next, `queues
      ensures Valid() && (found <==> target in old(queues)[k])
      ensures !found ==> queues == old(queues)
      ensures found ==> exists i: nat :: Position(old(queues)[k], i, target)
                                    && queues == old(queues)[k := old(queues)[k][..i] + old(queues)[k][i + 1..]]
    {
      ghost var q, i := queues[k], 0;
      var cur, prev := heads[k], None;
      while cur.Some? && cur.value != target
        invariant 0 <= i <= |q| && cur == At(q, i) && prev == At(q, i - 1) && target !in q[..i]
        decreases |q| - i
      {
        assert LinkAt(next, q, i);
        prev, cur := cur, next[cur.value];
        i := i + 1;
      }
      found := cur.Some?;
      if found {
        ghost var a, b := q[..i], q[i + 1..];
        assert Position(q, i, target) && q == a + [target] + b;
        var head, tail := Unlink(heads[k], tails[k], prev, target, a, b);
        heads, tails := heads[k := head], tails[k := tail];
        Relinked(old(next), old(heads), old(tails), queues, next, heads, tails, k, a + b, q);
        KnownLess(queues, current, state, k, a + b);
        queues := queues[k := a + b];
      }
    }

    // ---- Revocation ----

    // Take thread `t` out of a queue from behind `prev`; `a` and `b` are the threads before and after it.
    method Unlink(head: Option<nat>, tail: Option<nat>, prev: Option<nat>, t: nat, ghost a: seq<nat>, ghost b: seq<nat>)
      returns (head': Option<nat>, tail': Option<nat>)
      requires Queue(next, head, tail, a + [t] + b) && prev == Last(a)
      modifies `next
      ensures Queue(next, head', tail', a + b)
      ensures Local(old(next), next, a + [t])
    {
      QueueUnlink(next, head, tail, a, t, b);
      assert prev.Some? ==> prev.value in a;
      head', tail' := head, tail;
      var after := next[t];
      if prev.Some? {
        next := next[prev.value := after];
      } else {
        head' := after;
      }
      if tail' == Some(t) {
        tail' := prev;
      }
      next := next[t := None];
    }

    method Stop(t: nat)
      requires t in state
      modifies `state, `authorized
      ensures Stops(old(state), old(authorized), state, authorized, {t})
    {
      authorized := authorized - {t};
      if state[t] == Ready || state[t] == Running {
        state := state[t := BlockedAuth];
      }
    }

    // One turn of the scan, at the i-th thread of `q`.
    method SiftOne(proc: nat, head: Option<nat>, tail: Option<nat>, prev: Option<nat>, t: nat, ghost q: seq<nat>,
                   ghost i: nat)
      returns (head': Option<nat>, tail': Option<nat>, prev': Option<nat>, after: Option<nat>)
      requires i < |q| && Scanned(next, head, tail, prev, Some(t), q, i, owner, proc) && t in state
      modifies `next, `state, `authorized
      ensures Scanned(next, head', tail', prev', after, q, i + 1, owner, proc)
      ensures Local(old(next), next, q)
      ensures Stops(old(state), old(authorized), state, authorized, Own(t, owner, proc))
    {
      ghost var kept, rest := NotOwned(q, i, owner, proc), q[i + 1..];
      Halves(kept, q, i);
      QueueUnlink(next, head, tail, kept, t, rest);
      after := next[t];
      if Owns(owner, proc, t) {
        head', tail' := Unlink(head, tail, prev, t, kept, rest);
        KeptOnly(q, i, owner, proc);
        LocalWithin(old(next), next, kept, t, q);
        Stop(t);
        prev' := prev;
        assert kept + [] == kept;
      } else {
        head', tail', prev' := head, tail, Some(t);
      }
    }

    // The same turn, seen from the start of the scan.
    method SiftNext(proc: nat, head: Option<nat>, tail: Option<nat>, prev: Option<nat>, cur: Option<nat>,
                    ghost q: seq<nat>, ghost i: nat, ghost was: Fields)
      returns (head': Option<nat>, tail': Option<nat>, prev': Option<nat>, cur': Option<nat>)
      requires i <= |q| && cur.Some? && Scanned(next, head, tail, prev, cur, q, i, owner, proc)
      requires (forall t :: t in q ==> t in was.state) &&
        Sifted(was, Fields(next, state, authorized), q, i, owner, proc)
      modifies `next, `state, `authorized
      ensures i < |q| && Scanned(next, head', tail', prev', cur', q, i + 1, owner, proc)
      ensures Sifted(was, Fields(next, state, authorized), q, i + 1, owner, proc)
    {
      var t := cur.value;
      assert t in q && StopsAt(was.state, state, Owned(q, i, owner, proc), t);
      head', tail', prev', cur' := SiftOne(proc, head, tail, prev, t, q, i);
      LocalTwice(was.next, old(next), next, q);
      StopsMore(was.state, was.authorized, old(state), old(authorized), state, authorized,
                Owned(q, i, owner, proc), Own(t, owner, proc));
    }

    // The scan of the queue `q`.
    method Sift(proc: nat, first: Option<nat>, last: Option<nat>, ghost q: seq<nat>)
      returns (head: Option<nat>, tail: Option<nat>)
      requires Queue(next, first, last, q) && forall t :: t in q ==> t in state
      modifies `next, `state, `authorized
      ensures Queue(next, head, tail, NotOwned(q, |q|, owner, proc))
      ensures Sifted(Fields(old(next), old(state), old(authorized)), Fields(next, state, authorized),
                     q, |q|, owner, proc)
    {
      head, tail := first, last;
      var cur, prev := head, None;
      ghost var i, was := 0, Fields(next, state, authorized);
      ScanBegins(next, head, tail, q, owner, proc, was);
      while cur.Some?
        invariant 0 <= i <= |q| && Scanned(next, head, tail, prev, cur, q, i, owner, proc)
        invariant Sifted(was, Fields(next, state, authorized), q, i, owner, proc)
        decreases |q| - i
      {
        head, tail, prev, cur := SiftNext(proc, head, tail, prev, cur, q, i, was);
        i := i + 1;
      }
      ScanEnds(next, head, tail, prev, q, i, owner, proc);
    }

    /** One queue of a revocation: exactly the process's threads leave it, and stop. */
    method RevokeQueue(k: nat, proc: nat)
      requires Valid() && k < |queues|
      modifies `heads, `tails, `next, `state, `authorized, `queues
      ensures Valid() && queues == old(queues)[k := NotOwned(old(queues)[k], |old(queues)[k]|, owner, proc)]
      ensures Fades(old(state), old(authorized), state, authorized, owner, proc)
      ensures forall t :: t in old(queues)[k] && Owns(owner, proc, t) ==> Gone(state, authorized, t)
    {
      ghost var q, gone := NotOwned(queues[k], |queues[k]|, owner, proc), Owned(queues[k], |queues[k]|, owner, proc);
      var head, tail := Sift(proc, heads[k], tails[k], queues[k]);
      KeptOnly(queues[k], |queues[k]|, owner, proc);
      StopsFade(old(state), old(authorized), state, authorized, queues[k], owner, proc);
      KnownAfter(queues, current, old(state), old(authorized), k, q, state, authorized, gone);
      heads, tails := heads[k := head], tails[k := tail];
      Relinked(old(next), old(heads), old(tails), queues, next, heads, tails, k, q, queues[k]);
      queues := queues[k := q];
    }

    method RevokeCurrent(c: nat, proc: nat)
      requires Valid() && c < CPUS && Quiet(current, state, c, owner, proc)
      modifies `state, `authorized
      ensures Valid() && Quiet(current, state, c + 1, owner, proc)
      ensures Fades(old(state), old(authorized), state, authorized, owner, proc)
      ensures current[c].Some? && Owns(owner, proc, current[c].value) ==> current[c].value !in authorized
    {
      if current[c].Some? && Owns(owner, proc, current[c].value) {
        var t := current[c].value;
        authorized := authorized - {t};
        if state[t] == Running {
          state := state[t := BlockedAuth];
        }
      }
      assert forall t :: FadesAt(old(state), state, owner, proc, t);
      QuietStays(current, old(state), old(authorized), state, authorized, c, owner, proc);
      forall t
        ensures RunsAt(current, state, t)
      {
        assert RunsAt(current, old(state), t);
      }
    }

    // One queue, then the current thread of its CPU.
    method RevokeSlot(c: nat, k: nat, proc: nat, ghost was: seq<seq<nat>>)
      requires Valid() && c < CPUS && k < |queues|
      requires Purged(state, authorized, was, queues, k, owner, proc) && Quiet(current, state, c, owner, proc)
      modifies `heads, `tails, `next, `state, `authorized, `queues
      ensures Valid() && Purged(state, authorized, was, queues, k + 1, owner, proc)
      ensures Quiet(current, state, c + 1, owner, proc)
      ensures Fades(old(state), old(authorized), state, authorized, owner, proc)
    {
      RevokeQueue(k, proc);
      ghost var state1, authorized1 := state, authorized;
      PurgedStays(old(state), old(authorized), state, authorized, was, old(queues), k, owner, proc);
      PurgedMore(state, authorized, was, old(queues), k, queues[k], owner, proc);
      QuietStays(current, old(state), old(authorized), state, authorized, c, owner, proc);
      RevokeCurrent(c, proc);
      PurgedStays(state1, authorized1, state, authorized, was, queues, k + 1, owner, proc);
      FadesTwice(old(state), old(authorized), state1, authorized1, state, authorized, owner, proc);
    }

    /** Revoking a process: every ready queue of every CPU and mode is its old sequence without exactly
        the process's threads, well linked up to its tail; its threads that were queued are neither
        ready nor running, none of its threads runs anywhere, and no other thread's state or
        authority changes. */
    method Revoke(proc: nat)
      requires Valid()
      modifies `heads, `tails, `next, `state, `authorized, `queues
      ensures Valid() && |queues| == |old(queues)|
      ensures forall k :: 0 <= k < |queues| ==> PurgedAt(state, authorized, old(queues)[k], queues[k], owner, proc)
      ensures forall t :: t in state && Owns(owner, proc, t) ==> state[t] != Running
      ensures Fades(old(state), old(authorized), state, authorized, owner, proc)
    {
      ghost var was := queues;
      var c := 0;
      while c < CPUS
        invariant 0 <= c <= CPUS && Valid() && Purged(state, authorized, was, queues, c * MODES, owner, proc)
        invariant Quiet(current, state, c, owner, proc)
        invariant Fades(old(state), old(authorized), state, authorized, owner, proc)
      {
        RevokeCpu(c, proc, was, old(state), old(authorized));
        c := c + 1;
      }
      NoneRuns(queues, current, state, owner, proc);
    }

    // The queues of one CPU.
    method RevokeCpu(c: nat, proc: nat, ghost was: seq<seq<nat>>, ghost state0: map<nat, ThreadState>,
                     ghost authorized0: set<nat>)
      requires Valid() && c < CPUS && Purged(state, authorized, was, queues, c * MODES, owner, proc)
      requires Quiet(current, state, c, owner, proc) && Fades(state0, authorized0, state, authorized, owner, proc)
      modifies `heads, `tails, `next, `state, `authorized, `queues
      ensures Valid() && Purged(state, authorized, was, queues, (c + 1) * MODES, owner, proc)
      ensures Quiet(current, state, c + 1, owner, proc) && Fades(state0, authorized0, state, authorized, owner, proc)
    {
      var m := 0;
      while m < MODES
        invariant 0 <= m <= MODES && Valid() && Purged(state, authorized, was, queues, c * MODES + m, owner, proc)
        invariant Quiet(current, state, if m == 0 then c else c + 1, owner, proc)
        invariant Fades(state0, authorized0, state, authorized, owner, proc)
      {
        ghost var state1, authorized1 := state, authorized;
        RevokeSlot(c, c * MODES + m, proc, was);
        FadesTwice(state0, authorized0, state1, authorized1, state, authorized, owner, proc);
        m := m + 1;
      }
    }
  }
}
