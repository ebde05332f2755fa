/**
 Read-copy-update with one counter of readers: rcu_synchronize waits until the
 counter reads zero. Threads interleave their atomic steps in any order; a nested
 read section counts as a reader of its own.
 */
module Rcu {

  import opened Words

  /** Where a thread stands. A read section is known by its number `id`; `since` is how many
      sections had begun when the synchronizing thread made its call. */
  datatype Pc =
    | Outside
    | Inside(id: nat)
    | Acquiring(since: nat)
    | Beginning(since: nat)
    | Waiting(since: nat)
    | Ending(since: nat)
    | Releasing(since: nat)
    | Synchronized(since: nat)

  /** The shared words and the threads; then the history: how many sections have begun. */
  datatype State = State(readers: nat, epoch: nat, held: bool, pcs: seq<Pc>, begun: nat)

  datatype Wish = ToRead | ToSynchronize

  datatype Event = Event(thread: nat, wish: Wish)

  function Init(threads: nat): (s: State)
    ensures Inv(s)
  {
    var pcs := seq(threads, _ => Outside);
    NoneInside(pcs);
    State(0, 0, false, pcs, 0)
  }

  function Next(s: State, pc: Pc, wish: Wish): Pc {
    match pc
    case Outside => if wish == ToRead then Inside(s.begun) else Acquiring(s.begun)
    case Inside(_) => Outside
    case Acquiring(since) => if s.held then pc else Beginning(since)
    case Beginning(since) => Waiting(since)
    case Waiting(since) => if s.readers != 0 then pc else Ending(since)
    case Ending(since) => Releasing(since)
    case Releasing(since) => Synchronized(since)
    case Synchronized(_) => Outside
  }

  function Shared(s: State, pc: Pc, wish: Wish): State {
    match pc
    case Outside =>
      if wish == ToRead then s.(readers := (s.readers + 1) % TWO32, begun := s.begun + 1) else s
    case Inside(_) => s.(readers := (s.readers + TWO32 - 1) % TWO32)
    case Acquiring(_) => s.(held := true)
    case Beginning(_) => s.(epoch := (s.epoch + 1) % TWO32)
    case Ending(_) => s.(epoch := (s.epoch + 1) % TWO32)
    case Releasing(_) => s.(held := false)
    case _ => s
  }

  function Step(s: State, e: Event): State {
    if e.thread < |s.pcs| then
      var pc := s.pcs[e.thread];
      Shared(s, pc, e.wish).(pcs := s.pcs[e.thread := Next(s, pc, e.wish)])
    else s
  }

  function Run(s: State, events: seq<Event>): State
    decreases |events|
  {
    if events == [] then s else Run(Step(s, events[0]), events[1..])
  }

  // ---- The invariant ----

  function Count(pcs: seq<Pc>): (n: nat)
    ensures n <= |pcs|
  {
    if pcs == [] then 0 else (if pcs[0].Inside? then 1 else 0) + Count(pcs[1..])
  }

  lemma {:induction false} NoneInside(pcs: seq<Pc>)
    ensures Count(pcs) == 0 <==> forall i :: 0 <= i < |pcs| ==> !pcs[i].Inside?
  {
    if pcs == [] {
    } else {
      NoneInside(pcs[1..]);
      assert pcs == [pcs[0]] + pcs[1..];
    }
  }

  lemma {:induction false} NotAllInside(pcs: seq<Pc>, i: nat)
    requires i < |pcs| && !pcs[i].Inside?
    ensures Count(pcs) < |pcs|
  {
    if i == 0 {
    } else {
      NotAllInside(pcs[1..], i - 1);
    }
  }

  lemma {:induction false} CountUpdate(pcs: seq<Pc>, i: nat, pc: Pc)
    requires i < |pcs|
    ensures Count(pcs[i := pc]) + (if pcs[i].Inside? then 1 else 0) == Count(pcs) + (if pc.Inside? then 1 else 0)
  {
    if i == 0 {
      assert pcs[i := pc][1..] == pcs[1..];
    } else {
      assert pcs[i := pc][1..] == pcs[1..][i - 1 := pc];
      CountUpdate(pcs[1..], i - 1, pc);
    }
  }

  predicate Holds(pc: Pc) {
    pc.Beginning? || pc.Waiting? || pc.Ending? || pc.Releasing?
  }

  predicate InGrace(pc: Pc) {
    pc.Waiting? || pc.Ending?
  }

  ghost predicate OneWriter(held: bool, pcs: seq<Pc>) {
    && (forall i, j :: 0 <= i < |pcs| && 0 <= j < |pcs| && Holds(pcs[i]) && Holds(pcs[j]) ==> i == j)
    && (held <==> exists i :: 0 <= i < |pcs| && Holds(pcs[i]))
  }

  /** The epoch is odd exactly during a grace period. */
  ghost predicate Parity(s: State) {
    s.epoch % 2 == 1 <==> exists i :: 0 <= i < |s.pcs| && InGrace(s.pcs[i])
  }

  /** No read section that began before number `since` is still open. */
  ghost predicate AllLeft(pcs: seq<Pc>, since: nat) {
    forall i :: 0 <= i < |pcs| && pcs[i].Inside? ==> since <= pcs[i].id
  }

  ghost predicate PcOk(s: State, pc: Pc) {
    match pc
    case Outside => true
    case Inside(id) => id < s.begun
    case _ =>
      && pc.since <= s.begun
      && (|s.pcs| <= TWO32 && (pc.Ending? || pc.Releasing? || pc.Synchronized?) ==> AllLeft(s.pcs, pc.since))
  }

  ghost predicate Inv(s: State) {
    && s.readers == Count(s.pcs) % TWO32
    && OneWriter(s.held, s.pcs) && Parity(s)
    && forall i :: 0 <= i < |s.pcs| ==> PcOk(s, s.pcs[i])
  }

  // ---- One step ----

  lemma WriterStep(s: State, i: nat, wish: Wish)
    requires OneWriter(s.held, s.pcs) && i < |s.pcs|
    ensures var s' := Step(s, Event(i, wish)); OneWriter(s'.held, s'.pcs)
  {
    var s' := Step(s, Event(i, wish));
    assert s'.pcs[i] == Next(s, s.pcs[i], wish);
    if j :| 0 <= j < |s.pcs| && Holds(s.pcs[j]) {
      assert s.held;
      assert s'.pcs[j] == if i == j then Next(s, s.pcs[i], wish) else s.pcs[j];
    }
  }

  lemma EpochStep(s: State, i: nat, wish: Wish)
    requires Inv(s) && i < |s.pcs|
    ensures Parity(Step(s, Event(i, wish)))
  {
    var s' := Step(s, Event(i, wish));
    var pc := s.pcs[i];
    assert s'.pcs[i] == Next(s, pc, wish);
    if Holds(pc) {
      assert forall j :: 0 <= j < |s.pcs| && j != i ==> !Holds(s.pcs[j]) && s'.pcs[j] == s.pcs[j];
    } else {
      assert forall j :: 0 <= j < |s.pcs| && InGrace(s.pcs[j]) ==> InGrace(s'.pcs[j]);
      assert forall j :: 0 <= j < |s.pcs| && InGrace(s'.pcs[j]) ==> InGrace(s.pcs[j]);
    }
  }

  // Sections that have ended stay ended: a new one gets a new number.
  lemma LeftForGood(s: State, i: nat, wish: Wish, since: nat)
    requires i < |s.pcs| && since <= s.begun && AllLeft(s.pcs, since)
    ensures AllLeft(Step(s, Event(i, wish)).pcs, since)
  {
  }

  lemma PcStep(s: State, i: nat, wish: Wish, j: nat)
    requires Inv(s) && i < |s.pcs| && j < |s.pcs|
    ensures var s' := Step(s, Event(i, wish)); PcOk(s', s'.pcs[j])
  {
    assert PcOk(s, s.pcs[j]);
    var pc := s.pcs[j];
    if pc.Waiting? && s.readers == 0 && |s.pcs| <= TWO32 {
      NotAllInside(s.pcs, j);
      NoneInside(s.pcs);
      assert AllLeft(s.pcs, pc.since);
    }
    if !pc.Outside? && !pc.Inside? && AllLeft(s.pcs, pc.since) {
      LeftForGood(s, i, wish, pc.since);
    }
  }

  lemma CountStep(s: State, i: nat, wish: Wish)
    requires s.readers == Count(s.pcs) % TWO32 && i < |s.pcs|
    ensures var s' := Step(s, Event(i, wish)); s'.readers == Count(s'.pcs) % TWO32
  {
    CountUpdate(s.pcs, i, Next(s, s.pcs[i], wish));
    Wraps(Count(s.pcs));
  }

  lemma Wraps(n: nat)
    ensures (n % TWO32 + 1) % TWO32 == (n + 1) % TWO32
    ensures 0 < n ==> (n % TWO32 + TWO32 - 1) % TWO32 == (n - 1) % TWO32
  {
    var q, r := n / TWO32, n % TWO32;
    assert n == q * TWO32 + r;
    if r + 1 == TWO32 {
      assert n + 1 == (q + 1) * TWO32;
    }
    if r == 0 && 0 < n {
      assert n - 1 == (q - 1) * TWO32 + (TWO32 - 1);
    }
  }

  lemma StepKeepsInv(s: State, e: Event)
    requires Inv(s)
    ensures Inv(Step(s, e))
  {
    var i := e.thread;
    if i < |s.pcs| {
      var s' := Step(s, e);
      WriterStep(s, i, e.wish);
      EpochStep(s, i, e.wish);
      CountStep(s, i, e.wish);
      forall j | 0 <= j < |s'.pcs|
        ensures PcOk(s', s'.pcs[j])
      {
        PcStep(s, i, e.wish, j);
      }
    }
  }

  lemma {:induction false} RunKeepsInv(s: State, events: seq<Event>)
    requires Inv(s)
    ensures Inv(Run(s, events)) && |Run(s, events).pcs| == |s.pcs|
    decreases |events|
  {
    if events == [] {
    } else {
      StepKeepsInv(s, events[0]);
      RunKeepsInv(Step(s, events[0]), events[1..]);
    }
  }

  /** In state `s` every reader present when a finished rcu_synchronize was called has left. */
  ghost predicate Graceful(s: State) {
    forall i :: 0 <= i < |s.pcs| && s.pcs[i].Synchronized? ==> AllLeft(s.pcs, s.pcs[i].since)
  }

  /** With up to 2^32 threads that holds in every run: a synchronizing thread is itself no reader,
      so the others cannot wrap the counter round to zero. */
  lemma GracePeriod(threads: nat, events: seq<Event>)
    requires threads <= TWO32
    ensures Graceful(Run(Init(threads), events))
  {
    RunKeepsInv(Init(threads), events);
    var s := Run(Init(threads), events);
    forall i | 0 <= i < |s.pcs| && s.pcs[i].Synchronized?
      ensures AllLeft(s.pcs, s.pcs[i].since)
    {
      assert PcOk(s, s.pcs[i]);
    }
  }

  // ---- More than 2^32 threads ----

  ghost predicate Reaches(s: State, t: State) {
    exists events :: Run(s, events) == t
  }

  lemma {:induction false} RunOn(s: State, events: seq<Event>, e: Event)
    ensures Run(s, events + [e]) == Step(Run(s, events), e)
    decreases |events|
  {
    if events == [] {
      assert ([] + [e])[1..] == [];
    } else {
      assert (events + [e])[1..] == events[1..] + [e];
      RunOn(Step(s, events[0]), events[1..], e);
    }
  }

  lemma ReachesStep(s: State, t: State, e: Event)
    requires Reaches(s, t)
    ensures Reaches(s, Step(t, e))
  {
    var events :| Run(s, events) == t;
    RunOn(s, events, e);
  }

  // The first k of n threads inside, the one after them at `pc`, the rest outside.
  function Crowd(n: nat, k: nat, pc: Pc): seq<Pc> {
    seq(n, i requires 0 <= i => if i < k then Inside(i) else if i == k then pc else Outside)
  }

  lemma {:induction false} Crowds(n: nat, k: nat)
    requires k < n
    ensures Reaches(Init(n), State(k % TWO32, 0, false, Crowd(n, k, Outside), k))
    decreases k
  {
    if k == 0 {
      assert Run(Init(n), []) == Init(n);
      assert Crowd(n, 0, Outside) == Init(n).pcs;
    } else {
      Crowds(n, k - 1);
      var s := State((k - 1) % TWO32, 0, false, Crowd(n, k - 1, Outside), k - 1);
      ReachesStep(Init(n), s, Event(k - 1, ToRead));
      assert Crowd(n, k - 1, Outside)[k - 1 := Inside(k - 1)] == Crowd(n, k, Outside);
    }
  }

  // Thread k goes through rcu_synchronize behind k readers that wrapped the counter to zero.
  lemma PassesBy(n: nat, k: nat, s: State)
    requires k < n && k % TWO32 == 0 && s == State(0, 0, false, Crowd(n, k, Outside), k) && Reaches(Init(n), s)
    ensures Reaches(Init(n), State(0, 2, false, Crowd(n, k, Synchronized(k)), k))
  {
    var e := Event(k, ToSynchronize);
    var s1 := State(0, 0, false, Crowd(n, k, Acquiring(k)), k);
    var s2 := State(0, 0, true, Crowd(n, k, Beginning(k)), k);
    var s3 := State(0, 1, true, Crowd(n, k, Waiting(k)), k);
    var s4 := State(0, 1, true, Crowd(n, k, Ending(k)), k);
    var s5 := State(0, 2, true, Crowd(n, k, Releasing(k)), k);
    MovesOn(n, k, s, e, s1);
    MovesOn(n, k, s1, e, s2);
    MovesOn(n, k, s2, e, s3);
    MovesOn(n, k, s3, e, s4);
    MovesOn(n, k, s4, e, s5);
    MovesOn(n, k, s5, e, State(0, 2, false, Crowd(n, k, Synchronized(k)), k));
  }

  lemma MovesOn(n: nat, k: nat, s: State, e: Event, t: State)
    requires k < n && e.thread == k && Reaches(Init(n), s) && |s.pcs| == n && s.pcs == Crowd(n, k, s.pcs[k])
    requires t == Shared(s, s.pcs[k], e.wish).(pcs := Crowd(n, k, Next(s, s.pcs[k], e.wish)))
    ensures Reaches(Init(n), t)
  {
    assert s.pcs[k := Next(s, s.pcs[k], e.wish)] == t.pcs;
    ReachesStep(Init(n), s, e);
  }

  /** The promise is kept in every run exactly if there are at most 2^32 threads: with more, 2^32
      readers wrap the counter to zero, and one more thread synchronizes past them all. */
  lemma GraceExact(threads: nat)
    ensures (forall events :: Graceful(Run(Init(threads), events))) <==> threads <= TWO32
  {
    if threads <= TWO32 {
      forall events
        ensures Graceful(Run(Init(threads), events))
      {
        GracePeriod(threads, events);
      }
    } else {
      var k: nat :| k == TWO32;
      Crowds(threads, k);
      PassesBy(threads, k, State(0, 0, false, Crowd(threads, k, Outside), k));
      var s := State(0, 2, false, Crowd(threads, k, Synchronized(k)), k);
      var events :| Run(Init(threads), events) == s;
      assert s.pcs[k] == Synchronized(k) && s.pcs[0] == Inside(0);
      assert !Graceful(Run(Init(threads), events));
    }
  }

  /** And it returns: with the writer lock free and no reader inside, five steps of its own are enough. */
  lemma Returns(s: State, i: nat, wish: Wish)
    requires Inv(s) && i < |s.pcs| && s.pcs[i].Acquiring? && !s.held && s.readers == 0
    ensures var e := Event(i, wish);
            Step(Step(Step(Step(Step(s, e), e), e), e), e).pcs[i] == Synchronized(s.pcs[i].since)
  {
    var e := Event(i, wish);
    var s1 := Step(s, e);
    var s2 := Step(s1, e);
    var s3 := Step(s2, e);
    var s4 := Step(s3, e);
    assert s1.pcs[i].Beginning? && s2.pcs[i].Waiting? && s2.readers == 0 && s3.pcs[i].Ending? && s4.pcs[i].Releasing?;
  }
}
