/**
 The sequence lock: writers bump a 32-bit counter before and after they change the
 data word by word; readers copy the data word by word and keep the copy when the counter
 did not move. All threads interleave their atomic steps in any order.
 */
module SeqLock {

  import opened Words

  // Writes that bring the counter round.
  const LAP: nat := 0x8000_0000

  /** Where a thread stands. `at` and `end` are history: how often the counter had been bumped
      when the thread read it as `start`, and when it was checked again. */
  datatype Pc =
    | Outside
    | Acquiring
    | Beginning
    | Writing
    | Releasing
    | Spinning
    | Copying(start: nat, at: nat, copy: seq<int>)
    | Kept(at: nat, end: nat, copy: seq<int>)

  /** The lock and data words and the threads; then the history: how often the counter was
      bumped, and the data published so far, from the initial contents on. */
  datatype State = State(word: nat, held: bool, data: seq<int>, pcs: seq<Pc>, bumps: nat, published: seq<seq<int>>)

  datatype Wish = ToRead | ToWrite | Store(index: nat, value: int) | Publish

  datatype Event = Event(thread: nat, wish: Wish)

  function Init(data: seq<int>, threads: nat): (s: State)
    ensures Inv(s)
  {
    State(0, false, data, seq(threads, _ => Outside), 0, [data])
  }

  function Bump(s: State): State {
    s.(word := (s.word + 1) % TWO32, bumps := s.bumps + 1)
  }

  // The shared state after thread's next atomic operation.
  function Shared(s: State, pc: Pc, wish: Wish): State {
    match pc
    case Acquiring => s.(held := true)
    case Beginning => Bump(s)
    case Writing =>
      if wish.Store? && wish.index < |s.data| then s.(data := s.data[wish.index := wish.value])
      else if wish == Publish then Bump(s).(published := s.published + [s.data])
      else s
    case Releasing => s.(held := false)
    case _ => s
  }

  function Next(s: State, pc: Pc, wish: Wish): Pc {
    match pc
    case Outside => if wish == ToRead then Spinning else if wish == ToWrite then Acquiring else Outside
    case Acquiring => if s.held then Acquiring else Beginning
    case Beginning => Writing
    case Writing => if wish == Publish then Releasing else Writing
    case Releasing => Outside
    case Spinning => if s.word % 2 == 0 then Copying(s.word, s.bumps, []) else Spinning
    case Copying(start, at, copy) =>
      if |copy| < |s.data| then Copying(start, at, copy + [s.data[|copy|]])
      else if s.word == start && s.word % 2 == 0 then Kept(at, s.bumps, copy)
      else Spinning
    case Kept(_, _, _) => Outside
  }

  function Step(s: State, e: Event): State {
    if e.thread < |s.pcs| then
      var pc := s.pcs[e.thread];
      Shared(s, pc, e.wish).(pcs := s.pcs[e.thread := Next(s, pc, e.wish)])
    else s
  }

  function Run(s: State, events: seq<Event>): State
    decreases |events|
  {
    if events == [] then s else Run(Step(s, events[0]), events[1..])
  }

  // ---- The invariant ----

  predicate Holds(pc: Pc) {
    pc.Beginning? || pc.Writing? || pc.Releasing?
  }

  /** The writer lock admits one thread at a time, and is taken exactly while one is in. */
  ghost predicate OneWriter(held: bool, pcs: seq<Pc>) {
    && (forall i, j :: 0 <= i < |pcs| && 0 <= j < |pcs| && Holds(pcs[i]) && Holds(pcs[j]) ==> i == j)
    && (held <==> exists i :: 0 <= i < |pcs| && Holds(pcs[i]))
  }

  /** The counter is odd exactly while a writer is changing the data; while it is even the
      data is the last published. */
  ghost predicate Parity(s: State) {
    && s.word == s.bumps % TWO32
    && |s.published| == s.bumps / 2 + 1
    && (s.bumps % 2 == 1 <==> exists i :: 0 <= i < |s.pcs| && s.pcs[i].Writing?)
    && (s.bumps % 2 == 0 ==> s.data == s.published[s.bumps / 2])
  }

  ghost predicate PcOk(s: State, pc: Pc) {
    match pc
    case Copying(start, at, copy) =>
      && start == at % TWO32 && at % 2 == 0 && at <= s.bumps && |copy| <= |s.data|
      && (at == s.bumps ==> copy == s.data[..|copy|])
    case Kept(at, end, copy) =>
      && at % 2 == 0 && end % 2 == 0 && at <= end <= s.bumps && at % TWO32 == end % TWO32
      && at / 2 < |s.published| && (at == end ==> copy == s.published[at / 2])
    case _ => true
  }

  ghost predicate Inv(s: State) {
    && OneWriter(s.held, s.pcs) && Parity(s)
    && forall i :: 0 <= i < |s.pcs| ==> PcOk(s, s.pcs[i])
  }

  // ---- One step ----

  lemma WriterStep(s: State, i: nat, wish: Wish)
    requires OneWriter(s.held, s.pcs) && i < |s.pcs|
    ensures var s' := Step(s, Event(i, wish)); OneWriter(s'.held, s'.pcs)
  {
    var s' := Step(s, Event(i, wish));
    assert s'.pcs[i] == Next(s, s.pcs[i], wish);
    if j :| 0 <= j < |s.pcs| && Holds(s.pcs[j]) {
      assert s.held;
      assert s'.pcs[j] == if i == j then Next(s, s.pcs[i], wish) else s.pcs[j];
    }
  }

  lemma CounterStep(s: State, i: nat, wish: Wish)
    requires Inv(s) && i < |s.pcs|
    ensures Parity(Step(s, Event(i, wish)))
  {
    var s' := Step(s, Event(i, wish));
    var pc := s.pcs[i];
    assert s'.pcs[i] == Next(s, pc, wish);
    if Holds(pc) {
      assert forall j :: 0 <= j < |s.pcs| && j != i ==> !Holds(s.pcs[j]) && s'.pcs[j] == s.pcs[j];
    } else {
      assert forall j :: 0 <= j < |s.pcs| && s.pcs[j].Writing? ==> s'.pcs[j].Writing?;
      assert forall j :: 0 <= j < |s.pcs| && s'.pcs[j].Writing? ==> s.pcs[j].Writing?;
    }
  }

  // What a thread knows survives the steps of others: data moves only while the counter is odd.
  lemma OthersKeep(s: State, s': State, pc: Pc)
    requires PcOk(s, pc) && |s'.data| == |s.data| && s.bumps <= s'.bumps && s.published <= s'.published
    requires s.bumps == s'.bumps && s.bumps % 2 == 0 ==> s'.data == s.data
    ensures PcOk(s', pc)
  {
  }

  // Equal 32-bit readings of a growing counter: as many writes as make whole laps of it.
  lemma Lapped(at: nat, end: nat)
    requires at <= end && at % 2 == 0 && end % 2 == 0
    ensures at / 2 <= end / 2
    ensures at % TWO32 == end % TWO32 <==> (end / 2 - at / 2) % LAP == 0
  {
  }

  lemma OwnStep(s: State, pc: Pc, wish: Wish)
    requires Parity(s) && PcOk(s, pc)
    ensures PcOk(s, Next(s, pc, wish))
  {
    if pc.Copying? && |pc.copy| < |s.data| && pc.at == s.bumps {
      assert s.data[..|pc.copy| + 1] == s.data[..|pc.copy|] + [s.data[|pc.copy|]];
    }
  }

  lemma StepKeepsInv(s: State, e: Event)
    requires Inv(s)
    ensures Inv(Step(s, e))
  {
    var i := e.thread;
    if i < |s.pcs| {
      var s' := Step(s, e);
      WriterStep(s, i, e.wish);
      CounterStep(s, i, e.wish);
      forall j | 0 <= j < |s'.pcs|
        ensures PcOk(s', s'.pcs[j])
      {
        assert PcOk(s, s.pcs[j]);
        if j == i {
          OwnStep(s, s.pcs[i], e.wish);
        }
        OthersKeep(s, s', s'.pcs[j]);
      }
    }
  }

  lemma {:induction false} RunKeepsInv(s: State, events: seq<Event>)
    requires Inv(s)
    ensures Inv(Run(s, events))
    decreases |events|
  {
    if events == [] {
    } else {
      StepKeepsInv(s, events[0]);
      RunKeepsInv(Step(s, events[0]), events[1..]);
    }
  }

  /** The thread kept a copy that was not the data published when it started, after so many writes
      were published while it copied. */
  ghost predicate KeptTorn(s: State, i: nat, writes: nat) {
    && i < |s.pcs| && s.pcs[i].Kept? && s.pcs[i].at / 2 < |s.published|
    && s.pcs[i].end / 2 - s.pcs[i].at / 2 == writes
    && s.pcs[i].copy != s.published[s.pcs[i].at / 2]
  }

  /** In every run, a copy a reader kept is one published snapshot, the one that was current when it
      started, if fewer than 2^31 writes were published while it copied. */
  lemma NoTornReads(data: seq<int>, threads: nat, events: seq<Event>, i: nat)
    requires i < |Run(Init(data, threads), events).pcs| && Run(Init(data, threads), events).pcs[i].Kept?
    ensures var s := Run(Init(data, threads), events);
            var pc := s.pcs[i];
            && pc.at / 2 < |s.published| && pc.at <= pc.end
            && (pc.end / 2 - pc.at / 2 < LAP ==> pc.copy == s.published[pc.at / 2])
  {
    RunKeepsInv(Init(data, threads), events);
    var s := Run(Init(data, threads), events);
    assert PcOk(s, s.pcs[i]);
    Lapped(s.pcs[i].at, s.pcs[i].end);
  }

  // ---- A whole lap of the counter ----

  ghost predicate Reaches(s: State, t: State) {
    exists events :: Run(s, events) == t
  }

  lemma {:induction false} RunOn(s: State, events: seq<Event>, e: Event)
    ensures Run(s, events + [e]) == Step(Run(s, events), e)
    decreases |events|
  {
    if events == [] {
      assert ([] + [e])[1..] == [];
    } else {
      assert (events + [e])[1..] == events[1..] + [e];
      RunOn(Step(s, events[0]), events[1..], e);
    }
  }

  // A step of the reader or the writer, of two threads.
  lemma Moves(s: State, t: State, thread: nat, wish: Wish, t': State)
    requires Reaches(s, t) && |t.pcs| == 2 && thread < 2
    requires var pc := Next(t, t.pcs[thread], wish);
             t' == Shared(t, t.pcs[thread], wish).(pcs := if thread == 0 then [pc, t.pcs[1]] else [t.pcs[0], pc])
    ensures Reaches(s, t')
  {
    var events :| Run(s, events) == t;
    var e := Event(thread, wish);
    RunOn(s, events, e);
    assert Step(t, e).pcs == t'.pcs;
  }

  // Reader 0 has made `copy`, and writer 1 is at `pc`, after `bumps` bumps with `n` snapshots
  // published, all of them [0].
  function Lap(copy: seq<int>, held: bool, pc: Pc, bumps: nat, n: nat): State {
    State(bumps % TWO32, held, [0], [Copying(0, 0, copy), pc], bumps, seq(n, _ => [0]))
  }

  lemma FirstSteps()
    ensures Reaches(Init([0], 2), Lap([], true, Writing, 1, 1))
  {
    var s := Init([0], 2);
    assert s.published == seq(1, _ => [0]) && s.pcs == [Outside, Outside] && Run(s, []) == s;
    var s1 := s.(pcs := [Spinning, Outside]);
    Moves(s, s, 0, ToRead, s1);
    Moves(s, s1, 0, ToRead, Lap([], false, Outside, 0, 1));
    Moves(s, Lap([], false, Outside, 0, 1), 1, ToWrite, Lap([], false, Acquiring, 0, 1));
    Moves(s, Lap([], false, Acquiring, 0, 1), 1, ToWrite, Lap([], true, Beginning, 0, 1));
    Moves(s, Lap([], true, Beginning, 0, 1), 1, ToWrite, Lap([], true, Writing, 1, 1));
  }

  // The writer finishes its write.
  lemma Publishes(s: State, copy: seq<int>, bumps: nat, n: nat)
    requires Reaches(s, Lap(copy, true, Writing, bumps, n))
    ensures Reaches(s, Lap(copy, false, Outside, bumps + 1, n + 1))
  {
    assert seq(n, _ => [0]) + [[0]] == seq(n + 1, _ => [0]);
    var released := Lap(copy, true, Releasing, bumps + 1, n + 1);
    Moves(s, Lap(copy, true, Writing, bumps, n), 1, Publish, released);
    Moves(s, released, 1, ToWrite, Lap(copy, false, Outside, bumps + 1, n + 1));
  }

  // The reader copies the 7 that the first write stores and takes back.
  lemma FirstWrite()
    ensures Reaches(Init([0], 2), Lap([7], false, Outside, 2, 2))
  {
    var s := Init([0], 2);
    FirstSteps();
    var t := Lap([], true, Writing, 1, 1);
    var stored := t.(data := [7]);
    var copied := stored.(pcs := [Copying(0, 0, [7]), Writing]);
    assert [0][0 := 7] == [7] && [7][0 := 0] == [0] && [] + [7] == [7];
    Moves(s, t, 1, Store(0, 7), stored);
    Moves(s, stored, 0, ToRead, copied);
    Moves(s, copied, 1, Store(0, 0), Lap([7], true, Writing, 1, 1));
    Publishes(s, [7], 1, 1);
  }

  // One more write that stores nothing.
  lemma NextWrite(s: State, bumps: nat, n: nat)
    requires Reaches(s, Lap([7], false, Outside, bumps, n))
    ensures Reaches(s, Lap([7], false, Outside, bumps + 2, n + 1))
  {
    Moves(s, Lap([7], false, Outside, bumps, n), 1, ToWrite, Lap([7], false, Acquiring, bumps, n));
    Moves(s, Lap([7], false, Acquiring, bumps, n), 1, ToWrite, Lap([7], true, Beginning, bumps, n));
    Moves(s, Lap([7], true, Beginning, bumps, n), 1, ToWrite, Lap([7], true, Writing, bumps + 1, n));
    Publishes(s, [7], bumps + 1, n);
  }

  lemma {:induction false} ManyWrites(writes: nat)
    requires 0 < writes
    ensures Reaches(Init([0], 2), Lap([7], false, Outside, 2 * writes, writes + 1))
  {
    if writes == 1 {
      FirstWrite();
    } else {
      ManyWrites(writes - 1);
      NextWrite(Init([0], 2), 2 * (writes - 1), writes);
    }
  }

  /** After a whole number of laps the reader keeps a copy that was never published. */
  lemma KeepsNeverPublished(writes: nat)
    requires 0 < writes && writes % LAP == 0
    ensures exists s :: Reaches(Init([0], 2), s) && KeptTorn(s, 0, writes) && s.pcs[0].copy !in s.published
  {
    ManyWrites(writes);
    Lapped(0, 2 * writes);
    var s := Lap([7], false, Outside, 2 * writes, writes + 1);
    var s' := s.(pcs := [Kept(0, 2 * writes, [7]), Outside]);
    Moves(Init([0], 2), s, 0, ToRead, s');
  }

  /** A torn copy is kept in some run with so many writes exactly if they are one or more whole laps
      of the counter, 2^31 writes each. */
  lemma TornExact(writes: nat)
    ensures (exists data, threads: nat, s, i: nat :: Reaches(Init(data, threads), s) && KeptTorn(s, i, writes))
       <==> 0 < writes && writes % LAP == 0
  {
    if data, threads: nat, s, i: nat :| Reaches(Init(data, threads), s) && KeptTorn(s, i, writes) {
      var events :| Run(Init(data, threads), events) == s;
      RunKeepsInv(Init(data, threads), events);
      assert PcOk(s, s.pcs[i]);
      Lapped(s.pcs[i].at, s.pcs[i].end);
    }
    if 0 < writes && writes % LAP == 0 {
      KeepsNeverPublished(writes);
    }
  }

  // n steps in a row by thread i.
  function Alone(s: State, i: nat, n: nat): State
    decreases n
  {
    if n == 0 then s else Alone(Step(s, Event(i, ToRead)), i, n - 1)
  }

  // One step of a reader that nobody disturbed.
  lemma CopiesOne(s: State, i: nat)
    requires Inv(s) && i < |s.pcs| && s.pcs[i].Copying? && s.pcs[i].at == s.bumps
    ensures var s' := Step(s, Event(i, ToRead));
            var copy := s.pcs[i].copy;
            && s'.data == s.data && s'.bumps == s.bumps && |s'.pcs| == |s.pcs| && |copy| <= |s.data|
            && s'.pcs[i] == (if |copy| < |s.data| then Copying(s.pcs[i].start, s.bumps, copy + [s.data[|copy|]])
                             else Kept(s.bumps, s.bumps, s.data))
  {
    assert PcOk(s, s.pcs[i]);
  }

  lemma {:induction false} CopiesOn(s: State, i: nat, n: nat)
    requires Inv(s) && i < |s.pcs| && s.pcs[i].Copying? && s.pcs[i].at == s.bumps
    requires n == |s.data| - |s.pcs[i].copy|
    ensures var s' := Alone(s, i, n + 1); i < |s'.pcs| && s'.pcs[i] == Kept(s.bumps, s.bumps, s.data)
    decreases n
  {
    var s1 := Step(s, Event(i, ToRead));
    CopiesOne(s, i);
    if n == 0 {
      assert Alone(s1, i, 0) == s1;
    } else {
      StepKeepsInv(s, Event(i, ToRead));
      CopiesOn(s1, i, n - 1);
    }
  }

  /** A reader left alone while nobody writes needs no retry, and keeps the current data. */
  lemma QuietRead(s: State, i: nat)
    requires Inv(s) && i < |s.pcs| && s.pcs[i] == Spinning && s.bumps % 2 == 0
    ensures var s' := Alone(s, i, |s.data| + 2); i < |s'.pcs| && s'.pcs[i] == Kept(s.bumps, s.bumps, s.data)
  {
    StepKeepsInv(s, Event(i, ToRead));
    CopiesOn(Step(s, Event(i, ToRead)), i, |s.data|);
  }
}
