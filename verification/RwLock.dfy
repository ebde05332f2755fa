/**
 The reader-writer lock word under any interleaving of atomic steps by any number
 of threads.
 */
module RwLock {

  import opened Words

  const WRITER_BIT: nat := 0x8000_0000

  /** Outside; about to load the word for reading; about to swap it; reading; about to swap for
      writing; writing. */
  datatype Pc = Outside | ReadWaiting | ReadLoaded(seen: nat) | Reading | WriteWaiting | Writing

  datatype State = State(word: nat, pcs: seq<Pc>)

  /** What a thread that is outside goes for next. */
  datatype Wish = ToRead | ToWrite

  datatype Event = Event(thread: nat, wish: Wish)

  function Init(threads: nat): (s: State)
    ensures Inv(s)
  {
    var pcs := seq(threads, _ => Outside);
    NoReaders(pcs);
    State(0, pcs)
  }

  // The word and the thread's place after its next atomic operation.
  function Operate(word: nat, pc: Pc, wish: Wish): (nat, Pc) {
    match pc
    case Outside => (word, if wish == ToRead then ReadWaiting else WriteWaiting)
    case ReadWaiting => (word, if word / WRITER_BIT % 2 == 1 then ReadWaiting else ReadLoaded(word))
    case ReadLoaded(seen) => if word == seen then ((seen + 1) % TWO32, Reading) else (word, ReadWaiting)
    case Reading => ((word + TWO32 - 1) % TWO32, Outside)
    case WriteWaiting => if word == 0 then (WRITER_BIT, Writing) else (word, WriteWaiting)
    case Writing => (0, Outside)
  }

  function Step(s: State, e: Event): State {
    if e.thread < |s.pcs| then
      var (word, pc) := Operate(s.word, s.pcs[e.thread], e.wish);
      State(word, s.pcs[e.thread := pc])
    else s
  }

  function Run(s: State, events: seq<Event>): State
    decreases |events|
  {
    if events == [] then s else Run(Step(s, events[0]), events[1..])
  }

  // ---- The invariant ----

  function Readers(pcs: seq<Pc>): (n: nat)
    ensures n <= |pcs|
  {
    if pcs == [] then 0 else (if pcs[0] == Reading then 1 else 0) + Readers(pcs[1..])
  }

  lemma {:induction false} NoReaders(pcs: seq<Pc>)
    ensures Readers(pcs) == 0 <==> forall i :: 0 <= i < |pcs| ==> pcs[i] != Reading
  {
    if pcs == [] {
    } else {
      NoReaders(pcs[1..]);
      assert pcs == [pcs[0]] + pcs[1..];
    }
  }

  lemma {:induction false} ReadersUpdate(pcs: seq<Pc>, i: nat, pc: Pc)
    requires i < |pcs|
    ensures Readers(pcs[i := pc]) + (if pcs[i] == Reading then 1 else 0)
         == Readers(pcs) + (if pc == Reading then 1 else 0)
  {
    if i == 0 {
      assert pcs[i := pc][1..] == pcs[1..];
    } else {
      assert pcs[i := pc][1..] == pcs[1..][i - 1 := pc];
      ReadersUpdate(pcs[1..], i - 1, pc);
    }
  }

  /** A writer excludes everyone else. */
  ghost predicate Exclusive(pcs: seq<Pc>) {
    forall i, j :: 0 <= i < |pcs| && 0 <= j < |pcs| && i != j && pcs[i] == Writing ==>
      pcs[j] != Writing && pcs[j] != Reading
  }

  /** The word is the writer bit when someone writes and the number of readers otherwise. */
  ghost predicate Counts(s: State) {
    s.word == if Writing in s.pcs then WRITER_BIT else Readers(s.pcs)
  }

  ghost predicate Inv(s: State) {
    && Readers(s.pcs) <= WRITER_BIT && Exclusive(s.pcs) && Counts(s)
    && (Writing in s.pcs ==> Readers(s.pcs) == 0)
    && forall i :: 0 <= i < |s.pcs| && s.pcs[i].ReadLoaded? ==> s.pcs[i].seen < WRITER_BIT
  }

  // Who writes after thread `i` moved to `pc`: `i` if it went there, else whoever did before.
  lemma WriterAfter(pcs: seq<Pc>, i: nat, pc: Pc)
    requires Exclusive(pcs) && i < |pcs| && (pc == Writing ==> Writing !in pcs && Readers(pcs) == 0)
    requires pc == Reading ==> Writing !in pcs
    ensures Exclusive(pcs[i := pc])
    ensures Writing in pcs[i := pc] <==> pc == Writing || (Writing in pcs && pcs[i] != Writing)
  {
    NoReaders(pcs);
    var after := pcs[i := pc];
    assert after[i] == pc;
    forall j | 0 <= j < |pcs| && pcs[j] == Writing && pcs[i] != Writing
      ensures Writing in after
    {
      assert after[j] == Writing;
    }
  }

  // The word after an operation, from who holds the lock before and after.
  lemma WordAfter(s: State, i: nat, wish: Wish)
    requires Inv(s) && i < |s.pcs|
    ensures var (word, pc) := Operate(s.word, s.pcs[i], wish);
            && (pc == Writing ==> Writing !in s.pcs && Readers(s.pcs) == 0)
            && (pc == Reading ==> Writing !in s.pcs && s.pcs[i] != Reading && s.word < WRITER_BIT)
            && (s.pcs[i] == Reading ==> Writing !in s.pcs && 0 < s.word)
            && word == (if pc == Writing then WRITER_BIT else if s.pcs[i] == Writing then 0
                        else if pc == Reading then s.word + 1 else if s.pcs[i] == Reading then s.word - 1 else s.word)
  {
    NoReaders(s.pcs);
  }

  lemma StepKeepsInv(s: State, e: Event)
    requires Inv(s)
    ensures Inv(Step(s, e))
  {
    if e.thread < |s.pcs| {
      var i := e.thread;
      var (word, pc) := Operate(s.word, s.pcs[i], e.wish);
      WordAfter(s, i, e.wish);
      WriterAfter(s.pcs, i, pc);
      ReadersUpdate(s.pcs, i, pc);
    }
  }

  lemma {:induction false} RunKeepsInv(s: State, events: seq<Event>)
    requires Inv(s)
    ensures Inv(Run(s, events))
    decreases |events|
  {
    if events == [] {
    } else {
      StepKeepsInv(s, events[0]);
      RunKeepsInv(Step(s, events[0]), events[1..]);
    }
  }

  /** Whatever the interleaving of any number of threads: a writer never holds the lock together with
      anyone, and the word counts the holders exactly, so it is 0 just when nobody holds it. Full
      at 2^31 readers the word turns further readers away, like a writer. */
  lemma Safe(threads: nat, events: seq<Event>)
    ensures var s := Run(Init(threads), events);
            && Exclusive(s.pcs) && Counts(s) && Readers(s.pcs) <= WRITER_BIT
            && (s.word == 0 <==> Writing !in s.pcs && Reading !in s.pcs)
  {
    RunKeepsInv(Init(threads), events);
    NoReaders(Run(Init(threads), events).pcs);
  }

  /** And the lock is not kept from those who may have it: two steps of its own let a waiting reader in
      exactly when nobody writes and fewer than 2^31 read, one step a waiting writer exactly when
      nobody is in. */
  lemma Admits(s: State, i: nat, wish: Wish)
    requires Inv(s) && i < |s.pcs|
    ensures s.pcs[i] == ReadWaiting ==>
      (Step(Step(s, Event(i, wish)), Event(i, wish)).pcs[i] == Reading <==>
        Writing !in s.pcs && Readers(s.pcs) < WRITER_BIT)
    ensures s.pcs[i] == WriteWaiting ==>
      (Step(s, Event(i, wish)).pcs[i] == Writing <==> Writing !in s.pcs && Reading !in s.pcs)
  {
    NoReaders(s.pcs);
  }
}
