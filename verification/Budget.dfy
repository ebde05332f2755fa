/**
 The process budget: threads on any CPU consume from it and refill it through
 compare-and-swap loops. Every atomic operation is one step of a state machine, and
 a run is any interleaving of the steps of any number of threads.
 */
module Budget {

  import opened Words

  /** Where a thread stands: the atomic operation it does next, and its locals. */
  datatype Pc =
    | Idle
    | Loading(request: nat)
    | Taking(request: nat, seen: nat)
    | Starting(now: nat)
    | Opening(now: nat)
    | Opened
    | Topping
    | Looking(now: nat)
    | Claiming(now: nat, seen: nat)
    | Granting(refills: nat)
    | Adding(refills: nat, seen: nat)

  /** The shared words, the clock, and the threads; then the history: ticks consumed so far,
      the tick of the first refill, and the whole periods claimed since. */
  datatype State = State(max: nat, period: nat, live: bool, remaining: nat, last: nat, clock: nat, pcs: seq<Pc>,
                         consumed: nat, first: nat, claimed: nat)

  datatype Call = Consume(request: nat) | Refill

  datatype Event = Tick | Revoke | Go(thread: nat, call: Call)

  /** A process right after its root authority was minted. */
  function Minted(max: nat, period: nat, clock: nat, threads: nat): (s: State)
    requires 0 < clock
    ensures Inv(s)
  {
    var pcs := seq(threads, _ => Idle);
    NoneOwed(pcs);
    TimesSmall(max);
    State(max, if period < 1 then 1 else period, true, max, 0, clock, pcs, 0, 0, 0)
  }

  function At(s: State, i: nat, pc: Pc): State
    requires i < |s.pcs|
  {
    s.(pcs := s.pcs[i := pc])
  }

  function Min(a: nat, b: nat): nat {
    if a < b then a else b
  }

  // ---- Steps that write ----

  // The compare-and-swap of process_budget_try_consume that succeeds.
  function Take(s: State, i: nat, request: nat): State
    requires i < |s.pcs|
  {
    var taken := Min(request, s.remaining);
    At(s, i, Idle).(remaining := s.remaining - taken, consumed := s.consumed + taken)
  }

  // The first refill sets its tick.
  function Open(s: State, i: nat, now: nat): State
    requires i < |s.pcs|
  {
    At(s, i, Opened).(last := now, first := now)
  }

  // A later refill claims every whole period up to its tick.
  function Claim(s: State, i: nat, now: nat): State
    requires i < |s.pcs| && 0 < s.period && s.last <= now
  {
    var refills := (now - s.last) / s.period;
    At(s, i, Granting(refills)).(last := s.last + refills * s.period, claimed := s.claimed + refills)
  }

  // The new budget, in 64-bit arithmetic.
  function Raised(max: nat, refills: nat, current: nat): nat {
    var grant := refills * max % TWO64;
    if (current + grant) % TWO64 < current then max else Min(current + grant, max)
  }

  // ---- Steps that only read, or swap in vain ----

  function Moved(s: State, pc: Pc, call: Call): Pc
    requires 0 < s.period
  {
    match pc
    case Idle =>
      (match call
       case Consume(request) => if request == 0 then Idle else Loading(request)
       case Refill => if s.live && s.max != 0 then Starting(s.clock) else Idle)
    case Loading(request) => if s.remaining == 0 then Idle else Taking(request, s.remaining)
    case Taking(request, seen) => Loading(request)
    case Starting(now) => if s.last == 0 then Opening(now) else if now <= s.last then Idle else Looking(now)
    case Opening(now) => Idle
    case Opened => if s.remaining == 0 then Topping else Idle
    case Topping => Topping
    case Looking(now) =>
      if now <= s.last || (now - s.last) / s.period == 0 then Idle else Claiming(now, s.last)
    case Claiming(now, seen) => Looking(now)
    case Granting(refills) => Adding(refills, s.remaining)
    case Adding(refills, seen) => Granting(refills)
  }

  // ---- Runs ----

  function Advance(s: State, i: nat, call: Call): State
    requires i < |s.pcs| && 0 < s.period && PcOk(s, s.pcs[i])
  {
    var pc := s.pcs[i];
    if pc.Taking? && s.remaining == pc.seen then Take(s, i, pc.request)
    else if pc.Opening? && s.last == 0 then Open(s, i, pc.now)
    else if pc.Topping? then At(s, i, Idle).(remaining := s.max)
    else if pc.Claiming? && s.last == pc.seen then Claim(s, i, pc.now)
    else if pc.Adding? && s.remaining == pc.seen then
      At(s, i, Idle).(remaining := Raised(s.max, pc.refills, s.remaining))
    else At(s, i, Moved(s, pc, call))
  }

  function Step(s: State, e: Event): State
    requires Inv(s)
  {
    match e
    case Tick => s.(clock := s.clock + 1)
    case Revoke => s.(live := false, remaining := 0)
    case Go(i, call) => if i < |s.pcs| then assert PcOk(s, s.pcs[i]); Advance(s, i, call) else s
  }

  // ---- Multiples ----

  function Times(n: nat, unit: nat): nat {
    if n == 0 then 0 else Times(n - 1, unit) + unit
  }

  lemma {:induction false} TimesIsProduct(n: nat, unit: nat)
    ensures Times(n, unit) == n * unit
  {
    if n == 0 {
    } else {
      TimesIsProduct(n - 1, unit);
    }
  }

  lemma TimesSmall(unit: nat)
    ensures Times(1, unit) == unit && Times(2, unit) == 2 * unit
  {
    TimesIsProduct(1, unit);
    TimesIsProduct(2, unit);
  }

  lemma {:induction false} TimesSum(a: nat, b: nat, unit: nat)
    ensures Times(a + b, unit) == Times(a, unit) + Times(b, unit)
  {
    if b == 0 {
    } else {
      TimesSum(a, b - 1, unit);
    }
  }

  // ---- The invariant ----

  /** Full budgets a thread still has the right to add. */
  function Owed(pc: Pc): nat {
    match pc
    case Opened => 1
    case Topping => 1
    case Granting(refills) => refills
    case Adding(refills, _) => refills
    case _ => 0
  }

  function AllOwed(pcs: seq<Pc>): nat {
    if pcs == [] then 0 else Owed(pcs[0]) + AllOwed(pcs[1..])
  }

  lemma {:induction false} OwedUpdate(pcs: seq<Pc>, i: nat, pc: Pc)
    requires i < |pcs|
    ensures AllOwed(pcs[i := pc]) + Owed(pcs[i]) == AllOwed(pcs) + Owed(pc)
  {
    if i == 0 {
      assert pcs[i := pc][1..] == pcs[1..];
    } else {
      assert pcs[i := pc][1..] == pcs[1..][i - 1 := pc];
      OwedUpdate(pcs[1..], i - 1, pc);
    }
  }

  predicate PcOk(s: State, pc: Pc)
    requires 0 < s.period
  {
    match pc
    case Loading(request) => 0 < request
    case Taking(request, seen) => 0 < request
    case Starting(now) => 0 < now <= s.clock
    case Opening(now) => 0 < now <= s.clock
    case Looking(now) => 0 < now <= s.clock && s.last != 0
    case Claiming(now, seen) => seen < now <= s.clock && s.last != 0 && 0 < (now - seen) / s.period
    case Granting(refills) => 0 < refills
    case Adding(refills, _) => 0 < refills
    case _ => true
  }

  // Budgets that may still be added: those owed, and the one of the first refill.
  function Pending(s: State): nat {
    AllOwed(s.pcs) + if s.last == 0 then 1 else 0
  }

  predicate Inv(s: State) {
    && 0 < s.period && 0 < s.clock && s.remaining <= s.max
    && (forall i :: 0 <= i < |s.pcs| ==> PcOk(s, s.pcs[i]))
    && (if s.last == 0 then s.claimed == 0
        else 0 < s.first && s.last == s.first + Times(s.claimed, s.period) <= s.clock)
    && s.consumed + s.remaining + Times(Pending(s), s.max) <= Times(2 + s.claimed, s.max)
  }

  lemma Balance(total: nat, pending: nat, limit: nat, total': nat, pending': nat, added: nat, earned: nat, unit: nat)
    requires total + Times(pending, unit) <= Times(limit, unit)
    requires total' <= total + Times(added, unit) && pending' + added <= pending + earned
    ensures total' + Times(pending', unit) <= Times(limit + earned, unit)
  {
    TimesSum(limit, earned, unit);
    TimesSum(pending, earned, unit);
    TimesSum(pending', added, unit);
    TimesSum(pending' + added, pending + earned - pending' - added, unit);
  }

  lemma CreditStep(before: State, after: State, added: nat, earned: nat)
    requires Inv(before) && after.max == before.max && after.claimed == before.claimed + earned
    requires after.consumed + after.remaining <= before.consumed + before.remaining + Times(added, before.max)
    requires Pending(after) + added <= Pending(before) + earned
    ensures after.consumed + after.remaining + Times(Pending(after), after.max) <= Times(2 + after.claimed, after.max)
  {
    Balance(before.consumed + before.remaining, Pending(before), 2 + before.claimed,
            after.consumed + after.remaining, Pending(after), added, earned, before.max);
    assert 2 + before.claimed + earned == 2 + after.claimed;
  }

  lemma PcsOk(before: State, after: State, i: nat, pc: Pc)
    requires Inv(before) && i < |before.pcs| && after.pcs == before.pcs[i := pc]
    requires after.period == before.period && after.clock == before.clock && (before.last != 0 ==> after.last != 0)
    requires PcOk(after, pc)
    ensures forall k :: 0 <= k < |after.pcs| ==> PcOk(after, after.pcs[k])
  {
    forall k | 0 <= k < |after.pcs|
      ensures PcOk(after, after.pcs[k])
    {
      assert PcOk(before, before.pcs[k]);
    }
  }

  // A step that only moves its thread and perhaps shrinks the budget by what it consumes.
  lemma QuietStep(s: State, s': State, i: nat, pc: Pc)
    requires Inv(s) && i < |s.pcs| && s'.pcs == s.pcs[i := pc] && Owed(pc) <= Owed(s.pcs[i])
    requires s' == s.(pcs := s'.pcs, remaining := s'.remaining, consumed := s'.consumed)
    requires s'.remaining <= s.remaining && s'.consumed + s'.remaining == s.consumed + s.remaining
    requires PcOk(s', pc)
    ensures Inv(s')
  {
    OwedUpdate(s.pcs, i, pc);
    PcsOk(s, s', i, pc);
    CreditStep(s, s', 0, 0);
  }

  // A step that adds to the budget on the strength of what its thread is owed.
  lemma AddingStep(s: State, s': State, i: nat)
    requires Inv(s) && i < |s.pcs| && 0 < Owed(s.pcs[i])
    requires s' == At(s, i, Idle).(remaining := s'.remaining) && s'.remaining <= s.max
    ensures Inv(s')
  {
    OwedUpdate(s.pcs, i, Idle);
    PcsOk(s, s', i, Idle);
    CreditStep(s, s', 1, 0);
  }

  lemma WholePeriods(x: nat, unit: nat)
    requires 0 < unit
    ensures x / unit * unit == Times(x / unit, unit) <= x
  {
    TimesIsProduct(x / unit, unit);
  }

  lemma ClaimStep(s: State, i: nat)
    requires Inv(s) && i < |s.pcs| && s.pcs[i].Claiming? && PcOk(s, s.pcs[i]) && s.last == s.pcs[i].seen
    ensures Inv(Claim(s, i, s.pcs[i].now))
  {
    var now, seen := s.pcs[i].now, s.pcs[i].seen;
    var s' := Claim(s, i, now);
    var refills := (now - seen) / s.period;
    OwedUpdate(s.pcs, i, Granting(refills));
    WholePeriods(now - seen, s.period);
    TimesSum(s.claimed, refills, s.period);
    PcsOk(s, s', i, Granting(refills));
    CreditStep(s, s', 0, refills);
  }

  lemma OpenStep(s: State, i: nat)
    requires Inv(s) && i < |s.pcs| && s.pcs[i].Opening? && PcOk(s, s.pcs[i]) && s.last == 0
    ensures Inv(Open(s, i, s.pcs[i].now))
  {
    var s' := Open(s, i, s.pcs[i].now);
    OwedUpdate(s.pcs, i, Opened);
    PcsOk(s, s', i, Opened);
    CreditStep(s, s', 0, 0);
  }

  lemma StepKeepsInv(s: State, e: Event)
    requires Inv(s)
    ensures Inv(Step(s, e))
  {
    match e
    case Tick =>
      assert forall i :: 0 <= i < |s.pcs| ==> PcOk(Step(s, e), s.pcs[i]) by {
        forall i | 0 <= i < |s.pcs|
          ensures PcOk(Step(s, e), s.pcs[i])
        {
          assert PcOk(s, s.pcs[i]);
        }
      }
      CreditStep(s, Step(s, e), 0, 0);
    case Revoke =>
      assert forall i :: 0 <= i < |s.pcs| ==> PcOk(Step(s, e), s.pcs[i]) by {
        forall i | 0 <= i < |s.pcs|
          ensures PcOk(Step(s, e), s.pcs[i])
        {
          assert PcOk(s, s.pcs[i]);
        }
      }
      CreditStep(s, Step(s, e), 0, 0);
    case Go(i, call) =>
      if i < |s.pcs| {
        AdvanceKeepsInv(s, i, call);
      }
  }

  lemma MovedOk(s: State, pc: Pc, call: Call)
    requires 0 < s.period && 0 < s.clock && PcOk(s, pc)
    ensures PcOk(s, Moved(s, pc, call)) && Owed(Moved(s, pc, call)) <= Owed(pc)
  {
  }

  lemma AdvanceKeepsInv(s: State, i: nat, call: Call)
    requires Inv(s) && i < |s.pcs| && PcOk(s, s.pcs[i])
    ensures Inv(Advance(s, i, call))
  {
    var pc := s.pcs[i];
    if pc.Taking? && s.remaining == pc.seen {
      QuietStep(s, Take(s, i, pc.request), i, Idle);
    } else if pc.Opening? && s.last == 0 {
      OpenStep(s, i);
    } else if pc.Topping? || (pc.Adding? && s.remaining == pc.seen) {
      AddingStep(s, Advance(s, i, call), i);
    } else if pc.Claiming? && s.last == pc.seen {
      ClaimStep(s, i);
    } else {
      MovedOk(s, pc, call);
      QuietStep(s, At(s, i, Moved(s, pc, call)), i, Moved(s, pc, call));
    }
  }

  // ---- Whole runs ----

  ghost function Run(s: State, events: seq<Event>): (r: State)
    requires Inv(s)
    ensures Inv(r) && r.max == s.max && r.period == s.period
    decreases |events|
  {
    if events == [] then s
    else
      StepKeepsInv(s, events[0]);
      Run(Step(s, events[0]), events[1..])
  }

  lemma {:induction false} NoneOwed(pcs: seq<Pc>)
    requires forall i :: 0 <= i < |pcs| ==> pcs[i] == Idle
    ensures AllOwed(pcs) == 0
  {
    if pcs == [] {
    } else {
      NoneOwed(pcs[1..]);
    }
  }

  /** In every interleaving after a mint the budget never exceeds its maximum `max`, and what has
      been consumed by tick `clock` is at most `max` before the first refill and
      2*max + max*floor((clock - first)/period) after it. */
  lemma ConsumptionBound(max: nat, period: nat, clock: nat, threads: nat, events: seq<Event>)
    requires 0 < clock
    ensures var s := Run(Minted(max, period, clock, threads), events);
            && s.remaining <= max
            && (s.last == 0 ==> s.consumed <= max)
            && (s.last != 0 ==> s.first <= s.clock && s.consumed <= 2 * max + max * ((s.clock - s.first) / s.period))
  {
    var s := Run(Minted(max, period, clock, threads), events);
    if s.last == 0 {
      TimesSum(AllOwed(s.pcs), 1, max);
      TimesSmall(max);
    } else {
      TimesIsProduct(2 + s.claimed, max);
      Whole(s.claimed, s.period, s.clock - s.first);
      Scale(max, s.claimed, (s.clock - s.first) / s.period);
    }
  }

  lemma Below(n: nat, q: nat, unit: nat)
    requires Times(n, unit) < Times(q + 1, unit)
    ensures n <= q
  {
    if q < n {
      TimesSum(q + 1, n - q - 1, unit);
    }
  }

  lemma Whole(n: nat, unit: nat, x: nat)
    requires 0 < unit && Times(n, unit) <= x
    ensures n <= x / unit
  {
    TimesIsProduct(x / unit, unit);
    Below(n, x / unit, unit);
  }

  lemma Scale(m: nat, a: nat, b: nat)
    requires a <= b
    ensures (2 + a) * m <= 2 * m + m * b
  {
    assert a * m <= b * m;
  }

  lemma {:induction false} RunOn(s: State, events: seq<Event>, e: Event)
    requires Inv(s)
    ensures Run(s, events + [e]) == Step(Run(s, events), e)
    decreases |events|
  {
    if events == [] {
      assert ([] + [e])[1..] == [];
    } else {
      StepKeepsInv(s, events[0]);
      assert (events + [e])[1..] == events[1..] + [e];
      RunOn(Step(s, events[0]), events[1..], e);
    }
  }

  ghost predicate Reaches(s: State, t: State)
    requires Inv(s)
  {
    exists events :: Run(s, events) == t
  }

  lemma ReachesStep(s: State, t: State, e: Event, t': State)
    requires Inv(s) && Reaches(s, t) && Inv(t) && Step(t, e) == t'
    ensures Reaches(s, t') && Inv(t')
  {
    var events :| Run(s, events) == t;
    RunOn(s, events, e);
    StepKeepsInv(t, e);
  }

  // The lone thread of `a` consumes the whole budget it finds.
  lemma Consumes(s: State, a: State)
    requires Inv(s) && Inv(a) && Reaches(s, a) && a.pcs == [Idle] && a.remaining == a.max > 0
    ensures var b := a.(remaining := 0, consumed := a.consumed + a.max); Reaches(s, b) && Inv(b)
  {
    var e := Go(0, Consume(a.max));
    var b := a.(pcs := [Loading(a.max)]);
    var c := a.(pcs := [Taking(a.max, a.max)]);
    ReachesStep(s, a, e, b);
    ReachesStep(s, b, e, c);
    ReachesStep(s, c, e, a.(remaining := 0, consumed := a.consumed + a.max));
  }

  // Its first refill, of an empty budget.
  lemma FirstRefill(s: State, a: State)
    requires Inv(s) && Inv(a) && Reaches(s, a) && a.pcs == [Idle] && a.live && a.max > 0
    requires a.remaining == 0 && a.last == 0
    ensures var b := a.(remaining := a.max, last := a.clock, first := a.clock); Reaches(s, b) && Inv(b)
  {
    var e := Go(0, Refill);
    var b := a.(pcs := [Starting(a.clock)]);
    var c := a.(pcs := [Opening(a.clock)]);
    var d := a.(pcs := [Opened], last := a.clock, first := a.clock);
    var f := d.(pcs := [Topping]);
    ReachesStep(s, a, e, b);
    ReachesStep(s, b, e, c);
    ReachesStep(s, c, e, d);
    ReachesStep(s, d, e, f);
    ReachesStep(s, f, e, a.(remaining := a.max, last := a.clock, first := a.clock));
  }

  // A later refill, n periods after the last, goes to claim them.
  lemma NextLook(s: State, a: State)
    requires Inv(s) && Inv(a) && Reaches(s, a) && a.pcs == [Idle] && a.live && 0 < a.max && 0 < a.last < a.clock
    ensures var b := a.(pcs := [Looking(a.clock)]); Reaches(s, b) && Inv(b)
  {
    var e := Go(0, Refill);
    var b := a.(pcs := [Starting(a.clock)]);
    ReachesStep(s, a, e, b);
    ReachesStep(s, b, e, a.(pcs := [Looking(a.clock)]));
  }

  lemma NextFound(s: State, a: State, n: nat)
    requires Inv(s) && Inv(a) && Reaches(s, a) && a.pcs == [Looking(a.clock)]
    requires 0 < a.last < a.clock == a.last + Times(n, a.period)
    ensures var b := a.(pcs := [Claiming(a.clock, a.last)]); Reaches(s, b) && Inv(b)
  {
    ExactMultiple(n, a.period);
    ReachesStep(s, a, Go(0, Refill), a.(pcs := [Claiming(a.clock, a.last)]));
  }

  lemma ClaimIs(a: State, n: nat)
    requires |a.pcs| == 1 && 0 < a.period && a.clock == a.last + Times(n, a.period)
    ensures Claim(a, 0, a.clock) == a.(pcs := [Granting(n)], last := a.clock, claimed := a.claimed + n)
  {
    ExactMultiple(n, a.period);
    TimesIsProduct(n, a.period);
  }

  lemma NextClaim(s: State, a: State, n: nat)
    requires Inv(s) && Inv(a) && Reaches(s, a) && a.pcs == [Claiming(a.clock, a.last)]
    requires a.clock == a.last + Times(n, a.period)
    ensures var b := a.(pcs := [Granting(n)], last := a.clock, claimed := a.claimed + n); Reaches(s, b) && Inv(b)
  {
    ClaimIs(a, n);
    ReachesStep(s, a, Go(0, Refill), Claim(a, 0, a.clock));
  }

  lemma ClaimsLater(s: State, a: State, n: nat)
    requires Inv(s) && Inv(a) && Reaches(s, a) && a.pcs == [Idle] && a.live && 0 < a.max
    requires 0 < a.last < a.clock == a.last + Times(n, a.period)
    ensures var b := a.(pcs := [Granting(n)], last := a.clock, claimed := a.claimed + n); Reaches(s, b) && Inv(b)
  {
    NextLook(s, a);
    NextFound(s, a.(pcs := [Looking(a.clock)]), n);
    NextClaim(s, a.(pcs := [Claiming(a.clock, a.last)]), n);
  }

  // And then adds them to the empty budget.
  lemma NextGrant(s: State, a: State, n: nat)
    requires Inv(s) && Inv(a) && Reaches(s, a) && 0 < n && a.pcs == [Granting(n)] && a.max < TWO64 && a.remaining == 0
    ensures var b := a.(pcs := [Idle], remaining := Min(n * a.max % TWO64, a.max)); Reaches(s, b) && Inv(b)
  {
    var e := Go(0, Refill);
    RefillFills(a.max, n, 0);
    var b := a.(pcs := [Adding(n, 0)]);
    ReachesStep(s, a, e, b);
    ReachesStep(s, b, e, a.(pcs := [Idle], remaining := Min(n * a.max % TWO64, a.max)));
  }

  lemma {:induction false} Ticks(s: State, a: State, n: nat)
    requires Inv(s) && Inv(a) && Reaches(s, a)
    ensures var b := a.(clock := a.clock + n); Reaches(s, b) && Inv(b)
    decreases n
  {
    if n == 0 {
      assert a.(clock := a.clock + n) == a;
    } else {
      Ticks(s, a, n - 1);
      ReachesStep(s, a.(clock := a.clock + (n - 1)), Tick, a.(clock := a.clock + n));
    }
  }

  /** Left alone, a thread gets what it asks for or all that is left. */
  lemma TakesWhatIsThere(s: State, i: nat, request: nat)
    requires Inv(s) && i < |s.pcs| && s.pcs[i] == Idle && 0 < request
    ensures var e := Go(i, Consume(request));
            && Inv(Step(s, e)) && Inv(Step(Step(s, e), e))
            && var s' := Step(Step(Step(s, e), e), e);
            && s'.remaining == s.remaining - Min(request, s.remaining)
            && s'.consumed == s.consumed + Min(request, s.remaining)
  {
    var e := Go(i, Consume(request));
    StepKeepsInv(s, e);
    var loading := Step(s, e);
    assert loading == At(s, i, Loading(request));
    StepKeepsInv(loading, e);
  }

  /** A refill raises the budget by the 64-bit product of periods and maximum, up to the maximum; so it fills
      it exactly if that reaches the maximum, as it does whenever the product does not wrap around. */
  lemma RefillFills(max: nat, refills: nat, current: nat)
    requires current <= max < TWO64 && 0 < refills
    ensures Raised(max, refills, current) == Min(current + refills * max % TWO64, max)
    ensures Raised(max, refills, current) == max <==> current + refills * max % TWO64 >= max
    ensures refills * max < TWO64 ==> Raised(max, refills, current) == max
  {
    AtLeastOnce(max, refills);
    Overflows(current, refills * max % TWO64);
  }

  lemma AtLeastOnce(max: nat, refills: nat)
    requires 0 < refills
    ensures refills * max >= max
  {
  }

  // The 64-bit test for an overflowing sum.
  lemma Overflows(a: nat, b: nat)
    requires a < TWO64 && b < TWO64
    ensures (a + b) % TWO64 < a <==> a + b >= TWO64
  {
  }

  lemma ExactMultiple(n: nat, unit: nat)
    requires 0 < unit
    ensures Times(n, unit) / unit == n
  {
    var q := Times(n, unit) / unit;
    Whole(n, unit, Times(n, unit));
    WholePeriods(Times(n, unit), unit);
    Below(q, n, unit);
  }

  lemma TwoMore(k: nat, max: nat)
    ensures Times(2 + k, max) == 2 * max + max * k
  {
    TimesSmall(max);
    TimesSum(2, k, max);
    TimesIsProduct(k, max);
  }

  // After k whole periods: everything consumed, twice at the start and once a period since.
  function Drained(max: nat, period: nat, k: nat): State {
    var now := 1 + Times(k, period);
    State(max, period, true, 0, now, now, [Idle], Times(2 + k, max), 1, k)
  }

  lemma DrainsFirst(s: State)
    requires Inv(s) && s == Minted(s.max, s.period, 1, 1) && 0 < s.max
    ensures Reaches(s, Drained(s.max, s.period, 0)) && Inv(Drained(s.max, s.period, 0))
  {
    TimesSmall(s.max);
    assert Run(s, []) == s && s.pcs == [Idle];
    Consumes(s, s);
    var empty := s.(remaining := 0, consumed := s.max);
    FirstRefill(s, empty);
    Consumes(s, empty.(remaining := s.max, last := 1, first := 1));
  }

  // A refill of the empty budget n periods later.
  lemma RefillsLater(s: State, a: State, n: nat)
    requires Inv(s) && Inv(a) && Reaches(s, a) && a.pcs == [Idle] && a.live && a.remaining == 0
    requires 0 < a.last == a.clock && 0 < a.max < TWO64 && 0 < n
    ensures var now := a.clock + Times(n, a.period);
            var b := a.(clock := now, last := now, claimed := a.claimed + n,
                        remaining := Min(n * a.max % TWO64, a.max));
            Reaches(s, b) && Inv(b)
  {
    var now := a.clock + Times(n, a.period);
    AtLeastPeriod(n, a.period);
    Ticks(s, a, Times(n, a.period));
    ClaimsLater(s, a.(clock := now), n);
    NextGrant(s, a.(clock := now, pcs := [Granting(n)], last := now, claimed := a.claimed + n), n);
  }

  lemma AtLeastPeriod(n: nat, period: nat)
    requires 0 < n
    ensures Times(n, period) >= period
  {
  }

  lemma RefillsNext(s: State, a: State)
    requires Inv(s) && Inv(a) && Reaches(s, a) && a.pcs == [Idle] && a.live && a.remaining == 0
    requires 0 < a.last == a.clock && 0 < a.max < TWO64
    ensures var now := a.clock + a.period;
            var b := a.(clock := now, last := now, claimed := a.claimed + 1, remaining := a.max);
            Reaches(s, b) && Inv(b)
  {
    TimesSmall(a.period);
    assert 1 * a.max % TWO64 == a.max;
    RefillsLater(s, a, 1);
  }

  // A further period: the refill, and everything consumed again.
  lemma DrainsNext(s: State, a: State)
    requires Inv(s) && Inv(a) && Reaches(s, a) && a.pcs == [Idle] && a.live && a.remaining == 0
    requires 0 < a.last == a.clock && 0 < a.max < TWO64
    ensures var now := a.clock + a.period;
            var b := a.(clock := now, last := now, claimed := a.claimed + 1, consumed := a.consumed + a.max);
            Reaches(s, b) && Inv(b)
  {
    RefillsNext(s, a);
    var now := a.clock + a.period;
    Consumes(s, a.(clock := now, last := now, claimed := a.claimed + 1, remaining := a.max));
  }

  lemma DrainedNext(max: nat, period: nat, k: nat)
    ensures var a := Drained(max, period, k);
            var now := a.clock + period;
            Drained(max, period, k + 1) == a.(clock := now, last := now, claimed := k + 1, consumed := a.consumed + max)
  {
  }

  lemma {:induction false} Drains(s: State, k: nat)
    requires Inv(s) && s == Minted(s.max, s.period, 1, 1) && 0 < s.max < TWO64
    ensures Reaches(s, Drained(s.max, s.period, k)) && Inv(Drained(s.max, s.period, k))
    decreases k
  {
    if k == 0 {
      DrainsFirst(s);
    } else {
      Drains(s, k - 1);
      DrainsNext(s, Drained(s.max, s.period, k - 1));
      DrainedNext(s.max, s.period, k - 1);
    }
  }

  /** The bound is reached, whatever the maximum, the period and the number k of periods since the first
      refill: the first refill of an empty budget fills it again within its tick, and each period once more. */
  lemma BoundReached(max: nat, period: nat, k: nat)
    requires 0 < max < TWO64
    ensures exists s :: Reaches(Minted(max, period, 1, 1), s) && s.last != 0 && (s.clock - s.first) / s.period == k
                        && s.consumed == 2 * max + max * k
  {
    var s := Minted(max, period, 1, 1);
    Drains(s, k);
    ExactMultiple(k, s.period);
    TwoMore(k, max);
    assert Reaches(s, Drained(max, s.period, k));
  }

  /** A process that used up its budget and then asks for a refill n periods after its first one finds there
      the smaller of its maximum and the 64-bit product. */
  lemma RefillAfter(max: nat, period: nat, n: nat)
    requires 0 < max < TWO64 && 0 < n
    ensures exists s :: Reaches(Minted(max, period, 1, 1), s) && s.pcs == [Idle] && s.claimed == n
                        && (s.clock - s.first) / s.period == n && s.remaining == Min(n * max % TWO64, max)
  {
    var s := Minted(max, period, 1, 1);
    DrainsFirst(s);
    RefillsLater(s, Drained(max, s.period, 0), n);
    ExactMultiple(n, s.period);
  }

  /** So a refill can fall short: with a budget just over half the range, two periods bring two ticks. */
  lemma RefillFallsShort(period: nat)
    ensures exists s :: Reaches(Minted(TWO64 / 2 + 1, period, 1, 1), s) && s.pcs == [Idle] && s.claimed == 2
                        && (s.clock - s.first) / s.period == 2 && s.remaining == 2
  {
    var max := TWO64 / 2 + 1;
    RefillAfter(max, period, 2);
    assert 2 * max == TWO64 + 2;
  }
}
