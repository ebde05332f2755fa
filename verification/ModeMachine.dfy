/**
 The kernel's mode machine and its Fate log: a 256-entry ring of hash-chained records
 that refines an append-only log, and the transition rules whose every accepted step is
 in it.
 */
module ModeMachine {

  const HISTORY: nat := 256
  const RETRY_LIMIT: nat := 3
  const SECURE_COOLDOWN: nat := 2400
  const LOCKDOWN_WINDOW: nat := 300

  datatype Mode = Void | Casual | Secure | Lockdown | Ghost | Kernel

  datatype Source = FromKernel | FromDaemon | FromUser

  datatype Auth = Auth(password: bool, specialKey: bool, systemPrompt: bool, cooldownElapsed: bool,
                       windowElapsed: bool, automatic: bool, bootIntent: bool)

  datatype Reason = TargetInvalid | SourceInvalid | EdgeIllegal | AuthRequired | SpecialKeyRequired
                  | SystemPromptRequired | CooldownActive | WindowActive | BootPolicy

  datatype Decision = Allow | Deny(reason: Reason)

  // ---- The decision table ----

  function Need(ok: bool, reason: Reason, otherwise: Decision): Decision {
    if ok then otherwise else Deny(reason)
  }

  /** Whether a transition is allowed; `since` is the ticks spent in the current mode. */
  function Decide(from: Mode, to: Mode, source: Source, auth: Auth, since: nat): Decision {
    var override := source == FromKernel && auth.automatic;
    var known := auth.password || override;
    if to == Void || to == Kernel then Deny(TargetInvalid)
    else if from == Kernel then Deny(SourceInvalid)
    else if from == Void then
      Need(to == Casual || (auth.bootIntent && (to == Secure || to == Lockdown)), BootPolicy, Allow)
    else if from == Casual && to == Secure then Allow
    else if from == Casual && to == Lockdown then
      Need(source != FromKernel || override, EdgeIllegal,
      Need(known, AuthRequired,
      Need(source != FromDaemon || auth.systemPrompt, SystemPromptRequired, Allow)))
    else if from == Casual && to == Ghost then
      Need(source == FromUser, EdgeIllegal, Need(known, AuthRequired, Allow))
    else if from == Secure && to == Casual then
      Need(source != FromKernel || override, EdgeIllegal,
      Need(since >= SECURE_COOLDOWN || auth.cooldownElapsed, CooldownActive, Need(known, AuthRequired, Allow)))
    else if from == Secure && to == Lockdown then
      Need(source != FromKernel || override, EdgeIllegal, Need(known, AuthRequired, Allow))
    else if from == Secure && to == Ghost then Allow
    else if from == Lockdown && to == Secure then
      Need(source != FromKernel || override, EdgeIllegal,
        if source == FromUser then Need(auth.specialKey, SpecialKeyRequired, Allow)
        else Need(since >= LOCKDOWN_WINDOW || auth.windowElapsed, WindowActive,
             Need((auth.password && auth.systemPrompt) || override, SystemPromptRequired, Allow)))
    else if from == Ghost && to == Secure then
      Need(source == FromUser || override, EdgeIllegal, Need(known, AuthRequired, Allow))
    else if from == Ghost && to == Lockdown then Need(source != FromUser, EdgeIllegal, Allow)
    else Deny(EdgeIllegal)
  }

  /** The steps some request can take. */
  predicate Edge(from: Mode, to: Mode) {
    match from
    case Void => to == Casual || to == Secure || to == Lockdown
    case Casual => to == Secure || to == Lockdown || to == Ghost
    case Secure => to == Casual || to == Lockdown || to == Ghost
    case Lockdown => to == Secure
    case Ghost => to == Secure || to == Lockdown
    case Kernel => false
  }

  /** Exactly those: a step is allowed to somebody just when it is an edge. */
  lemma EdgesExact(from: Mode, to: Mode)
    ensures Edge(from, to) <==> exists source, auth, since :: Decide(from, to, source, auth, since) == Allow
  {
    if Edge(from, to) {
      var everything := Auth(true, true, true, true, true, true, true);
      assert Decide(from, to, FromUser, everything, 0) == Allow || Decide(from, to, FromDaemon, everything, 0) == Allow;
    }
  }

  /** Nobody gets back to CASUAL from another mode without a password or the kernel's own authority,
      nor out of LOCKDOWN with neither a special key, nor a password at the system prompt, nor that. */
  lemma Guarded(from: Mode, to: Mode, source: Source, auth: Auth, since: nat)
    requires Decide(from, to, source, auth, since) == Allow
    ensures to == Casual && from != Void ==> auth.password || (source == FromKernel && auth.automatic)
    ensures from == Lockdown ==> to == Secure
    ensures from == Lockdown ==> ((source == FromUser && auth.specialKey)
                                  || (auth.password && auth.systemPrompt) || (source == FromKernel && auth.automatic))
  {
  }

  // ---- Records ----

  datatype Kind = Transition | Fault | Lattice | Attest

  /** `rest` stands for the fields that only describe the event. */
  datatype Event = Event(kind: Kind, from: Mode, to: Mode, accepted: bool, rest: nat)

  datatype Record = Record(event: Event, prev: nat, hash: nat)

  datatype Filter = All | Only(kind: Kind) | Unknown

  predicate Matches(r: Record, filter: Filter) {
    filter == All || (filter.Only? && r.event.kind == filter.kind)
  }

  /** Each record carries the hash of the one before it and its own. */
  ghost predicate Chained(log: seq<Record>, digest: (Event, nat) -> nat) {
    forall i: nat {:trigger ChainedAt(log, digest, i)} :: ChainedAt(log, digest, i)
  }

  ghost predicate ChainedAt(log: seq<Record>, digest: (Event, nat) -> nat, i: nat) {
    i < |log| ==>
      && log[i].prev == (if i == 0 then 0 else log[i - 1].hash)
      && log[i].hash == digest(log[i].event, log[i].prev)
  }

  lemma ChainedSnoc(log: seq<Record>, digest: (Event, nat) -> nat, r: Record)
    requires Chained(log, digest) && r.prev == (if log == [] then 0 else log[|log| - 1].hash)
    requires r.hash == digest(r.event, r.prev)
    ensures Chained(log + [r], digest)
  {
    var log' := log + [r];
    forall i: nat
      ensures ChainedAt(log', digest, i)
    {
      assert ChainedAt(log, digest, i);
    }
  }

  /** Records n - 1 down to n - count of the log that match, newest first. */
  ghost function Newest(log: seq<Record>, n: nat, count: nat, filter: Filter): seq<Record>
    requires count <= n <= |log|
    decreases count
  {
    if count == 0 then []
    else (if Matches(log[n - 1], filter) then [log[n - 1]] else []) + Newest(log, n - 1, count - 1, filter)
  }

  // The same, gathered onto `out`.
  ghost function Gather(log: seq<Record>, n: nat, count: nat, filter: Filter, out: seq<Record>): seq<Record>
    requires count <= n <= |log|
    decreases count
  {
    if count == 0 then out
    else Gather(log, n - 1, count - 1, filter, if Matches(log[n - 1], filter) then out + [log[n - 1]] else out)
  }

  lemma {:induction false} GatherIsNewest(log: seq<Record>, n: nat, count: nat, filter: Filter, out: seq<Record>)
    requires count <= n <= |log|
    ensures Gather(log, n, count, filter, out) == out + Newest(log, n, count, filter)
    decreases count
  {
    if count == 0 {
    } else {
      var more := if Matches(log[n - 1], filter) then [log[n - 1]] else [];
      GatherIsNewest(log, n - 1, count - 1, filter, out + more);
      assert out + [] == out;
      assert out + more + Newest(log, n - 1, count - 1, filter) == out + (more + Newest(log, n - 1, count - 1, filter));
    }
  }

  function Take(s: seq<Record>, count: nat): seq<Record> {
    if count < |s| then s[..count] else s
  }

  lemma Cut(all: seq<Record>, out: seq<Record>, rest: seq<Record>, count: nat)
    requires [] + all == out + rest && |out| <= count && (rest == [] || |out| == count)
    ensures out == Take(all, count)
  {
    assert [] + all == all;
  }

  // ---- What the log says ----

  predicate IsStep(e: Event) {
    e.kind == Transition && e.accepted
  }

  /** The mode after the first n records, replayed from VOID. */
  function ModeAfter(log: seq<Record>, n: nat): Mode
    requires n <= |log|
  {
    if n == 0 then Void else if IsStep(log[n - 1].event) then log[n - 1].event.to else ModeAfter(log, n - 1)
  }

  ghost predicate LawfulAt(log: seq<Record>, i: nat) {
    i < |log| && IsStep(log[i].event) ==>
      && log[i].event.from == ModeAfter(log, i)
      && (log[i].event.to == log[i].event.from || Edge(log[i].event.from, log[i].event.to))
  }

  /** Every accepted transition starts where the replay stands and takes an edge. */
  ghost predicate Lawful(log: seq<Record>) {
    forall i: nat {:trigger LawfulAt(log, i)} :: LawfulAt(log, i)
  }

  lemma {:induction false} ModeAfterPrefix(log: seq<Record>, more: seq<Record>, n: nat)
    requires n <= |log|
    ensures ModeAfter(log + more, n) == ModeAfter(log, n)
  {
    if n == 0 {
    } else {
      ModeAfterPrefix(log, more, n - 1);
    }
  }

  lemma LawfulSnoc(log: seq<Record>, r: Record)
    requires Lawful(log)
    requires IsStep(r.event) ==>
      r.event.from == ModeAfter(log, |log|) && (r.event.to == r.event.from || Edge(r.event.from, r.event.to))
    ensures Lawful(log + [r])
    ensures ModeAfter(log + [r], |log| + 1) == if IsStep(r.event) then r.event.to else ModeAfter(log, |log|)
  {
    ModeAfterPrefix(log, [r], |log|);
    forall i: nat
      ensures LawfulAt(log + [r], i)
    {
      if i <= |log| {
        ModeAfterPrefix(log, [r], i);
        assert LawfulAt(log, i);
      }
    }
  }

  /** Between LOCKDOWN or GHOST and a later CASUAL, the mode was SECURE. */
  lemma {:induction false} PassesSecure(log: seq<Record>, i: nat, j: nat)
    requires Lawful(log) && i <= j <= |log|
    requires ModeAfter(log, i) == Lockdown || ModeAfter(log, i) == Ghost
    requires ModeAfter(log, j) == Casual
    ensures exists k: nat :: i < k < j && ModeAfter(log, k) == Secure
    decreases j
  {
    NeverVoid(log, i, j - 1);
    var before := ModeAfter(log, j - 1);
    assert LawfulAt(log, j - 1);
    if before == Casual {
      PassesSecure(log, i, j - 1);
    }
  }

  lemma {:induction false} NeverVoid(log: seq<Record>, i: nat, j: nat)
    requires Lawful(log) && i <= j <= |log| && ModeAfter(log, i) != Void
    ensures ModeAfter(log, j) != Void
    decreases j
  {
    if j <= i {
    } else {
      NeverVoid(log, i, j - 1);
      assert LawfulAt(log, j - 1);
    }
  }

  // ---- The ring ----

  function Index(m: Mode): nat {
    match m
    case Void => 0
    case Casual => 1
    case Secure => 2
    case Lockdown => 3
    case Ghost => 4
    case Kernel => 5
  }

  ghost predicate RingAt(ring: seq<Record>, log: seq<Record>, i: nat) {
    |ring| == HISTORY && i < |log| <= i + HISTORY ==> ring[i % HISTORY] == log[i]
  }

  /** The ring holds the last 256 records of the log. */
  ghost predicate Rings(ring: seq<Record>, log: seq<Record>) {
    |ring| == HISTORY && forall i: nat {:trigger RingAt(ring, log, i)} :: RingAt(ring, log, i)
  }

  lemma RingPush(ring: seq<Record>, log: seq<Record>, r: Record)
    requires Rings(ring, log)
    ensures Rings(ring[|log| % HISTORY := r], log + [r])
  {
    var ring', log' := ring[|log| % HISTORY := r], log + [r];
    forall i: nat
      ensures RingAt(ring', log', i)
    {
      assert RingAt(ring, log, i);
      if i < |log| < i + HISTORY {
        Apart(i, |log|);
      }
    }
  }

  lemma Turn(n: nat)
    ensures (n + HISTORY) % HISTORY == n % HISTORY
  {
  }

  lemma Apart(i: nat, n: nat)
    requires i < n < i + HISTORY
    ensures i % HISTORY != n % HISTORY
  {
  }

  class ModeState {
    const ring: array<Record>
    const digest: (Event, nat) -> nat
    var head: nat
    var generation: nat
    var current: Mode
    var previous: Mode
    var enterTick: seq<nat>
    var failures: nat

    ghost var log: seq<Record>

    ghost predicate Logged()
      reads this, ring
    {
      && head == |log| && generation == head / HISTORY
      && Rings(ring[..], log) && Chained(log, digest)
    }

    ghost predicate Valid()
      reads this, ring
    {
      && Logged() && Lawful(log)
      && current == ModeAfter(log, |log|)
      && |enterTick| == 6 && failures < RETRY_LIMIT
    }

    constructor (digest: (Event, nat) -> nat)
      ensures Valid() && log == [] && current == Void && this.digest == digest && fresh(ring)
    {
      this.digest := digest;
      ring := new Record[HISTORY](_ => Record(Event(Transition, Void, Void, false, 0), 0, 0));
      head, generation, current, previous, failures := 0, 0, Void, Void, 0;
      enterTick := [0, 0, 0, 0, 0, 0];
      log := [];
    }

    ghost function Sealed(e: Event): Record
      reads this
    {
      var prev := if log == [] then 0 else log[|log| - 1].hash;
      Record(e, prev, digest(e, prev))
    }

    method Append(e: Event)
      requires Logged()
      modifies `head, `generation, `log, ring
      ensures Logged() && log == old(log) + [old(Sealed(e))]
    {
      var prev := 0;
      if head > 0 {
        assert RingAt(ring[..], log, head - 1);
        prev := ring[(head - 1) % HISTORY].hash;
      }
      var r := Record(e, prev, digest(e, prev));
      RingPush(ring[..], log, r);
      ChainedSnoc(log, digest, r);
      ghost var before := ring[..];
      ring[head % HISTORY] := r;
      assert ring[..] == before[head % HISTORY := r];
      head := head + 1;
      if head % HISTORY == 0 {
        generation := generation + 1;
      }
      log := log + [r];
    }

    // The record `i` places back from the newest.
    method Back(i: nat) returns (r: Record)
      requires Logged() && i < head && i < HISTORY
      ensures r == log[head - 1 - i]
    {
      assert RingAt(ring[..], log, head - 1 - i);
      Turn(head - 1 - i);
      r := ring[(head - 1 - i + HISTORY) % HISTORY];
    }

    // The loop of a filtered read, over the last `available` records.
    method Collect(available: nat, count: nat, filter: Filter) returns (out: seq<Record>, ghost left: nat)
      requires Logged() && available <= head && available <= HISTORY
      ensures left <= available &&
        Gather(log, head, available, filter, []) == Gather(log, head - available + left, left, filter, out)
      ensures |out| <= count && (left == 0 || |out| == count)
    {
      out := [];
      var i := 0;
      while i < available && |out| < count
        invariant 0 <= i <= available && |out| <= count
        invariant Gather(log, head, available, filter, []) == Gather(log, head - i, available - i, filter, out)
      {
        var r := Back(i);
        if Matches(r, filter) {
          out := out + [r];
        }
        i := i + 1;
      }
      left := available - i;
    }

    /** A filtered read returns the newest matching records among the last min(head, 256), newest
        first, as many as asked for. */
    method GetHistory(count: nat, filter: Filter) returns (out: seq<Record>)
      requires Logged()
      ensures out == Take(Newest(log, head, if head < HISTORY then head else HISTORY, filter), count)
    {
      var available := if head < HISTORY then head else HISTORY;
      ghost var left;
      out, left := Collect(available, count, filter);
      GatherIsNewest(log, head, available, filter, []);
      GatherIsNewest(log, head - available + left, left, filter, out);
      Cut(Newest(log, head, available, filter), out, Newest(log, head - available + left, left, filter), count);
    }

    /** Faults, lattice, attestation and scheduler events are logged in the current mode and leave it. */
    method LogEvent(kind: Kind, accepted: bool, rest: nat)
      requires Valid()
      modifies `head, `generation, `log, ring
      ensures Valid() && log == old(log) + [old(Sealed(Event(kind, current, current, accepted, rest)))]
    {
      var e := Event(kind, current, current, accepted, rest);
      LawfulSnoc(log, Sealed(e));
      Append(e);
    }

    // A daemon's third failed attempt to lock down reboots the machine.
    predicate CountsFailure(target: Mode, source: Source, decision: Decision)
      reads this
    {
      current == Casual && target == Lockdown && source == FromDaemon && decision == Deny(AuthRequired)
    }

    method Apply(target: Mode, tick: nat, rest: nat)
      requires Valid() && Edge(current, target)
      modifies this, ring
      ensures Valid() && current == target && previous == old(current)
      ensures log == old(log) + [old(Sealed(Event(Transition, current, target, true, rest)))]
    {
      var e := Event(Transition, current, target, true, rest);
      LawfulSnoc(log, Sealed(e));
      previous := current;
      current := target;
      enterTick := enterTick[Index(target) := tick];
      if target == Lockdown {
        failures := 0;
      }
      Append(e);
    }

    method Refuse(target: Mode, rest: nat)
      requires Valid()
      modifies `head, `generation, `log, ring
      ensures Valid() && log == old(log) + [old(Sealed(Event(Transition, current, target, false, rest)))]
    {
      var e := Event(Transition, current, target, false, rest);
      LawfulSnoc(log, Sealed(e));
      Append(e);
    }

    /** A request takes the step exactly when the rules allow it, and logs it either way; the
        replayed log still ends in the current mode. */
    method Request(target: Mode, source: Source, auth: Auth, tick: nat, rest: nat) returns (r: Outcome)
      requires Valid() && tick >= enterTick[Index(current)]
      modifies this, ring
      ensures r != Rebooting ==> Valid()
      ensures old(current) == target ==> r == Unchanged && log == old(log) && current == target
      ensures old(current) != target ==>
        var decision := Decide(old(current), target, source, auth, tick - old(enterTick)[Index(old(current))]);
        && (r == Accepted <==> decision == Allow)
        && (r == Rebooting <==> old(CountsFailure(target, source, decision)) && old(failures) == RETRY_LIMIT - 1)
      ensures r == Accepted ==> current == target && previous == old(current)
      ensures r == Accepted ==> log == old(log) + [old(Sealed(Event(Transition, current, target, true, rest)))]
      ensures r == Rejected ==> current == old(current)
      ensures r == Rejected ==> log == old(log) + [old(Sealed(Event(Transition, current, target, false, rest)))]
    {
      if current == target {
        return Unchanged;
      }
      var decision := Decide(current, target, source, auth, tick - enterTick[Index(current)]);
      EdgeOfDecision(current, target, source, auth, tick - enterTick[Index(current)]);
      if decision == Allow {
        Apply(target, tick, rest);
        return Accepted;
      }
      if CountsFailure(target, source, decision) {
        failures := failures + 1;
        if failures >= RETRY_LIMIT {
          return Rebooting;
        }
      }
      Refuse(target, rest);
      return Rejected;
    }
  }

  datatype Outcome = Unchanged | Accepted | Rejected | Rebooting

  lemma EdgeOfDecision(from: Mode, to: Mode, source: Source, auth: Auth, since: nat)
    ensures Decide(from, to, source, auth, since) == Allow ==> Edge(from, to)
  {
  }
}
