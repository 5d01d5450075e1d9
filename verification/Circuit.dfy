/** internal/alert/circuit.go and circuit_dispatcher.go. Each mutex-held section is one operation; the
    results of overlapping calls may be recorded late and in any order. */
module Circuit {
  import opened Common
  import Modular

  datatype Mode = Closed | Open | HalfOpen

  datatype Policy = Policy(failureThreshold: int, successThreshold: int, openDuration: int) {
    predicate Valid() {
      failureThreshold > 0 && successThreshold > 0 && openDuration > 0
    }

    /** The policy as NewCircuitBreaker stores it. */
    function Normalize(): (p: Policy)
      ensures p.Valid() && (Valid() ==> p == this)
      ensures failureThreshold <= 0 ==> p.failureThreshold == 3
      ensures successThreshold <= 0 ==> p.successThreshold == 2
      ensures openDuration <= 0 ==> p.openDuration == 30_000_000_000
    {
      Policy(if failureThreshold <= 0 then 3 else failureThreshold,
             if successThreshold <= 0 then 2 else successThreshold,
             if openDuration <= 0 then 30_000_000_000 else openDuration)
    }
  }

  datatype State = State(mode: Mode, failures: int, successes: int, openedAt: int)

  const INITIAL := State(Closed, 0, 0, 0)

  datatype Op = Allow(now: int) | Succeeded | Failed(now: int)

  /** The failure opens the circuit and stamps openedAt. */
  predicate Trips(p: Policy, s: State) {
    s.mode == HalfOpen || s.failures + 1 >= p.failureThreshold
  }

  function Admits(p: Policy, s: State, now: int): bool {
    s.mode != Open || now - s.openedAt >= p.openDuration
  }

  function Apply(p: Policy, s: State, op: Op): State {
    match op
    case Allow(now) =>
      if s.mode == Open && now - s.openedAt >= p.openDuration
      then s.(mode := HalfOpen, successes := 0) else s
    case Succeeded =>
      if s.mode == HalfOpen then
        s.(failures := 0, successes := s.successes + 1,
           mode := if s.successes + 1 >= p.successThreshold then Closed else HalfOpen)
      else s.(failures := 0)
    case Failed(now) =>
      if Trips(p, s) then State(Open, 0, 0, now)
      else s.(successes := 0, failures := s.failures + 1)
  }

  /** internal/alert/circuit.go:36-44 with its three methods. */
  class CircuitBreaker {
    const policy: Policy
    var mode: Mode
    var failures: int
    var successes: int
    var openedAt: int

    function Snapshot(): State
      reads this
    {
      State(mode, failures, successes, openedAt)
    }

    constructor (p: Policy)
      ensures policy == p.Normalize() && Snapshot() == INITIAL
    {
      policy := p.Normalize();
      mode, failures, successes, openedAt := Closed, 0, 0, 0;
    }

    method Allow(now: int) returns (ok: bool)
      modifies this
      ensures ok == Admits(policy, old(Snapshot()), now)
      ensures Snapshot() == Apply(policy, old(Snapshot()), Op.Allow(now))
    {
      match mode
      case Open =>
        if now - openedAt >= policy.openDuration {
          mode := HalfOpen;
          successes := 0;
          return true;
        }
        return false;
      case _ =>
        return true;
    }

    method RecordSuccess()
      modifies this
      ensures Snapshot() == Apply(policy, old(Snapshot()), Succeeded)
    {
      failures := 0;
      if mode == HalfOpen {
        successes := successes + 1;
        if successes >= policy.successThreshold {
          mode := Closed;
        }
      }
    }

    method RecordFailure(now: int)
      modifies this
      ensures Snapshot() == Apply(policy, old(Snapshot()), Failed(now))
    {
      successes := 0;
      failures := failures + 1;
      if mode == HalfOpen || failures >= policy.failureThreshold {
        mode := Open;
        openedAt := now;
        failures := 0;
      }
    }
  }

  // ---- What the counters mean over any run -------------------------------------------------

  /** The events of a run that an observer of the mode can see. */
  datatype Entry = Admitted | Probing | Rejected | Success | Failure | Trip

  function Observe(p: Policy, s: State, op: Op): Entry {
    match op
    case Allow(now) =>
      if !Admits(p, s, now) then Rejected else if s.mode == Open then Probing else Admitted
    case Succeeded => Entry.Success
    case Failed(_) => if Trips(p, s) then Trip else Entry.Failure
  }

  /** The state and the log after the operations. */
  function Run(p: Policy, ops: seq<Op>): (State, seq<Entry>) {
    if ops == [] then (INITIAL, [])
    else
      var (s, log) := Run(p, ops[..|ops| - 1]);
      var op := ops[|ops| - 1];
      (Apply(p, s, op), log + [Observe(p, s, op)])
  }

  /** Failures at the end of the log, since the last success or trip. */
  function TrailingFailures(log: seq<Entry>): nat {
    if log == [] then 0
    else
      match log[|log| - 1]
      case Success => 0
      case Trip => 0
      case Failure => 1 + TrailingFailures(log[..|log| - 1])
      case _ => TrailingFailures(log[..|log| - 1])
  }

  /** Successes since the circuit last became half-open. */
  function ProbeSuccesses(log: seq<Entry>): nat {
    if log == [] then 0
    else
      match log[|log| - 1]
      case Probing => 0
      case Success => 1 + ProbeSuccesses(log[..|log| - 1])
      case _ => ProbeSuccesses(log[..|log| - 1])
  }

  /** No failure has been recorded since the circuit last became half-open, and it did so. */
  predicate CleanProbe(log: seq<Entry>) {
    log != [] &&
    match log[|log| - 1]
    case Probing => true
    case Failure => false
    case Trip => false
    case _ => CleanProbe(log[..|log| - 1])
  }

  /** Late results included, the failure counter is the trailing failure run and stays below the
      threshold, and a half-open circuit has seen fewer than SuccessThreshold successes and no failure
      since it became half-open. */
  lemma {:induction false} CountersMatchHistory(p: Policy, ops: seq<Op>)
    requires p.Valid()
    ensures
      var (s, log) := Run(p, ops);
      && 0 <= s.failures < p.failureThreshold && s.failures == TrailingFailures(log)
      && (s.mode == HalfOpen ==>
            s.successes == ProbeSuccesses(log) < p.successThreshold && CleanProbe(log))
    decreases |ops|
  {
    if ops != [] {
      var init, op := ops[..|ops| - 1], ops[|ops| - 1];
      CountersMatchHistory(p, init);
      var (s, log) := Run(p, init);
      var log' := log + [Observe(p, s, op)];
      assert log'[..|log' | - 1] == log;
    }
  }

  /** A half-open circuit closes exactly on the success that completes SuccessThreshold of them; any
      failure reopens it; and no other operation ever closes a circuit. */
  lemma ClosesExactly(p: Policy, ops: seq<Op>, op: Op)
    requires p.Valid()
    ensures
      var (s, log) := Run(p, ops);
      && (s.mode != Closed && Apply(p, s, op).mode == Closed <==>
            s.mode == HalfOpen && op.Succeeded? && ProbeSuccesses(log) + 1 == p.successThreshold)
      && (s.mode == HalfOpen && op.Failed? ==> Apply(p, s, op).mode == Open)
  {
    CountersMatchHistory(p, ops);
  }

  predicate Ordered(from: int, ops: seq<Op>)
    decreases |ops|
  {
    ops == [] ||
    match ops[0]
    case Succeeded => Ordered(from, ops[1..])
    case Allow(now) => from <= now && Ordered(now, ops[1..])
    case Failed(now) => from <= now && Ordered(now, ops[1..])
  }

  /** The time of the first admitted call, if any call is admitted. */
  function FirstAdmitted(p: Policy, s: State, ops: seq<Op>): Option<int>
    decreases |ops|
  {
    if ops == [] then None
    else if ops[0].Allow? && Admits(p, s, ops[0].now) then Some(ops[0].now)
    else FirstAdmitted(p, Apply(p, s, ops[0]), ops[1..])
  }

  /** After the circuit opens at openedAt, whatever late results arrive, no call is admitted before
      openedAt + OpenDuration (nondecreasing clock). */
  lemma {:induction false} OpenHolds(p: Policy, s: State, from: int, ops: seq<Op>)
    requires p.Valid() && s.mode == Open && s.openedAt <= from && Ordered(from, ops)
    ensures FirstAdmitted(p, s, ops).Some? ==> FirstAdmitted(p, s, ops).value >= s.openedAt + p.openDuration
    decreases |ops|
  {
    if ops != [] {
      match ops[0]
      case Succeeded => OpenHolds(p, Apply(p, s, ops[0]), from, ops[1..]);
      case Allow(now) =>
        if !Admits(p, s, now) {
          OpenHolds(p, s, now, ops[1..]);
        }
      case Failed(now) => OpenHolds(p, Apply(p, s, ops[0]), now, ops[1..]);
    }
  }

  // ---- The modes in terms of the operations alone ------------------------------------------

  function After(p: Policy, s: State, ops: seq<Op>): State {
    if ops == [] then s else Apply(p, After(p, s, ops[..|ops| - 1]), ops[|ops| - 1])
  }

  /** Failures at the end of the operations, since the last success; calls to Allow do not matter. */
  function InARow(ops: seq<Op>): nat {
    if ops == [] then 0
    else
      match ops[|ops| - 1]
      case Allow(_) => InARow(ops[..|ops| - 1])
      case Succeeded => 0
      case Failed(_) => InARow(ops[..|ops| - 1]) + 1
  }

  /** Nowhere in the operations do n failures come in a row. */
  ghost predicate FewFailures(n: int, ops: seq<Op>) {
    forall k :: 0 <= k <= |ops| ==> InARow(ops[..k]) < n
  }

  lemma FewFailuresInit(n: int, ops: seq<Op>)
    requires ops != [] && FewFailures(n, ops)
    ensures FewFailures(n, ops[..|ops| - 1]) && InARow(ops) < n
  {
    var init := ops[..|ops| - 1];
    forall k | 0 <= k <= |init| ensures InARow(init[..k]) < n {
      assert init[..k] == ops[..k];
    }
    assert ops[..|ops|] == ops;
  }

  /** A closed circuit admits every call until FailureThreshold failures come in a row, and opens at the
      failure that completes them, at its time. */
  lemma {:induction false} ClosedExactly(p: Policy, s: State, ops: seq<Op>, now: int)
    requires p.Valid() && s.mode == Closed && s.failures == 0 && FewFailures(p.failureThreshold, ops)
    ensures
      var t := After(p, s, ops);
      && t.mode == Closed && t.failures == InARow(ops) && Admits(p, t, now)
      && (Apply(p, t, Failed(now)).mode == Open <==> InARow(ops + [Failed(now)]) == p.failureThreshold)
      && (Apply(p, t, Failed(now)).mode == Open ==> Apply(p, t, Failed(now)).openedAt == now)
    decreases |ops|
  {
    assert (ops + [Failed(now)])[..|ops|] == ops;
    if ops != [] {
      FewFailuresInit(p.failureThreshold, ops);
      ClosedExactly(p, s, ops[..|ops| - 1], now);
    }
  }

  /** A circuit that has opened with no failure counted stays as it is, whatever late results arrive, while
      they bring fewer than FailureThreshold failures in a row and no call comes OpenDuration later; so the
      first call admitted is the first one at or after openedAt + OpenDuration. */
  lemma {:induction false} FirstAdmissionExactly(p: Policy, s: State, ops: seq<Op>, now: int)
    requires p.Valid() && s.mode == Open && s.failures == 0 && FewFailures(p.failureThreshold, ops)
    requires forall k :: 0 <= k < |ops| && ops[k].Allow? ==> ops[k].now < s.openedAt + p.openDuration
    ensures
      var t := After(p, s, ops);
      && t.mode == Open && t.openedAt == s.openedAt && t.failures == InARow(ops)
      && (Admits(p, t, now) <==> now >= s.openedAt + p.openDuration)
    decreases |ops|
  {
    if ops != [] {
      FewFailuresInit(p.failureThreshold, ops);
      FirstAdmissionExactly(p, s, ops[..|ops| - 1], now);
    }
  }

  lemma NextRemainder(x: nat, n: nat)
    requires n > 0
    ensures (x + 1) % n == if x % n + 1 == n then 0 else x % n + 1
  {
    var q: nat, r: nat := x / n, x % n;
    assert x == q * n + r;
    if r + 1 == n {
      assert (q + 1) * n == q * n + n;
      Modular.UniqueRemainder(x + 1, q + 1, 0, n);
    } else {
      Modular.UniqueRemainder(x + 1, q, r + 1, n);
    }
  }

  lemma FailureWhileOpen(p: Policy, t: State, n: nat, now: int)
    requires p.Valid() && t.mode == Open && t.failures == n % p.failureThreshold
    ensures
      var u := Apply(p, t, Failed(now));
      && u.mode == Open && u.failures == (n + 1) % p.failureThreshold
      && u.openedAt == if (n + 1) % p.failureThreshold == 0 then now else t.openedAt
  {
    NextRemainder(n, p.failureThreshold);
  }

  /** While the circuit is open, a failure starts the open period anew if and only if it completes another
      FailureThreshold failures in a row since the circuit opened. */
  lemma {:induction false} RestampExactly(p: Policy, s: State, ops: seq<Op>, now: int)
    requires p.Valid() && s.mode == Open && s.failures == 0
    requires forall k :: 0 <= k <= |ops| ==> After(p, s, ops[..k]).mode == Open
    ensures
      var t := After(p, s, ops);
      && t.failures == InARow(ops) % p.failureThreshold
      && Apply(p, t, Failed(now)).mode == Open
      && Apply(p, t, Failed(now)).openedAt ==
         if InARow(ops + [Failed(now)]) % p.failureThreshold == 0 then now else t.openedAt
    decreases |ops|
  {
    assert (ops + [Failed(now)])[..|ops|] == ops;
    assert ops[..|ops|] == ops;
    if ops != [] {
      var init, op := ops[..|ops| - 1], ops[|ops| - 1];
      forall k | 0 <= k <= |init| ensures After(p, s, init[..k]).mode == Open {
        assert init[..k] == ops[..k];
      }
      RestampExactly(p, s, init, if op.Failed? then op.now else now);
      FailureWhileOpen(p, After(p, s, init), InARow(init), if op.Failed? then op.now else now);
    }
    FailureWhileOpen(p, After(p, s, ops), InARow(ops), now);
  }

  function Successes(ops: seq<Op>): nat {
    if ops == [] then 0
    else Successes(ops[..|ops| - 1]) + (if ops[|ops| - 1].Succeeded? then 1 else 0)
  }

  /** A circuit that has just become half-open admits every call until SuccessThreshold successes or one
      failure; the last of these successes closes it with no failure counted, and a failure opens it at its
      time. */
  lemma {:induction false} HalfOpenExactly(p: Policy, s: State, ops: seq<Op>, now: int)
    requires p.Valid() && s.mode == HalfOpen && s.successes == 0
    requires Successes(ops) < p.successThreshold && forall k :: 0 <= k < |ops| ==> !ops[k].Failed?
    ensures
      var t := After(p, s, ops);
      && t.mode == HalfOpen && t.successes == Successes(ops) && Admits(p, t, now)
      && Apply(p, t, Failed(now)) == State(Open, 0, 0, now)
      && Apply(p, t, Succeeded).failures == 0
      && Apply(p, t, Succeeded).mode ==
         if Successes(ops) + 1 == p.successThreshold then Closed else HalfOpen
    decreases |ops|
  {
    if ops != [] {
      HalfOpenExactly(p, s, ops[..|ops| - 1], now);
    }
  }

  /** An open circuit becomes half-open, with no success counted, by the first call it admits. */
  lemma ProbeExactly(p: Policy, s: State, now: int)
    requires p.Valid() && s.mode == Open
    ensures Admits(p, s, now) <==> now >= s.openedAt + p.openDuration
    ensures Apply(p, s, Allow(now)) == if Admits(p, s, now) then s.(mode := HalfOpen, successes := 0) else s
  {
  }

  // ---- The dispatcher ----------------------------------------------------------------------

  /** One Send that overlaps no other: the clock readings of Allow and of the recording call. */
  datatype Call = Call(allowAt: int, recordAt: int)

  function SendStep(p: Policy, s: State, c: Call, outcome: Outcome): State {
    if !Admits(p, s, c.allowAt) then s
    else Apply(p, Apply(p, s, Allow(c.allowAt)), if outcome.Success? then Succeeded else Failed(c.recordAt))
  }

  /** internal/alert/circuit_dispatcher.go:30-41. The outcome is what the next dispatcher would
      return; the result is None when the circuit drops the notification. */
  method Send(breaker: CircuitBreaker, c: Call, outcome: Outcome) returns (result: Option<Outcome>)
    modifies breaker
    ensures result == if Admits(breaker.policy, old(breaker.Snapshot()), c.allowAt) then Some(outcome) else None
    ensures breaker.Snapshot() == SendStep(breaker.policy, old(breaker.Snapshot()), c, outcome)
  {
    var ok := breaker.Allow(c.allowAt);
    if !ok {
      return None;
    }
    if outcome.Failure? {
      breaker.RecordFailure(c.recordAt);
      return Some(outcome);
    }
    breaker.RecordSuccess();
    return Some(Outcome.Success);
  }

  predicate Sequential(from: int, calls: seq<Call>)
    decreases |calls|
  {
    calls == [] || (from <= calls[0].allowAt <= calls[0].recordAt && Sequential(calls[0].recordAt, calls[1..]))
  }

  /** The times at which calls were forwarded to a downstream that always fails. */
  function Forwarded(p: Policy, s: State, calls: seq<Call>): seq<int>
    decreases |calls|
  {
    if calls == [] then []
    else (if Admits(p, s, calls[0].allowAt) then [calls[0].allowAt] else [])
         + Forwarded(p, SendStep(p, s, calls[0], Outcome.Failure("")), calls[1..])
  }

  /** Once open at openedAt, the i-th forwarded call comes at least (i + 1) OpenDurations later. */
  lemma {:induction false} ProbesAreSpaced(p: Policy, s: State, calls: seq<Call>, i: nat)
    requires p.Valid() && s.mode == Open && s.failures == 0 && Sequential(s.openedAt, calls)
    requires i < |Forwarded(p, s, calls)|
    ensures Forwarded(p, s, calls)[i] >= s.openedAt + (i + 1) * p.openDuration
    decreases |calls|
  {
    var c := calls[0];
    var next := SendStep(p, s, c, Outcome.Failure(""));
    var rest := Forwarded(p, next, calls[1..]);
    MulPred(i + 1, p.openDuration);
    if Admits(p, s, c.allowAt) {
      assert next == State(Open, 0, 0, c.recordAt);
      assert Forwarded(p, s, calls) == [c.allowAt] + rest;
      if i > 0 {
        ProbesAreSpaced(p, next, calls[1..], i - 1);
      }
    } else {
      assert Forwarded(p, s, calls) == rest;
      SequentialEarlier(s.openedAt, c.recordAt, calls[1..]);
      ProbesAreSpaced(p, s, calls[1..], i);
    }
  }

  lemma SequentialEarlier(from: int, from': int, calls: seq<Call>)
    requires from <= from' && Sequential(from', calls)
    ensures Sequential(from, calls)
  {
  }

  /** While closed with f failures, the next FailureThreshold - f calls are all forwarded and the last
      of them opens the circuit. */
  lemma {:induction false} FirstTrip(p: Policy, s: State, from: int, calls: seq<Call>, i: nat)
    requires p.Valid() && s.mode == Closed && 0 <= s.failures < p.failureThreshold && Sequential(from, calls)
    ensures
      var n := p.failureThreshold - s.failures;
      var g := Forwarded(p, s, calls);
      && (|calls| < n ==> |g| == |calls|)
      && (|calls| >= n && n + i < |g| ==> g[n + i] >= calls[n - 1].recordAt + (i + 1) * p.openDuration)
    decreases |calls|
  {
    if calls != [] {
      var c := calls[0];
      var next := SendStep(p, s, c, Outcome.Failure(""));
      var rest := Forwarded(p, next, calls[1..]);
      assert Forwarded(p, s, calls) == [c.allowAt] + rest;
      if s.failures + 1 < p.failureThreshold {
        FirstTrip(p, next, c.recordAt, calls[1..], i);
      } else if i < |rest| {
        ProbesAreSpaced(p, next, calls[1..], i);
      }
    }
  }

  /** How many of the times are at most t. */
  function CountUpTo(times: seq<int>, t: int): nat {
    if times == [] then 0
    else CountUpTo(times[..|times| - 1], t) + (if times[|times| - 1] <= t then 1 else 0)
  }

  lemma {:induction false} CountUpToLength(times: seq<int>, t: int)
    ensures CountUpTo(times, t) <= |times|
  {
    if times != [] {
      CountUpToLength(times[..|times| - 1], t);
    }
  }

  /** Elements from index n on that are spaced by d from `base` on. */
  lemma {:induction false} SpacedCount(times: seq<int>, n: nat, base: int, d: int, t: int)
    requires d > 0 && t >= base
    requires forall k :: n <= k < |times| ==> times[k] >= base + (k - n + 1) * d
    ensures CountUpTo(times, t) <= n + (t - base) / d
  {
    CountUpToLength(times, t);
    if |times| > n {
      var last := |times| - 1;
      if times[last] <= t {
        DivideBound(t - base, last - n + 1, d);
      } else {
        SpacedCount(times[..last], n, base, d, t);
      }
    }
  }

  /** With a downstream that always fails, sequential sends and a nondecreasing clock: up to any time t
      after the first trip, at most FailureThreshold + floor((t - firstTrip) / OpenDuration) calls
      reach the downstream. */
  lemma FailingDownstreamBound(p: Policy, from: int, calls: seq<Call>, t: int)
    requires p.Valid() && Sequential(from, calls) && |calls| >= p.failureThreshold
    requires t >= calls[p.failureThreshold - 1].recordAt
    ensures
      var firstTrip := calls[p.failureThreshold - 1].recordAt;
      CountUpTo(Forwarded(p, INITIAL, calls), t) <= p.failureThreshold + (t - firstTrip) / p.openDuration
  {
    var n := p.failureThreshold;
    var g := Forwarded(p, INITIAL, calls);
    forall k | n <= k < |g| ensures g[k] >= calls[n - 1].recordAt + (k - n + 1) * p.openDuration {
      FirstTrip(p, INITIAL, from, calls, k - n);
    }
    SpacedCount(g, n, calls[n - 1].recordAt, p.openDuration, t);
  }

  function SendAll(p: Policy, s: State, calls: seq<Call>, outcome: Outcome): State
    decreases |calls|
  {
    if calls == [] then s else SendAll(p, SendStep(p, s, calls[0], outcome), calls[1..], outcome)
  }

  /** Recovery: once half-open, SuccessThreshold successful sends in all close the circuit, and not
      one fewer. */
  lemma {:induction false} ProbesClose(p: Policy, s: State, calls: seq<Call>, ok: Outcome)
    requires p.Valid() && ok.Success? && s.mode == HalfOpen && 0 <= s.successes < p.successThreshold
    requires |calls| <= p.successThreshold - s.successes
    ensures SendAll(p, s, calls, ok).mode ==
            if |calls| == p.successThreshold - s.successes then Closed else HalfOpen
    decreases |calls|
  {
    if calls != [] && s.successes + 1 < p.successThreshold {
      ProbesClose(p, SendStep(p, s, calls[0], ok), calls[1..], ok);
    }
  }

  /** From open, after OpenDuration has passed, exactly SuccessThreshold successful sends close it. */
  lemma Recovers(p: Policy, s: State, calls: seq<Call>, ok: Outcome)
    requires p.Valid() && ok.Success? && s.mode == Open && 1 <= |calls| <= p.successThreshold
    requires calls[0].allowAt >= s.openedAt + p.openDuration
    ensures SendAll(p, s, calls, ok).mode == if |calls| == p.successThreshold then Closed else HalfOpen
  {
    var probing := s.(mode := HalfOpen, successes := 0);
    assert SendStep(p, s, calls[0], ok) == SendStep(p, probing, calls[0], ok);
    assert SendAll(p, s, calls, ok) == SendAll(p, probing, calls, ok);
    ProbesClose(p, probing, calls, ok);
  }
}

/** Senders that share one breaker and overlap: Allow, the downstream call and the recording of its
    result are separate steps (internal/alert/circuit_dispatcher.go:30-41). The downstream always fails. */
module CircuitSenders {
  import opened Common
  import opened Circuit
  import Machine

  /** busy tells which senders are in a downstream call. sent (the times of the forwarded calls),
      firstTrip and probes (how often the circuit became half-open) are history variables. */
  datatype Shared = Shared(
    breaker: State, busy: seq<bool>, last: int, sent: seq<int>, firstTrip: Option<int>, probes: nat)

  datatype Event = Ask(i: nat, now: int) | Report(i: nat, now: int)

  /** The clock never runs backwards. */
  function Next(p: Policy, s: Shared, e: Event): Option<Shared> {
    if e.i >= |s.busy| || e.now < s.last then None
    else
      match e
      case Ask(i, now) =>
        if s.busy[i] then None
        else if !Admits(p, s.breaker, now) then Some(s.(last := now))
        else
          Some(s.(breaker := Circuit.Apply(p, s.breaker, Allow(now)), busy := s.busy[i := true], last := now,
                  sent := s.sent + [now], probes := s.probes + (if s.breaker.mode == Open then 1 else 0)))
      case Report(i, now) =>
        if !s.busy[i] then None
        else
          Some(s.(breaker := Circuit.Apply(p, s.breaker, Failed(now)), busy := s.busy[i := false], last := now,
                  firstTrip := if s.firstTrip.None? && Trips(p, s.breaker) then Some(now) else s.firstTrip))
  }

  function Step(p: Policy): (Shared, Event) -> Option<Shared> {
    (s, e) => Next(p, s, e)
  }

  function Start(senders: nat, from: int): Shared {
    Shared(INITIAL, seq(senders, _ => false), from, [], None, 0)
  }

  ghost predicate Reachable(p: Policy, senders: nat, from: int, s: Shared) {
    Machine.Reaches(Step(p), Start(senders, from), s)
  }

  /** An idle sender can ask at any time, and is forwarded exactly when the circuit is not open or has
      been for OpenDuration; a busy one can report its failure at any time. */
  lemma StepsOfSender(p: Policy, s: Shared, i: nat, now: int)
    requires i < |s.busy| && s.last <= now
    ensures Next(p, s, Ask(i, now)).Some? <==> !s.busy[i]
    ensures Next(p, s, Report(i, now)).Some? <==> s.busy[i]
    ensures !s.busy[i] ==>
              var t := Next(p, s, Ask(i, now)).value;
              if s.breaker.mode != Open || now - s.breaker.openedAt >= p.openDuration
              then t.sent == s.sent + [now] && t.busy == s.busy[i := true]
              else t == s.(last := now)
    ensures s.busy[i] ==>
              var t := Next(p, s, Report(i, now)).value;
              t.sent == s.sent && t.busy == s.busy[i := false]
  {
  }

  /** A single sender that asks and then reports does what one Send that overlaps no other does. */
  lemma OneSenderIsSequential(p: Policy, s: Shared, c: Call)
    requires s.busy == [false] && s.last <= c.allowAt <= c.recordAt
    ensures
      var run := [Ask(0, c.allowAt)] + (if Admits(p, s.breaker, c.allowAt) then [Report(0, c.recordAt)] else []);
      var t := Machine.Exec(Step(p), s, run);
      && t.Some? && t.value.breaker == SendStep(p, s.breaker, c, Outcome.Failure(""))
      && t.value.sent == s.sent + (if Admits(p, s.breaker, c.allowAt) then [c.allowAt] else [])
  {
    var t := Next(p, s, Ask(0, c.allowAt)).value;
    if Admits(p, s.breaker, c.allowAt) {
      var run := [Ask(0, c.allowAt)] + [Report(0, c.recordAt)];
      assert run[1..] == [Report(0, c.recordAt)] && run[1..][1..] == [];
      var u := Next(p, t, Report(0, c.recordAt)).value;
      assert Machine.Exec(Step(p), u, []) == Some(u);
      assert Machine.Exec(Step(p), t, run[1..]) == Some(u);
    } else {
      var run := [Ask(0, c.allowAt)] + [];
      assert run[1..] == [];
      assert Machine.Exec(Step(p), t, []) == Some(t);
    }
  }

  /** Calls that n senders can make up to the first trip and in k half-open spells after it. */
  function Budget(p: Policy, n: nat, k: nat): int {
    p.failureThreshold + n - 1 + n * k
  }

  /** Before the first trip every call was reported or is under way. After it a half-open spell ends with
      the first report, so it adds no more calls than senders are busy; and k spells take k OpenDurations. */
  ghost predicate Counted(p: Policy, s: Shared) {
    var b := Count(s.busy, true);
    && 0 <= s.breaker.failures < p.failureThreshold && b <= |s.busy|
    && match s.firstTrip
       case None => s.breaker.mode == Closed && s.probes == 0 && |s.sent| == s.breaker.failures + b
       case Some(f) =>
         && f <= s.last
         && match s.breaker.mode
            case Closed => false
            case Open =>
              && |s.sent| <= Budget(p, |s.busy|, s.probes)
              && f + s.probes * p.openDuration <= s.breaker.openedAt <= s.last
            case HalfOpen =>
              && s.probes >= 1 && |s.sent| <= Budget(p, |s.busy|, s.probes - 1) + b
              && f + s.probes * p.openDuration <= s.last
  }

  /** How many OpenDurations fit between the first trip and t. */
  function Spells(p: Policy, firstTrip: int, t: int): nat
    requires p.Valid() && t >= firstTrip
  {
    DivideBound(t - firstTrip, 0, p.openDuration);
    (t - firstTrip) / p.openDuration
  }

  /** The bound for every time since the first trip. */
  ghost predicate Bounded(p: Policy, s: Shared)
    requires p.Valid()
  {
    && (forall k :: 0 <= k < |s.sent| ==> s.sent[k] <= s.last)
    && (s.firstTrip.Some? ==>
          forall t :: t >= s.firstTrip.value ==>
            CountUpTo(s.sent, t) <= Budget(p, |s.busy|, Spells(p, s.firstTrip.value, t)))
  }

  ghost predicate Inv(p: Policy, s: Shared)
    requires p.Valid()
  {
    Counted(p, s) && Bounded(p, s)
  }

  lemma BudgetNext(p: Policy, n: nat, k: nat)
    requires k >= 1
    ensures Budget(p, n, k) == Budget(p, n, k - 1) + n
  {
    MulPred(k, n);
  }

  lemma AskCounted(p: Policy, s: Shared, i: nat, now: int)
    requires p.Valid() && Counted(p, s) && Next(p, s, Ask(i, now)).Some?
    ensures Counted(p, Next(p, s, Ask(i, now)).value)
  {
    if Admits(p, s.breaker, now) {
      CountUpdate(s.busy, i, true, true);
      CountFull(s.busy[i := true], true);
      MulPred(s.probes + 1, p.openDuration);
    }
  }

  lemma ReportCounted(p: Policy, s: Shared, i: nat, now: int)
    requires p.Valid() && Counted(p, s) && Next(p, s, Report(i, now)).Some?
    ensures Counted(p, Next(p, s, Report(i, now)).value)
  {
    CountUpdate(s.busy, i, false, true);
    CountFull(s.busy[i := false], true);
    if s.probes >= 1 {
      BudgetNext(p, |s.busy|, s.probes);
    }
  }

  /** All calls so far, from a time at which all of them have been made. */
  lemma AllSent(p: Policy, s: Shared, t: int)
    requires p.Valid() && Counted(p, s) && s.firstTrip.Some? && t >= s.last
    ensures |s.sent| <= Budget(p, |s.busy|, Spells(p, s.firstTrip.value, t))
  {
    var f := s.firstTrip.value;
    DivideBound(t - f, s.probes, p.openDuration);
    MulMono(s.probes, Spells(p, f, t), |s.busy|);
    if s.breaker.mode == HalfOpen {
      BudgetNext(p, |s.busy|, s.probes);
    }
  }

  lemma StepBounded(p: Policy, s: Shared, e: Event)
    requires p.Valid() && Inv(p, s) && Next(p, s, e).Some? && Counted(p, Next(p, s, e).value)
    ensures Bounded(p, Next(p, s, e).value)
  {
    var u := Next(p, s, e).value;
    if u.firstTrip.Some? {
      forall t | t >= u.firstTrip.value
        ensures CountUpTo(u.sent, t) <= Budget(p, |u.busy|, Spells(p, u.firstTrip.value, t))
      {
        if t >= u.last {
          AllSent(p, u, t);
          CountUpToLength(u.sent, t);
        } else {
          assert u.firstTrip == s.firstTrip;
          assert u.sent == s.sent || u.sent[..|u.sent| - 1] == s.sent;
        }
      }
    }
  }

  /** With any number of overlapping senders, a downstream that always fails and a nondecreasing clock: up
      to any time t after the first trip, at most FailureThreshold + n - 1 + n * floor((t - firstTrip) /
      OpenDuration) calls reach the downstream, where n is the number of senders. For n = 1 that is the
      sequential bound. */
  lemma OverlappingBound(p: Policy, senders: nat, from: int, s: Shared, t: int)
    requires p.Valid() && senders >= 1 && Reachable(p, senders, from, s)
    requires s.firstTrip.Some? && t >= s.firstTrip.value
    ensures CountUpTo(s.sent, t) <=
            p.failureThreshold + senders - 1 + senders * ((t - s.firstTrip.value) / p.openDuration)
  {
    ReachableInv(p, senders, from, s);
  }

  /** And before the first trip at most FailureThreshold + n - 1 are forwarded. */
  lemma BeforeFirstTrip(p: Policy, senders: nat, from: int, s: Shared)
    requires p.Valid() && senders >= 1 && Reachable(p, senders, from, s) && s.firstTrip.None?
    ensures |s.sent| <= p.failureThreshold + senders - 1
  {
    ReachableInv(p, senders, from, s);
  }

  lemma ReachableInv(p: Policy, senders: nat, from: int, s: Shared)
    requires p.Valid() && senders >= 1 && Reachable(p, senders, from, s)
    ensures Inv(p, s) && |s.busy| == senders
  {
    var schedule :| Machine.Exec(Step(p), Start(senders, from), schedule) == Some(s);
    var inv := (u: Shared) => Inv(p, u) && |u.busy| == senders;
    forall u, e | inv(u) && Next(p, u, e).Some? ensures inv(Next(p, u, e).value) {
      match e {
        case Ask(i, now) => AskCounted(p, u, i, now);
        case Report(i, now) => ReportCounted(p, u, i, now);
      }
      StepBounded(p, u, e);
    }
    CountNone(Start(senders, from).busy, true);
    Machine.AlwaysHolds(Step(p), inv, Start(senders, from), schedule);
  }
}
