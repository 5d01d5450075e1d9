/** internal/alert/bulkhead.go: a semaphore channel and a separately updated counter, with any number
    of threads between the two updates. */
module Bulkhead {
  import opened Common
  import Machine

  /** Entering has put its token in the channel but not yet counted itself; Leaving has taken it out
      but is still counted. */
  datatype Thread = Idle | Entering | Holding | Leaving

  datatype State = State(threads: seq<Thread>, sem: nat, active: int)

  datatype Event =
    | Put(i: nat)        // Acquire: the channel has room
    | Reject(i: nat)     // Acquire: the channel is full, ErrBulkheadFull
    | CountUp(i: nat)    // Acquire: active++
    | Take(i: nat)       // Release: receive from the channel
    | CountDown(i: nat)  // Release: active--

  function Normalize(maxConcurrent: int): (n: nat)
    ensures n > 0 && n == if maxConcurrent > 0 then maxConcurrent else 8
  {
    if maxConcurrent <= 0 then 8 else maxConcurrent
  }

  predicate At(s: State, i: nat, t: Thread) {
    i < |s.threads| && s.threads[i] == t
  }

  function Next(limit: nat, s: State, e: Event): Option<State> {
    match e
    case Put(i) =>
      if At(s, i, Idle) && s.sem < limit
      then Some(s.(threads := s.threads[i := Entering], sem := s.sem + 1)) else None
    case Reject(i) =>
      if At(s, i, Idle) && s.sem >= limit then Some(s) else None
    case CountUp(i) =>
      if At(s, i, Entering) then Some(s.(threads := s.threads[i := Holding], active := s.active + 1)) else None
    case Take(i) =>
      if At(s, i, Holding) && s.sem > 0
      then Some(s.(threads := s.threads[i := Leaving], sem := s.sem - 1)) else None
    case CountDown(i) =>
      if At(s, i, Leaving) then Some(s.(threads := s.threads[i := Idle], active := s.active - 1)) else None
  }

  function Step(limit: nat): (State, Event) -> Option<State> {
    (s, e) => Next(limit, s, e)
  }

  function Start(threads: nat): State {
    State(seq(threads, _ => Idle), 0, 0)
  }

  ghost predicate Reachable(limit: nat, threads: nat, s: State) {
    Machine.Reaches(Step(limit), Start(threads), s)
  }

  ghost predicate Inv(limit: nat, s: State) {
    && s.sem == Count(s.threads, Entering) + Count(s.threads, Holding)
    && s.active == Count(s.threads, Holding) + Count(s.threads, Leaving)
    && s.sem <= limit
  }

  lemma MoveThread(threads: seq<Thread>, i: nat, t: Thread)
    requires i < |threads|
    ensures forall x :: Count(threads[i := t], x) ==
              Count(threads, x) - (if threads[i] == x then 1 else 0) + (if t == x then 1 else 0)
  {
    forall x ensures Count(threads[i := t], x) ==
        Count(threads, x) - (if threads[i] == x then 1 else 0) + (if t == x then 1 else 0)
    {
      CountUpdate(threads, i, t, x);
    }
  }

  lemma StepKeeps(limit: nat, s: State, e: Event)
    requires Inv(limit, s) && Next(limit, s, e).Some?
    ensures Inv(limit, Next(limit, s, e).value)
  {
    match e
    case Put(i) => MoveThread(s.threads, i, Entering);
    case Reject(i) =>
    case CountUp(i) => MoveThread(s.threads, i, Holding);
    case Take(i) => MoveThread(s.threads, i, Leaving);
    case CountDown(i) => MoveThread(s.threads, i, Idle);
  }

  lemma ReachableInv(limit: nat, threads: nat, s: State)
    requires Reachable(limit, threads, s)
    ensures Inv(limit, s)
  {
    var schedule :| Machine.Exec(Step(limit), Start(threads), schedule) == Some(s);
    forall t, e | Inv(limit, t) && Next(limit, t, e).Some?
      ensures Inv(limit, Next(limit, t, e).value)
    {
      StepKeeps(limit, t, e);
    }
    forall x | x != Idle ensures Count(Start(threads).threads, x) == 0 {
      CountNone(Start(threads).threads, x);
    }
    Machine.AlwaysHolds(Step(limit), t => Inv(limit, t), Start(threads), schedule);
  }

  /** In every reachable interleaving: holders never exceed the limit; the counter is off only by the
      threads between their two updates, and exceeds the limit by at most the number leaving. */
  lemma HoldersBounded(limit: nat, threads: nat, s: State)
    requires Reachable(limit, threads, s)
    ensures Count(s.threads, Holding) <= limit
    ensures s.active == Count(s.threads, Holding) + Count(s.threads, Leaving)
    ensures 0 <= s.active <= limit + Count(s.threads, Leaving)
  {
    ReachableInv(limit, threads, s);
  }

  /** Acquire is refused exactly when `limit` threads are entering or holding, and Release by a holder
      never blocks on the channel. */
  lemma RejectsOnlyWhenFull(limit: nat, threads: nat, s: State, i: nat)
    requires Reachable(limit, threads, s) && i < |s.threads|
    ensures Next(limit, s, Reject(i)).Some? <==>
              s.threads[i] == Idle && Count(s.threads, Entering) + Count(s.threads, Holding) == limit
    ensures s.threads[i] == Holding ==> Next(limit, s, Take(i)).Some?
  {
    ReachableInv(limit, threads, s);
    CountSome(s.threads, i);
  }

  /** A thread is never stuck: in every reachable state it has exactly one next step, which takes it
      through Entering to Holding, or through Leaving back to Idle, and moves no other thread. */
  lemma ThreadsMove(limit: nat, threads: nat, s: State, i: nat) returns (e: Event)
    requires Reachable(limit, threads, s) && i < |s.threads|
    ensures e.i == i && Next(limit, s, e).Some?
    ensures forall e': Event :: e'.i == i && e' != e ==> Next(limit, s, e').None?
    ensures
      var t := Next(limit, s, e).value;
      t.threads == s.threads[i := match s.threads[i]
                                  case Idle => if e.Reject? then Idle else Entering
                                  case Entering => Holding
                                  case Holding => Leaving
                                  case Leaving => Idle]
  {
    RejectsOnlyWhenFull(limit, threads, s, i);
    e := match s.threads[i]
      case Idle => if s.sem < limit then Put(i) else Reject(i)
      case Entering => CountUp(i)
      case Holding => Take(i)
      case Leaving => CountDown(i);
  }

  /** When every thread is idle again, the channel is empty and the counter is zero. */
  lemma Quiescence(limit: nat, threads: nat, s: State)
    requires Reachable(limit, threads, s) && forall i :: 0 <= i < |s.threads| ==> s.threads[i] == Idle
    ensures s.sem == 0 && s.active == 0
  {
    ReachableInv(limit, threads, s);
    forall x | x != Idle ensures Count(s.threads, x) == 0 {
      CountNone(s.threads, x);
    }
  }

  /** The bulkhead when no two calls overlap. */
  class Limiter {
    const limit: nat
    var sem: nat
    var active: int

    ghost predicate Valid()
      reads this
    {
      limit > 0 && sem <= limit && active == sem
    }

    constructor (maxConcurrent: int)
      ensures Valid() && sem == 0 && limit == Normalize(maxConcurrent)
    {
      limit := Normalize(maxConcurrent);
      sem, active := 0, 0;
    }

    method Acquire() returns (ok: bool)
      requires Valid()
      modifies this
      ensures Valid() && ok == (old(sem) < limit) && sem == old(sem) + (if ok then 1 else 0)
    {
      ok := sem < limit;
      if ok {
        sem := sem + 1;
        active := active + 1;
      }
    }

    method Release()
      requires Valid() && sem > 0
      modifies this
      ensures Valid() && sem == old(sem) - 1
    {
      sem := sem - 1;
      active := active - 1;
    }
  }
}

/** internal/alert/shedload.go: an atomic counter that is raised first and lowered again on refusal. */
module LoadShedder {
  import opened Common
  import Machine

  /** Undoing has raised the counter beyond the limit and is about to lower it. */
  datatype Thread = Idle | Holding | Undoing

  datatype State = State(threads: seq<Thread>, inflight: int)

  datatype Event =
    | Add(i: nat)      // Acquire: Add(1), then compare its result
    | Undo(i: nat)     // Acquire: Add(-1), ErrLoadShed
    | Release(i: nat)  // Release: Add(-1)

  function Normalize(maxInFlight: int): (n: nat)
    ensures n > 0 && n == if maxInFlight > 0 then maxInFlight else 32
  {
    if maxInFlight <= 0 then 32 else maxInFlight
  }

  predicate At(s: State, i: nat, t: Thread) {
    i < |s.threads| && s.threads[i] == t
  }

  function Next(limit: nat, s: State, e: Event): Option<State> {
    match e
    case Add(i) =>
      if At(s, i, Idle) then
        Some(State(s.threads[i := if s.inflight + 1 > limit then Undoing else Holding], s.inflight + 1))
      else None
    case Undo(i) =>
      if At(s, i, Undoing) then Some(State(s.threads[i := Idle], s.inflight - 1)) else None
    case Release(i) =>
      if At(s, i, Holding) then Some(State(s.threads[i := Idle], s.inflight - 1)) else None
  }

  function Step(limit: nat): (State, Event) -> Option<State> {
    (s, e) => Next(limit, s, e)
  }

  function Start(threads: nat): State {
    State(seq(threads, _ => Idle), 0)
  }

  ghost predicate Reachable(limit: nat, threads: nat, s: State) {
    Machine.Reaches(Step(limit), Start(threads), s)
  }

  ghost predicate Inv(limit: nat, s: State) {
    && s.inflight == Count(s.threads, Holding) + Count(s.threads, Undoing)
    && Count(s.threads, Holding) <= limit
  }

  lemma StepKeeps(limit: nat, s: State, e: Event)
    requires Inv(limit, s) && Next(limit, s, e).Some?
    ensures Inv(limit, Next(limit, s, e).value)
  {
    var t := Next(limit, s, e).value;
    CountUpdate(s.threads, e.i, t.threads[e.i], Holding);
    CountUpdate(s.threads, e.i, t.threads[e.i], Undoing);
  }

  lemma ReachableInv(limit: nat, threads: nat, s: State)
    requires Reachable(limit, threads, s)
    ensures Inv(limit, s)
  {
    var schedule :| Machine.Exec(Step(limit), Start(threads), schedule) == Some(s);
    forall t, e | Inv(limit, t) && Next(limit, t, e).Some?
      ensures Inv(limit, Next(limit, t, e).value)
    {
      StepKeeps(limit, t, e);
    }
    CountNone(Start(threads).threads, Holding);
    CountNone(Start(threads).threads, Undoing);
    Machine.AlwaysHolds(Step(limit), t => Inv(limit, t), Start(threads), schedule);
  }

  /** In every reachable interleaving holders never exceed the limit, and InFlight counts the holders
      and the refusals not yet undone. */
  lemma HoldersBounded(limit: nat, threads: nat, s: State)
    requires Reachable(limit, threads, s)
    ensures Count(s.threads, Holding) <= limit
    ensures s.inflight == Count(s.threads, Holding) + Count(s.threads, Undoing)
  {
    ReachableInv(limit, threads, s);
  }

  /** Acquire is refused exactly when holders and pending refusals together reach the limit. */
  lemma RejectsExactly(limit: nat, threads: nat, s: State, i: nat)
    requires Reachable(limit, threads, s) && At(s, i, Idle)
    ensures At(Next(limit, s, Add(i)).value, i, Undoing) <==>
              Count(s.threads, Holding) + Count(s.threads, Undoing) >= limit
  {
    ReachableInv(limit, threads, s);
  }

  /** A thread is never stuck: it has exactly one next step, which takes it to Holding or to a refusal and
      from either back to Idle, and moves no other thread. */
  lemma ThreadsMove(limit: nat, s: State, i: nat) returns (e: Event)
    requires i < |s.threads|
    ensures e.i == i && Next(limit, s, e).Some?
    ensures forall e': Event :: e'.i == i && e' != e ==> Next(limit, s, e').None?
    ensures
      var t := Next(limit, s, e).value;
      if s.threads[i] == Idle
      then t.threads == s.threads[i := Holding] || t.threads == s.threads[i := Undoing]
      else t.threads == s.threads[i := Idle]
  {
    e := match s.threads[i]
      case Idle => Add(i)
      case Undoing => Undo(i)
      case Holding => Release(i);
  }

  /** When every thread is idle again, the counter is zero. */
  lemma Quiescence(limit: nat, threads: nat, s: State)
    requires Reachable(limit, threads, s) && forall i :: 0 <= i < |s.threads| ==> s.threads[i] == Idle
    ensures s.inflight == 0
  {
    ReachableInv(limit, threads, s);
    CountNone(s.threads, Holding);
    CountNone(s.threads, Undoing);
  }

  /** Unlike the bulkhead, the shedder can refuse a call while nobody holds a slot: a pending refusal
      still occupies one. */
  lemma SpuriousRefusal() returns (s: State)
    ensures Reachable(1, 3, s) && Count(s.threads, Holding) == 0 && At(s, 2, Idle)
    ensures At(Next(1, s, Add(2)).value, 2, Undoing)
  {
    Machine.ReachSelf(Step(1), Start(3));
    var s1 := Machine.ReachStep(Step(1), Start(3), Start(3), Add(0));
    var s2 := Machine.ReachStep(Step(1), Start(3), s1, Add(1));
    s := Machine.ReachStep(Step(1), Start(3), s2, Release(0));
    assert s.threads == [Idle, Undoing, Idle];
    CountNone(s.threads, Holding);
  }

  /** The shedder when no two calls overlap. */
  class Shedder {
    const limit: nat
    var inflight: int

    ghost predicate Valid()
      reads this
    {
      limit > 0 && inflight <= limit
    }

    constructor (maxInFlight: int)
      ensures Valid() && inflight == 0 && limit == Normalize(maxInFlight)
    {
      limit := Normalize(maxInFlight);
      inflight := 0;
    }

    method Acquire() returns (ok: bool)
      requires Valid()
      modifies this
      ensures Valid() && ok == (old(inflight) < limit) && inflight == old(inflight) + (if ok then 1 else 0)
    {
      inflight := inflight + 1;
      if inflight > limit {
        inflight := inflight - 1;
        return false;
      }
      return true;
    }

    /** An unmatched Release lends the next callers a slot above the limit. */
    method Release()
      requires Valid()
      modifies this
      ensures Valid() && inflight == old(inflight) - 1
    {
      inflight := inflight - 1;
    }
  }
}

/** Calls that do not overlap, made on both limiters. */
module AdmissionTraces {
  import opened Common
  import Bulkhead
  import LoadShedder

  /** A client either acquires or, when it holds a slot, releases. */
  datatype Op = Acquire(i: nat) | Release(i: nat)

  /** The steps that one uninterrupted operation takes on the bulkhead; None when the client is not in
      a position to make the call. The answer is whether a slot was granted. */
  function OnBulkhead(limit: nat, s: Bulkhead.State, op: Op): Option<(Bulkhead.State, bool)> {
    match op
    case Acquire(i) =>
      if Bulkhead.Next(limit, s, Bulkhead.Reject(i)).Some? then Some((s, false))
      else (
        var s1 := Bulkhead.Next(limit, s, Bulkhead.Put(i));
        if s1.None? then None else
        var s2 := Bulkhead.Next(limit, s1.value, Bulkhead.CountUp(i));
        if s2.None? then None else Some((s2.value, true)))
    case Release(i) =>
      var s1 := Bulkhead.Next(limit, s, Bulkhead.Take(i));
      if s1.None? then None else
      var s2 := Bulkhead.Next(limit, s1.value, Bulkhead.CountDown(i));
      if s2.None? then None else Some((s2.value, true))
  }

  function OnShedder(limit: nat, s: LoadShedder.State, op: Op): Option<(LoadShedder.State, bool)> {
    match op
    case Acquire(i) =>
      var s1 := LoadShedder.Next(limit, s, LoadShedder.Add(i));
      if s1.None? then None
      else if LoadShedder.At(s1.value, i, LoadShedder.Undoing) then (
        var s2 := LoadShedder.Next(limit, s1.value, LoadShedder.Undo(i));
        if s2.None? then None else Some((s2.value, false)))
      else Some((s1.value, true))
    case Release(i) =>
      var s1 := LoadShedder.Next(limit, s, LoadShedder.Release(i));
      if s1.None? then None else Some((s1.value, true))
  }

  /** The answers of a run, or None when a client calls out of turn. */
  function Answers<S>(step: (S, Op) -> Option<(S, bool)>, s: S, ops: seq<Op>): Option<seq<bool>>
    decreases |ops|
  {
    if ops == [] then Some([])
    else
      match step(s, ops[0])
      case None => None
      case Some((t, answer)) =>
        var rest := Answers(step, t, ops[1..]);
        if rest.None? then None else Some([answer] + rest.value)
  }

  function BulkheadOp(limit: nat): (Bulkhead.State, Op) -> Option<(Bulkhead.State, bool)> {
    (s, op) => OnBulkhead(limit, s, op)
  }

  function ShedderOp(limit: nat): (LoadShedder.State, Op) -> Option<(LoadShedder.State, bool)> {
    (s, op) => OnShedder(limit, s, op)
  }

  ghost predicate Same(limit: nat, b: Bulkhead.State, l: LoadShedder.State) {
    && |b.threads| == |l.threads| && b.sem == b.active == l.inflight && b.sem <= limit
    && (forall i :: 0 <= i < |b.threads| ==>
          if b.threads[i] == Bulkhead.Holding then l.threads[i] == LoadShedder.Holding && b.sem > 0
          else b.threads[i] == Bulkhead.Idle && l.threads[i] == LoadShedder.Idle)
    && b.sem == Count(b.threads, Bulkhead.Holding)
  }

  lemma SameStep(limit: nat, b: Bulkhead.State, l: LoadShedder.State, op: Op)
    requires Same(limit, b, l)
    ensures
      var b', l' := OnBulkhead(limit, b, op), OnShedder(limit, l, op);
      && b'.Some? == l'.Some?
      && (b'.Some? ==> b'.value.1 == l'.value.1 && Same(limit, b'.value.0, l'.value.0))
  {
    var i := op.i;
    if i < |b.threads| {
      var r := OnBulkhead(limit, b, op);
      if r.Some? {
        var t := r.value.0;
        assert t.threads == b.threads[i := t.threads[i]];
        assert l.threads[i := LoadShedder.Undoing][i := LoadShedder.Idle] == l.threads[i := LoadShedder.Idle];
        CountUpdate(b.threads, i, t.threads[i], Bulkhead.Holding);
        forall j | 0 <= j < |t.threads| && t.threads[j] == Bulkhead.Holding ensures t.sem > 0 {
          CountSome(t.threads, j);
        }
      }
    }
  }

  /** Run without interleaving, the two limiters accept and refuse exactly the same calls. */
  lemma {:induction false} SameTraces(limit: nat, b: Bulkhead.State, l: LoadShedder.State, ops: seq<Op>)
    requires Same(limit, b, l)
    ensures Answers(BulkheadOp(limit), b, ops) == Answers(ShedderOp(limit), l, ops)
    decreases |ops|
  {
    if ops != [] {
      SameStep(limit, b, l, ops[0]);
      var b', l' := OnBulkhead(limit, b, ops[0]), OnShedder(limit, l, ops[0]);
      if b'.Some? {
        SameTraces(limit, b'.value.0, l'.value.0, ops[1..]);
      }
    }
  }

  lemma SameFromStart(limit: nat, threads: nat, ops: seq<Op>)
    ensures Answers(BulkheadOp(limit), Bulkhead.Start(threads), ops) ==
            Answers(ShedderOp(limit), LoadShedder.Start(threads), ops)
  {
    CountNone(Bulkhead.Start(threads).threads, Bulkhead.Holding);
    SameTraces(limit, Bulkhead.Start(threads), LoadShedder.Start(threads), ops);
  }
}
