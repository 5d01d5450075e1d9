/** internal/alert/digest.go. Add and the first part of flush hold the mutex. The timer runs flush in
    its own goroutine, which may already be waiting for the mutex when flush stops the timer. */
module Digest {
  import opened Common
  import Keys
  import Machine

  datatype Entry = Entry(note: Notification, count: nat)

  /** A timer made by AfterFunc: waiting, fired with its goroutine waiting for the mutex, or finished
      (its flush has run, or it was stopped in time). */
  datatype Timer = Armed | Fired | Finished

  /** current indexes the timer that flushTimer points to. flushed and added are history variables: the
      buckets taken by flushes, and the key of every Add. */
  datatype State = State(
    bucket: map<string, Entry>, current: Option<nat>, timers: seq<Timer>,
    flushed: seq<map<string, Entry>>, added: seq<string>)

  datatype Event =
    | Add(n: Notification)
    | Expire(t: nat)      // the window of timer t elapses
    | TimerFlush(t: nat)  // the goroutine of timer t gets the mutex
    | ManualFlush

  function KeyOf(n: Notification): string {
    Keys.Key(n.port, n.state)
  }

  /** Notifications share an entry exactly when they agree in port and state. */
  lemma SameEntryExactly(n: Notification, n': Notification)
    ensures KeyOf(n) == KeyOf(n') <==> n.port == n'.port && n.state == n'.state
  {
    if KeyOf(n) == KeyOf(n') {
      Keys.KeyInjective(n.port, n.state, n'.port, n'.state);
    }
  }

  function Bump(bucket: map<string, Entry>, n: Notification): map<string, Entry> {
    var key := KeyOf(n);
    bucket[key := if key in bucket then bucket[key].(count := bucket[key].count + 1) else Entry(n, 1)]
  }

  /** The mutex-held part of flush. */
  function Flush(s: State): State {
    s.(flushed := s.flushed + [s.bucket],
       bucket := map[],
       timers := match s.current
                 case Some(t) =>
                   if t < |s.timers| && s.timers[t] == Armed then s.timers[t := Finished] else s.timers
                 case None => s.timers,
       current := None)
  }

  function Next(s: State, e: Event): Option<State> {
    match e
    case Add(n) =>
      var t := s.(bucket := Bump(s.bucket, n), added := s.added + [KeyOf(n)]);
      Some(if s.current.Some? then t else t.(current := Some(|s.timers|), timers := s.timers + [Armed]))
    case Expire(t) =>
      if t < |s.timers| && s.timers[t] == Armed then Some(s.(timers := s.timers[t := Fired])) else None
    case TimerFlush(t) =>
      if t < |s.timers| && s.timers[t] == Fired then Some(Flush(s.(timers := s.timers[t := Finished]))) else None
    case ManualFlush => Some(Flush(s))
  }

  function Step(): (State, Event) -> Option<State> {
    (s, e) => Next(s, e)
  }

  const START := State(map[], None, [], [], [])

  ghost predicate Reachable(s: State) {
    Machine.Reaches(Step(), START, s)
  }

  function CountOf(bucket: map<string, Entry>, key: string): nat {
    if key in bucket then bucket[key].count else 0
  }

  function FlushedCount(flushed: seq<map<string, Entry>>, key: string): nat {
    if flushed == [] then 0
    else FlushedCount(flushed[..|flushed| - 1], key) + CountOf(flushed[|flushed| - 1], key)
  }

  ghost predicate Conserved(s: State) {
    forall key :: FlushedCount(s.flushed, key) + CountOf(s.bucket, key) == Count(s.added, key)
  }

  /** flushTimer is set exactly while something waits in the bucket, and then that timer is armed or
      its goroutine is on its way; no other timer is armed. */
  ghost predicate TimerInv(s: State) {
    && (s.current.Some? <==> s.bucket != map[])
    && (s.current.Some? ==> s.current.value < |s.timers| && s.timers[s.current.value] != Finished)
    && (forall t :: 0 <= t < |s.timers| && s.timers[t] == Armed ==> s.current == Some(t))
  }

  ghost predicate Inv(s: State) {
    Conserved(s) && TimerInv(s) && forall k :: k in s.bucket ==> s.bucket[k].count >= 1 && KeyOf(s.bucket[k].note) == k
  }

  lemma FlushKeeps(s: State)
    requires Conserved(s)
    requires forall t :: 0 <= t < |s.timers| && s.timers[t] == Armed ==> s.current == Some(t)
    ensures Inv(Flush(s))
  {
    var f := Flush(s);
    forall key ensures FlushedCount(f.flushed, key) + CountOf(f.bucket, key) == Count(f.added, key) {
      assert f.flushed[..|s.flushed|] == s.flushed;
      assert FlushedCount(s.flushed, key) + CountOf(s.bucket, key) == Count(s.added, key);
    }
  }

  lemma AddKeeps(s: State, n: Notification)
    requires Inv(s)
    ensures Inv(Next(s, Add(n)).value)
  {
    var t := Next(s, Add(n)).value;
    forall key ensures FlushedCount(t.flushed, key) + CountOf(t.bucket, key) == Count(t.added, key) {
      CountConcat(s.added, [KeyOf(n)], key);
      assert FlushedCount(s.flushed, key) + CountOf(s.bucket, key) == Count(s.added, key);
    }
    assert KeyOf(n) in t.bucket;
  }

  lemma StepKeeps(s: State, e: Event)
    requires Inv(s) && Next(s, e).Some?
    ensures Inv(Next(s, e).value)
  {
    match e
    case Add(n) => AddKeeps(s, n);
    case Expire(t) => assert forall key :: FlushedCount(s.flushed, key) + CountOf(s.bucket, key) == Count(s.added, key);
    case TimerFlush(t) =>
      var u := s.(timers := s.timers[t := Finished]);
      assert Conserved(u) by {
        assert forall key :: FlushedCount(s.flushed, key) + CountOf(s.bucket, key) == Count(s.added, key);
      }
      FlushKeeps(u);
    case ManualFlush => FlushKeeps(s);
  }

  /** When each event can happen, and what it does to the timers: the first Add of a bucket arms a new
      timer; a timer fires while it is armed, and its goroutine then flushes; a manual flush is always
      possible. Every flush takes the whole bucket and stops its timer unless that has already fired. */
  lemma EventsExactly(s: State, t: nat, n: Notification)
    requires Inv(s) && t < |s.timers|
    ensures Next(s, Add(n)).Some? && Next(s, ManualFlush).Some?
    ensures Next(s, Expire(t)).Some? <==> s.timers[t] == Armed
    ensures Next(s, TimerFlush(t)).Some? <==> s.timers[t] == Fired
    ensures
      var u := Next(s, Add(n)).value;
      if s.current.Some? then u.current == s.current && u.timers == s.timers
      else u.current == Some(|s.timers|) && u.timers == s.timers + [Armed]
    ensures forall e :: (e == ManualFlush || e == TimerFlush(t)) && Next(s, e).Some? ==>
              var u := Next(s, e).value;
              && u.bucket == map[] && u.flushed == s.flushed + [s.bucket] && u.current == None
              && |u.timers| == |s.timers|
              && forall k :: 0 <= k < |s.timers| ==>
                   u.timers[k] == if s.timers[k] == Armed || e == TimerFlush(k) then Finished else s.timers[k]
  {
  }

  lemma ReachableInv(s: State)
    requires Reachable(s)
    ensures Inv(s)
  {
    var schedule :| Machine.Exec(Step(), START, schedule) == Some(s);
    forall t, e | Inv(t) && Next(t, e).Some? ensures Inv(Next(t, e).value) {
      StepKeeps(t, e);
    }
    Machine.AlwaysHolds(Step(), t => Inv(t), START, schedule);
  }

  /** Whatever Adds, timers and manual flushes interleave, for every key the counts flushed plus the
      count in the bucket are exactly the number of Adds. */
  lemma Conservation(s: State, key: string)
    requires Reachable(s)
    ensures FlushedCount(s.flushed, key) + CountOf(s.bucket, key) == Count(s.added, key)
  {
    ReachableInv(s);
  }

  /** Nothing is stranded: whenever the bucket is non-empty, its timer alone, without another Add or
      manual flush, flushes all of it; and when it is empty no timer is armed. */
  lemma NothingStranded(s: State) returns (schedule: seq<Event>)
    requires Reachable(s)
    ensures s.bucket != map[] ==>
              && (forall e :: e in schedule ==> e.Expire? || e.TimerFlush?)
              && Machine.Exec(Step(), s, schedule).Some?
              && Machine.Exec(Step(), s, schedule).value.bucket == map[]
              && Machine.Exec(Step(), s, schedule).value.flushed == s.flushed + [s.bucket]
    ensures s.bucket == map[] ==> forall t :: 0 <= t < |s.timers| ==> s.timers[t] != Armed
  {
    ReachableInv(s);
    schedule := [];
    if s.bucket != map[] {
      var t := s.current.value;
      var fired := s.(timers := s.timers[t := Fired]);
      var done := Flush(fired.(timers := fired.timers[t := Finished]));
      assert Next(fired, TimerFlush(t)) == Some(done);
      assert Machine.Exec(Step(), done, []) == Some(done);
      assert [TimerFlush(t)][1..] == [];
      assert Step()(fired, TimerFlush(t)) == Some(done);
      assert Machine.Exec(Step(), fired, [TimerFlush(t)]) == Some(done);
      if s.timers[t] == Armed {
        schedule := [Expire(t), TimerFlush(t)];
        assert schedule[1..] == [TimerFlush(t)];
        assert Step()(s, Expire(t)) == Some(fired);
      } else {
        schedule := [TimerFlush(t)];
        assert s.timers[t := Fired] == s.timers;
        assert s == fired;
      }
    }
  }

  /** A digest can be cut short: a timer that has already fired when Flush stops it goes on to flush the
      next bucket, although that bucket's own timer is still armed. */
  lemma StaleTimerFlushesEarly(n: Notification) returns (s: State)
    ensures Reachable(s) && s.current == Some(1) && s.timers == [Fired, Armed] && KeyOf(n) in s.bucket
    ensures Next(s, TimerFlush(0)).Some? && Next(s, TimerFlush(0)).value.bucket == map[]
  {
    Machine.ReachSelf(Step(), START);
    s := Machine.ReachStep(Step(), START, START, Add(n));
    s := Machine.ReachStep(Step(), START, s, Expire(0));
    s := Machine.ReachStep(Step(), START, s, ManualFlush);
    s := Machine.ReachStep(Step(), START, s, Add(n));
  }

  // ---- Whose bucket a timer flushes ---------------------------------------------------------

  /** The state after a run, if each of its events is enabled. */
  function After(run: seq<Event>): Option<State> {
    Machine.Exec(Step(), START, run)
  }

  /** flushTimer.Stop() returns false: the current timer has fired and waits for the mutex. */
  predicate StopFails(s: State) {
    s.current.Some? && s.current.value < |s.timers| && s.timers[s.current.value] == Fired
  }

  /** Timer t waits for the mutex although the bucket it was made for is gone. */
  predicate Stale(s: State, t: nat) {
    t < |s.timers| && s.timers[t] == Fired && s.current != Some(t)
  }

  /** A flush other than t's own takes t's bucket, too late to stop t. */
  predicate Overtakes(s: State, e: Event, t: nat) {
    (e.ManualFlush? || (e.TimerFlush? && e.t != t)) && s.current == Some(t) && StopFails(s)
  }

  /** Event i of the run overtook t, and t has not flushed since. */
  predicate OvertakenAt(run: seq<Event>, t: nat, i: nat) {
    && i < |run| && After(run[..i]).Some?
    && Overtakes(After(run[..i]).value, run[i], t) && TimerFlush(t) !in run[i + 1..]
  }

  ghost predicate Overtaken(run: seq<Event>, t: nat) {
    exists i: nat :: OvertakenAt(run, t, i)
  }

  lemma StaleStep(s: State, e: Event, t: nat)
    requires TimerInv(s) && Next(s, e).Some?
    ensures Stale(Next(s, e).value, t) <==> Overtakes(s, e, t) || (Stale(s, t) && e != TimerFlush(t))
  {
  }

  lemma OvertakenNext(run: seq<Event>, e: Event, t: nat)
    requires After(run).Some?
    ensures Overtaken(run + [e], t) <==>
            Overtakes(After(run).value, e, t) || (Overtaken(run, t) && e != TimerFlush(t))
  {
    var longer := run + [e];
    forall i: nat | i < |run| ensures OvertakenAt(longer, t, i) <==> OvertakenAt(run, t, i) && e != TimerFlush(t) {
      assert longer[..i] == run[..i] && longer[i + 1..] == run[i + 1..] + [e];
    }
    assert longer[..|run|] == run;
    assert OvertakenAt(longer, t, |run|) <==> Overtakes(After(run).value, e, t);
    if Overtaken(run, t) && e != TimerFlush(t) {
      var i: nat :| OvertakenAt(run, t, i);
      assert OvertakenAt(longer, t, i);
    }
  }

  lemma RunLast(run: seq<Event>) returns (init: seq<Event>, e: Event)
    requires run != [] && After(run).Some?
    ensures run == init + [e] && After(init).Some? && After(run) == Next(After(init).value, e)
    ensures Inv(After(init).value)
  {
    init, e := run[..|run| - 1], run[|run| - 1];
    Machine.LastStep(Step(), START, run);
    ReachableInv(After(init).value);
  }

  /** After every run the timers that wait for the mutex without a bucket of their own are exactly the
      overtaken ones. */
  lemma {:induction false} StaleExactly(run: seq<Event>, t: nat)
    requires After(run).Some?
    ensures Stale(After(run).value, t) <==> Overtaken(run, t)
    decreases |run|
  {
    if run != [] {
      var init, e := RunLast(run);
      StaleExactly(init, t);
      StaleStep(After(init).value, e, t);
      OvertakenNext(init, e, t);
    }
  }

  /** After any run, a timer that gets the mutex takes a bucket other than its own if and only if it was
      overtaken. In particular one that takes a bucket whose own timer is still armed was. */
  lemma ForeignBucketExactly(run: seq<Event>, t: nat)
    requires After(run).Some? && Next(After(run).value, TimerFlush(t)).Some?
    ensures After(run).value.current != Some(t) <==> Overtaken(run, t)
    ensures
      var s := After(run).value;
      s.current.Some? && s.current.value < |s.timers| && s.timers[s.current.value] == Armed ==>
        s.bucket != map[] && Overtaken(run, t)
  {
    ReachableInv(After(run).value);
    StaleExactly(run, t);
  }

  /** Event i is a manual flush whose Stop comes too late. */
  predicate LateManualFlush(run: seq<Event>, i: nat) {
    i < |run| && run[i] == ManualFlush && After(run[..i]).Some? && StopFails(After(run[..i]).value)
  }

  /** While no manual flush has come too late to stop its timer, no timer is stale. */
  lemma {:induction false} NoStaleTimers(run: seq<Event>, t: nat)
    requires After(run).Some? && forall i: nat :: !LateManualFlush(run, i)
    ensures !Stale(After(run).value, t)
    decreases |run|
  {
    if run != [] {
      var init, e := RunLast(run);
      forall i: nat ensures !LateManualFlush(init, i) {
        assert i < |init| ==> run[..i] == init[..i];
        assert !LateManualFlush(run, i);
      }
      NoStaleTimers(init, t);
      StaleStep(After(init).value, e, t);
      assert run[..|init|] == init && !LateManualFlush(run, |init|);
      if e.TimerFlush? {
        NoStaleTimers(init, e.t);
      }
    }
  }

  /** Event i is a timer's flush and finds that timer's own bucket. */
  predicate OwnBucketAt(run: seq<Event>, i: nat) {
    i < |run| && run[i].TimerFlush? && After(run[..i]).Some? ==> After(run[..i]).value.current == Some(run[i].t)
  }

  lemma OwnBucketInit(init: seq<Event>, e: Event, i: nat)
    requires i < |init|
    ensures OwnBucketAt(init + [e], i) <==> OwnBucketAt(init, i)
    ensures LateManualFlush(init + [e], i) <==> LateManualFlush(init, i)
  {
    assert (init + [e])[..i] == init[..i];
  }

  lemma {:induction false} EachFindsItsOwn(run: seq<Event>, i: nat)
    requires After(run).Some? && forall j: nat :: !LateManualFlush(run, j)
    ensures OwnBucketAt(run, i)
    decreases |run|
  {
    if i < |run| {
      var init, e := RunLast(run);
      assert run[..|init|] == init;
      forall j: nat ensures !LateManualFlush(init, j) {
        if j < |init| {
          OwnBucketInit(init, e, j);
        }
      }
      if i < |init| {
        EachFindsItsOwn(init, i);
        OwnBucketInit(init, e, i);
      } else if e.TimerFlush? {
        NoStaleTimers(init, e.t);
      }
    }
  }

  /** A timer that a manual flush was too late to stop flushes a bucket that is not its own later in the
      run, or is still about to. */
  lemma {:induction false} LateFlushShows(run: seq<Event>, i: nat)
    requires After(run).Some? && LateManualFlush(run, i)
    ensures (exists j: nat :: !OwnBucketAt(run, j)) || exists t: nat :: Stale(After(run).value, t)
    decreases |run|
  {
    var init, e := RunLast(run);
    var s := After(init).value;
    assert run[..|init|] == init;
    if i == |init| {
      StaleStep(s, e, s.current.value);
    } else {
      OwnBucketInit(init, e, i);
      LateFlushShows(init, i);
      if j: nat :| !OwnBucketAt(init, j) {
        OwnBucketInit(init, e, j);
      } else {
        var t: nat :| Stale(s, t);
        StaleStep(s, e, t);
        assert e == TimerFlush(t) ==> !OwnBucketAt(run, |init|);
      }
    }
  }

  /** One batch per window, exactly: every timer that has flushed found its own bucket, and every timer
      about to flush will, if and only if each manual flush came in time to stop its timer. */
  lemma OneBatchPerWindowExactly(run: seq<Event>)
    requires After(run).Some?
    ensures (forall i: nat :: OwnBucketAt(run, i)) && (forall t: nat :: !Stale(After(run).value, t))
            <==> forall i: nat :: !LateManualFlush(run, i)
  {
    if i: nat :| LateManualFlush(run, i) {
      LateFlushShows(run, i);
    } else {
      forall i: nat ensures OwnBucketAt(run, i) {
        EachFindsItsOwn(run, i);
      }
      forall t: nat ensures !Stale(After(run).value, t) {
        NoStaleTimers(run, t);
      }
    }
  }

  /** Timers alone never mix windows. */
  lemma WithoutManualFlush(run: seq<Event>, i: nat)
    requires After(run).Some? && ManualFlush !in run && i < |run| && run[i].TimerFlush?
    ensures After(run[..i]).Some? && After(run[..i]).value.current == Some(run[i].t)
  {
    EachFindsItsOwn(run, i);
    RunPrefix(run, i);
  }

  lemma {:induction false} RunPrefix(run: seq<Event>, i: nat)
    requires After(run).Some? && i <= |run|
    ensures After(run[..i]).Some?
    decreases |run|
  {
    if i == |run| {
      assert run[..i] == run;
    } else {
      var init, e := RunLast(run);
      RunPrefix(init, i);
      assert init[..i] == run[..i];
    }
  }

  // ---- What the digests hold ---------------------------------------------------------------

  predicate IsFlush(e: Event) {
    e.TimerFlush? || e.ManualFlush?
  }

  /** The notifications added since the last flush of a run. */
  function Waiting(run: seq<Event>): seq<Notification> {
    if run == [] then []
    else
      var init, e := run[..|run| - 1], run[|run| - 1];
      if e.Add? then Waiting(init) + [e.n] else if IsFlush(e) then [] else Waiting(init)
  }

  /** For each flush of a run, the notifications added since the one before. */
  function Taken(run: seq<Event>): seq<seq<Notification>> {
    if run == [] then []
    else
      var init, e := run[..|run| - 1], run[|run| - 1];
      if IsFlush(e) then Taken(init) + [Waiting(init)] else Taken(init)
  }

  /** The first notification of the key. */
  function First(adds: seq<Notification>, key: string): Option<Notification> {
    if adds == [] then None
    else
      var before, n := First(adds[..|adds| - 1], key), adds[|adds| - 1];
      if before.Some? || KeyOf(n) != key then before else Some(n)
  }

  lemma FirstIsEarliest(adds: seq<Notification>, key: string, i: nat)
    requires i < |adds| && KeyOf(adds[i]) == key && forall j :: 0 <= j < i ==> KeyOf(adds[j]) != key
    ensures First(adds, key) == Some(adds[i])
  {
    NoneOfKey(adds[..i], key);
    var prefix := adds[..i + 1];
    assert prefix[..|prefix| - 1] == adds[..i];
    FirstStays(adds, i + 1, key);
  }

  lemma {:induction false} FirstStays(adds: seq<Notification>, k: nat, key: string)
    requires k <= |adds| && First(adds[..k], key).Some?
    ensures First(adds, key) == First(adds[..k], key)
    decreases |adds|
  {
    if k == |adds| {
      assert adds[..k] == adds;
    } else {
      assert adds[..|adds| - 1][..k] == adds[..k];
      FirstStays(adds[..|adds| - 1], k, key);
    }
  }

  lemma {:induction false} NoneOfKey(adds: seq<Notification>, key: string)
    requires forall j :: 0 <= j < |adds| ==> KeyOf(adds[j]) != key
    ensures First(adds, key) == None && Times(adds, key) == 0
  {
    if adds != [] {
      NoneOfKey(adds[..|adds| - 1], key);
    }
  }

  /** How many of the notifications have the key. */
  function Times(adds: seq<Notification>, key: string): nat {
    if adds == [] then 0
    else Times(adds[..|adds| - 1], key) + (if KeyOf(adds[|adds| - 1]) == key then 1 else 0)
  }

  /** The bucket has one entry per key among the notifications: the first of them, and their number. */
  ghost predicate Digests(bucket: map<string, Entry>, adds: seq<Notification>) {
    forall key ::
      Get(bucket, key) ==
      match First(adds, key)
      case None => None
      case Some(n) => Some(Entry(n, Times(adds, key)))
  }

  lemma {:induction false} FirstOnce(adds: seq<Notification>, key: string)
    ensures First(adds, key).None? ==> Times(adds, key) == 0
  {
    if adds != [] {
      FirstOnce(adds[..|adds| - 1], key);
    }
  }

  lemma DigestsAdd(bucket: map<string, Entry>, adds: seq<Notification>, n: Notification)
    requires Digests(bucket, adds)
    ensures Digests(Bump(bucket, n), adds + [n])
  {
    assert (adds + [n])[..|adds|] == adds;
    FirstOnce(adds, KeyOf(n));
  }

  /** Over every schedule the bucket, and each bucket that a flush has taken, holds for each key the first
      notification added since the flush before, with the number of them. */
  lemma {:induction false} DigestsCarryFirst(run: seq<Event>)
    requires After(run).Some?
    ensures
      var s := After(run).value;
      && Digests(s.bucket, Waiting(run)) && |s.flushed| == |Taken(run)|
      && forall i :: 0 <= i < |s.flushed| ==> Digests(s.flushed[i], Taken(run)[i])
    decreases |run|
  {
    if run != [] {
      var init, e := RunLast(run);
      DigestsCarryFirst(init);
      if e.Add? {
        DigestsAdd(After(init).value.bucket, Waiting(init), e.n);
      }
      assert run[..|run| - 1] == init;
    }
  }

  /** The digester's fields and its mutex-held sections. */
  class Digester {
    var bucket: map<string, Entry>
    var flushTimer: Option<nat>
    var timers: seq<Timer>
    ghost var flushed: seq<map<string, Entry>>
    ghost var added: seq<string>

    ghost function View(): State
      reads this
    {
      State(bucket, flushTimer, timers, flushed, added)
    }

    constructor ()
      ensures View() == START
    {
      bucket, flushTimer, timers, flushed, added := map[], None, [], [], [];
    }

    method Add(n: Notification)
      modifies this
      ensures Some(View()) == Next(old(View()), Event.Add(n))
    {
      var key := Keys.Key(n.port, n.state);
      if key in bucket {
        bucket := bucket[key := bucket[key].(count := bucket[key].count + 1)];
      } else {
        bucket := bucket[key := Entry(n, 1)];
      }
      if flushTimer == None {
        flushTimer := Some(|timers|);
        timers := timers + [Armed];
      }
      added := added + [key];
    }

    /** Returns the entries that flush then sends without the lock. */
    method TakeBucket() returns (entries: map<string, Entry>)
      requires flushTimer.Some? ==> flushTimer.value < |timers|
      modifies this
      ensures View() == Flush(old(View())) && entries == old(bucket)
    {
      entries := bucket;
      flushed := flushed + [bucket];
      bucket := map[];
      if flushTimer != None {
        if timers[flushTimer.value] == Armed {
          timers := timers[flushTimer.value := Finished];
        }
        flushTimer := None;
      }
    }
  }
}
