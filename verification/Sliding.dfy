/** The sliding window shared by window.go and throttle.go, for one key, and what it guarantees about
    whole runs. Times and durations are integers. */
module Sliding {
  import opened Common
  import Keyed

  datatype Call = Allow(now: int) | Reset

  /** The stamps after the cutoff, in order. */
  function Recent(ts: seq<int>, cutoff: int): seq<int> {
    if ts == [] then []
    else
      var t := ts[|ts| - 1];
      Recent(ts[..|ts| - 1], cutoff) + (if t > cutoff then [t] else [])
  }

  function StampsOf(s: Option<seq<int>>): seq<int> {
    if s.None? then [] else s.value
  }

  /** One call as written: prune, then admit and record while fewer than max stamps remain. */
  function Decide(size: int, max: int, s: Option<seq<int>>, c: Call): (Option<seq<int>>, bool) {
    match c
    case Reset => (None, true)
    case Allow(now) =>
      var pruned := Recent(StampsOf(s), now - size);
      if |pruned| >= max then (Some(pruned), false) else (Some(pruned + [now]), true)
  }

  /** One call of the reference gate, which keeps every grant since the last Reset and admits while
      fewer than max of them lie in the window. */
  function FullDecide(size: int, max: int, s: Option<seq<int>>, c: Call): (Option<seq<int>>, bool) {
    match c
    case Reset => (None, true)
    case Allow(now) =>
      var history := StampsOf(s);
      if |Recent(history, now - size)| >= max then (Some(history), false) else (Some(history + [now]), true)
  }

  function Gate(size: int, max: int): (Option<seq<int>>, Call) -> (Option<seq<int>>, bool) {
    (s, c) => Decide(size, max, s, c)
  }

  function FullGate(size: int, max: int): (Option<seq<int>>, Call) -> (Option<seq<int>>, bool) {
    (s, c) => FullDecide(size, max, s, c)
  }

  /** The clock never runs backwards, starting at `from`. */
  predicate Ordered(from: int, calls: seq<Call>)
    decreases |calls|
  {
    calls == [] ||
    match calls[0]
    case Reset => Ordered(from, calls[1..])
    case Allow(now) => from <= now && Ordered(now, calls[1..])
  }

  /** The last clock reading of the calls, or `from` when there is none. */
  function LastNow(from: int, calls: seq<Call>): int
    decreases |calls|
  {
    if calls == [] then from
    else LastNow(if calls[0].Allow? then calls[0].now else from, calls[1..])
  }

  lemma {:induction false} OrderedEarlier(from: int, from': int, calls: seq<Call>)
    requires from <= from' && Ordered(from', calls)
    ensures Ordered(from, calls)
    decreases |calls|
  {
    if calls != [] && calls[0].Reset? {
      OrderedEarlier(from, from', calls[1..]);
    }
  }

  lemma RecentSnoc(ts: seq<int>, t: int, cutoff: int)
    ensures Recent(ts + [t], cutoff) == Recent(ts, cutoff) + (if t > cutoff then [t] else [])
  {
    assert (ts + [t])[..|ts|] == ts;
  }

  lemma RecentOne(t: int, cutoff: int)
    ensures Recent([t], cutoff) == if t > cutoff then [t] else []
  {
    assert [t][..0] == [];
  }

  /** Pruning at an earlier cutoff does not change what a later cutoff keeps. */
  lemma {:induction false} RecentRecent(ts: seq<int>, c: int, c': int)
    requires c <= c'
    ensures Recent(Recent(ts, c), c') == Recent(ts, c')
    decreases |ts|
  {
    if ts != [] {
      var init, t := ts[..|ts| - 1], ts[|ts| - 1];
      RecentRecent(init, c, c');
      if t > c {
        RecentSnoc(Recent(init, c), t, c');
      } else {
        assert Recent(init, c) + [] == Recent(init, c);
      }
    }
  }

  /** Lists that agree at one cutoff agree at every later one. */
  lemma AgreeLater(pruned: seq<int>, full: seq<int>, c: int, c': int)
    requires c <= c' && Recent(pruned, c) == Recent(full, c)
    ensures Recent(pruned, c') == Recent(full, c')
  {
    RecentRecent(pruned, c, c');
    RecentRecent(full, c, c');
  }

  /** The pruned state and the full history show the same grants after the cutoff. */
  predicate Agree(s: Option<seq<int>>, f: Option<seq<int>>, cutoff: int) {
    Recent(StampsOf(s), cutoff) == Recent(StampsOf(f), cutoff)
  }

  lemma AgreeAfterPrune(pruned: seq<int>, full: seq<int>, c: int, c': int, now: int)
    requires c <= c' && Recent(pruned, c) == Recent(full, c)
    ensures Recent(pruned, c') == Recent(full, c') == Recent(Recent(pruned, c'), c')
    ensures Recent(Recent(pruned, c') + [now], c') == Recent(full + [now], c')
  {
    AgreeLater(pruned, full, c, c');
    RecentRecent(pruned, c', c');
    RecentSnoc(Recent(pruned, c'), now, c');
    RecentSnoc(full, now, c');
  }

  lemma DecideStamps(size: int, max: int, s: Option<seq<int>>, now: int)
    ensures var recent := Recent(StampsOf(s), now - size);
            var (s', ok) := Decide(size, max, s, Allow(now));
            ok == (|recent| < max) && StampsOf(s') == if ok then recent + [now] else recent
  {
  }

  lemma FullDecideStamps(size: int, max: int, f: Option<seq<int>>, now: int)
    ensures var history := StampsOf(f);
            var (f', ok) := FullDecide(size, max, f, Allow(now));
            ok == (|Recent(history, now - size)| < max) && StampsOf(f') == if ok then history + [now] else history
  {
  }

  lemma AgreeAllow(size: int, max: int, s: Option<seq<int>>, f: Option<seq<int>>, from: int, now: int)
    requires from <= now && Agree(s, f, from - size)
    ensures var (s', r) := Decide(size, max, s, Allow(now));
            var (f', r') := FullDecide(size, max, f, Allow(now));
            r == r' && Agree(s', f', now - size)
  {
    var pruned, history := StampsOf(s), StampsOf(f);
    AgreeAfterPrune(pruned, history, from - size, now - size, now);
    DecideStamps(size, max, s, now);
    FullDecideStamps(size, max, f, now);
  }

  /** The states agree after the cutoff of some time from which the coming calls run in order. */
  ghost predicate Tracks(size: int, s: Option<seq<int>>, f: Option<seq<int>>, calls: seq<Call>, later: int) {
    exists from :: TracksAt(size, s, f, calls, later, from)
  }

  predicate TracksAt(size: int, s: Option<seq<int>>, f: Option<seq<int>>, calls: seq<Call>, later: int, from: int) {
    Ordered(from, calls) && Agree(s, f, from - size) && LastNow(from, calls) <= later
  }

  lemma TracksFrom(size: int, s: Option<seq<int>>, f: Option<seq<int>>, calls: seq<Call>, later: int, from: int)
    requires Ordered(from, calls) && Agree(s, f, from - size) && LastNow(from, calls) <= later
    ensures Tracks(size, s, f, calls, later)
  {
    assert TracksAt(size, s, f, calls, later, from);
  }

  lemma TracksNext(size: int, max: int, s: Option<seq<int>>, f: Option<seq<int>>, calls: seq<Call>, later: int)
    requires calls != [] && Tracks(size, s, f, calls, later)
    ensures var (s', r) := Decide(size, max, s, calls[0]);
            var (f', r') := FullDecide(size, max, f, calls[0]);
            r == r' && Tracks(size, s', f', calls[1..], later)
  {
    var from :| TracksAt(size, s, f, calls, later, from);
    var (s', r) := Decide(size, max, s, calls[0]);
    var (f', r') := FullDecide(size, max, f, calls[0]);
    if calls[0].Allow? {
      AgreeAllow(size, max, s, f, from, calls[0].now);
      TracksFrom(size, s', f', calls[1..], later, calls[0].now);
    } else {
      TracksFrom(size, s', f', calls[1..], later, from);
    }
  }

  /** Under a nondecreasing clock the pruned list loses nothing that matters: every answer is the one
      that the complete history since the last Reset gives, and at any later time the list shows the
      same grants in the window, hence the same Count. */
  lemma PruningIsFaithful(
    size: int, max: int, s: Option<seq<int>>, f: Option<seq<int>>, from: int, calls: seq<Call>, later: int)
    requires Ordered(from, calls) && Agree(s, f, from - size) && LastNow(from, calls) <= later
    ensures
      var (s', answers) := Keyed.RunOne(Gate(size, max), s, calls);
      var (f', reference) := Keyed.RunOne(FullGate(size, max), f, calls);
      answers == reference && Agree(s', f', later - size)
  {
    ghost var related := (s, f, calls) => Tracks(size, s, f, calls, later);
    forall s, f, calls: seq<Call> | calls != [] && related(s, f, calls)
      ensures Gate(size, max)(s, calls[0]).1 == FullGate(size, max)(f, calls[0]).1
      ensures related(Gate(size, max)(s, calls[0]).0, FullGate(size, max)(f, calls[0]).0, calls[1..])
    {
      TracksNext(size, max, s, f, calls, later);
    }
    assert TracksAt(size, s, f, calls, later, from);
    Keyed.Lockstep(Gate(size, max), FullGate(size, max), related, s, f, calls);
    TracksEnd(size, Keyed.RunOne(Gate(size, max), s, calls).0, Keyed.RunOne(FullGate(size, max), f, calls).0, later);
  }

  lemma TracksEnd(size: int, s: Option<seq<int>>, f: Option<seq<int>>, later: int)
    requires Tracks(size, s, f, [], later)
    ensures Agree(s, f, later - size)
  {
    var from :| TracksAt(size, s, f, [], later, from);
    AgreeFrom(s, f, from - size, later - size);
  }

  lemma AgreeFrom(s: Option<seq<int>>, f: Option<seq<int>>, c: int, c': int)
    requires c <= c' && Agree(s, f, c)
    ensures Agree(s, f, c')
  {
    AgreeLater(StampsOf(s), StampsOf(f), c, c');
  }

  // ---- Bounds on grants --------------------------------------------------------------------

  /** How many stamps lie in (lo, hi]. */
  function CountIn(ts: seq<int>, lo: int, hi: int): nat {
    if ts == [] then 0
    else
      var t := ts[|ts| - 1];
      CountIn(ts[..|ts| - 1], lo, hi) + (if lo < t <= hi then 1 else 0)
  }

  /** The times at which the calls were admitted. */
  function Grants(calls: seq<Call>, answers: seq<bool>): seq<int>
    requires |answers| == |calls|
  {
    if calls == [] then []
    else (if calls[0].Allow? && answers[0] then [calls[0].now] else []) + Grants(calls[1..], answers[1..])
  }

  lemma CountInSnoc(ts: seq<int>, t: int, lo: int, hi: int)
    ensures CountIn(ts + [t], lo, hi) == CountIn(ts, lo, hi) + (if lo < t <= hi then 1 else 0)
  {
    assert (ts + [t])[..|ts|] == ts;
  }

  lemma {:induction false} CountInRecent(ts: seq<int>, lo: int, hi: int, cutoff: int)
    requires cutoff <= lo
    ensures CountIn(ts, lo, hi) <= |Recent(ts, cutoff)|
    decreases |ts|
  {
    if ts != [] {
      CountInRecent(ts[..|ts| - 1], lo, hi, cutoff);
    }
  }

  lemma {:induction false} CountInSplit(ts: seq<int>, lo: int, mid: int, hi: int)
    requires lo <= mid <= hi
    ensures CountIn(ts, lo, hi) == CountIn(ts, lo, mid) + CountIn(ts, mid, hi)
    decreases |ts|
  {
    if ts != [] {
      CountInSplit(ts[..|ts| - 1], lo, mid, hi);
    }
  }

  /** How many stamps lie in (a, a + size]. */
  function InWindow(ts: seq<int>, a: int, size: int): nat {
    CountIn(ts, a, a + size)
  }

  ghost predicate Bounded(ts: seq<int>, size: int, max: int) {
    forall a :: InWindow(ts, a, size) <= max
  }

  lemma BoundedSnoc(ts: seq<int>, size: int, max: int, now: int)
    requires Bounded(ts, size, max) && |Recent(ts, now - size)| < max
    ensures Bounded(ts + [now], size, max)
  {
    forall a ensures InWindow(ts + [now], a, size) <= max {
      assert InWindow(ts, a, size) <= max;
      CountInSnoc(ts, now, a, a + size);
      if a < now <= a + size {
        CountInRecent(ts, a, a + size, now - size);
      }
    }
  }

  lemma GrantsNext(calls: seq<Call>, r: bool, rs: seq<bool>)
    requires calls != [] && |rs| == |calls| - 1
    ensures Grants(calls, [r] + rs) == (if calls[0].Allow? && r then [calls[0].now] else []) + Grants(calls[1..], rs)
  {
    assert ([r] + rs)[1..] == rs;
  }

  lemma RunOneNext(gate: (Option<seq<int>>, Call) -> (Option<seq<int>>, bool), s: Option<seq<int>>, calls: seq<Call>)
    requires calls != []
    ensures
      var (s', r) := gate(s, calls[0]);
      var (s'', rs) := Keyed.RunOne(gate, s', calls[1..]);
      Keyed.RunOne(gate, s, calls) == (s'', [r] + rs)
  {
  }

  /** The grants of a run of the reference gate, after those it has kept. */
  function AllGrants(size: int, max: int, f: Option<seq<int>>, calls: seq<Call>): seq<int> {
    StampsOf(f) + Grants(calls, Keyed.RunOne(FullGate(size, max), f, calls).1)
  }

  lemma AllGrantsAllow(size: int, max: int, f: Option<seq<int>>, calls: seq<Call>)
    requires calls != [] && calls[0].Allow?
    ensures AllGrants(size, max, f, calls) == AllGrants(size, max, FullDecide(size, max, f, calls[0]).0, calls[1..])
  {
    var (f1, r) := FullDecide(size, max, f, calls[0]);
    var rs := Keyed.RunOne(FullGate(size, max), f1, calls[1..]).1;
    RunOneNext(FullGate(size, max), f, calls);
    GrantsNext(calls, r, rs);
    FullDecideStamps(size, max, f, calls[0].now);
    var now := if r then [calls[0].now] else [];
    assert StampsOf(f1) == StampsOf(f) + now;
    Reassociate(StampsOf(f), now, Grants(calls[1..], rs));
  }

  lemma AllGrantsReset(size: int, max: int, f: Option<seq<int>>, calls: seq<Call>)
    requires calls != [] && calls[0].Reset?
    ensures AllGrants(size, max, f, calls) == StampsOf(f) + AllGrants(size, max, None, calls[1..])
  {
    RunOneNext(FullGate(size, max), f, calls);
    GrantsNext(calls, true, Keyed.RunOne(FullGate(size, max), None, calls[1..]).1);
  }

  /** Without Reset the reference gate's state is the list of all its grants. */
  lemma {:induction false} FullHistory(size: int, max: int, f: Option<seq<int>>, calls: seq<Call>)
    requires Reset !in calls
    ensures StampsOf(Keyed.RunOne(FullGate(size, max), f, calls).0) ==
            StampsOf(f) + Grants(calls, Keyed.RunOne(FullGate(size, max), f, calls).1)
    decreases |calls|
  {
    if calls == [] {
      assert StampsOf(f) + [] == StampsOf(f);
    } else {
      RunOneNext(FullGate(size, max), f, calls);
      AllGrantsAllow(size, max, f, calls);
      FullHistory(size, max, FullDecide(size, max, f, calls[0]).0, calls[1..]);
    }
  }

  lemma FullDecideBounded(size: int, max: int, f: Option<seq<int>>, c: Call)
    requires c.Allow? && Bounded(StampsOf(f), size, max)
    ensures Bounded(StampsOf(FullDecide(size, max, f, c).0), size, max)
  {
    if |Recent(StampsOf(f), c.now - size)| < max {
      BoundedSnoc(StampsOf(f), size, max, c.now);
    }
  }

  lemma {:induction false} FullGateBounded(size: int, max: int, f: Option<seq<int>>, calls: seq<Call>)
    requires Reset !in calls && Bounded(StampsOf(f), size, max)
    ensures Bounded(StampsOf(Keyed.RunOne(FullGate(size, max), f, calls).0), size, max)
    decreases |calls|
  {
    if calls != [] {
      FullDecideBounded(size, max, f, calls[0]);
      FullGateBounded(size, max, FullDecide(size, max, f, calls[0]).0, calls[1..]);
    }
  }

  lemma {:induction false} SpanBound(ts: seq<int>, size: int, max: nat, a: int, k: nat, b: int)
    requires size > 0 && Bounded(ts, size, max) && a <= b <= a + k * size
    ensures CountIn(ts, a, b) <= k * max
    decreases k
  {
    MulPred(k, size);
    MulPred(k, max);
    if k == 0 {
      EmptyInterval(ts, a, b);
    } else {
      assert InWindow(ts, a, size) <= max;
      if b <= a + size {
        CountInSplit(ts, a, b, a + size);
        MulMono(0, k - 1, max);
      } else {
        CountInSplit(ts, a, a + size, b);
        SpanBound(ts, size, max, a + size, k - 1, b);
      }
    }
  }

  lemma {:induction false} EmptyInterval(ts: seq<int>, a: int, b: int)
    requires b <= a
    ensures CountIn(ts, a, b) == 0
    decreases |ts|
  {
    if ts != [] {
      EmptyInterval(ts[..|ts| - 1], a, b);
    }
  }

  /** From an empty table, without Reset and under a nondecreasing clock, no interval (a, a + size]
      sees more than max grants, and an interval of length at most k * size no more than k * max. */
  lemma WindowBound(size: int, max: nat, from: int, calls: seq<Call>, a: int, b: int, k: nat)
    requires size > 0 && Reset !in calls && Ordered(from, calls) && a <= b <= a + k * size
    ensures
      var grants := Grants(calls, Keyed.RunOne(Gate(size, max), None, calls).1);
      InWindow(grants, a, size) <= max && CountIn(grants, a, b) <= k * max
  {
    PruningIsFaithful(size, max, None, None, from, calls, LastNow(from, calls));
    FullGateBounded(size, max, None, calls);
    FullHistory(size, max, None, calls);
    var rs := Keyed.RunOne(FullGate(size, max), None, calls).1;
    var grants := Grants(calls, rs);
    assert [] + grants == grants;
    assert InWindow(grants, a, size) <= max;
    SpanBound(grants, size, max, a, k, b);
  }

  // ---- Runs with Resets --------------------------------------------------------------------

  function Resets(calls: seq<Call>): nat {
    if calls == [] then 0 else (if calls[0].Reset? then 1 else 0) + Resets(calls[1..])
  }

  lemma {:induction false} GrantsSnoc(calls: seq<Call>, answers: seq<bool>, c: Call, r: bool)
    requires |answers| == |calls|
    ensures Grants(calls + [c], answers + [r]) == Grants(calls, answers) + (if c.Allow? && r then [c.now] else [])
    ensures Resets(calls + [c]) == Resets(calls) + (if c.Reset? then 1 else 0)
    decreases |calls|
  {
    if calls == [] {
      assert [c][1..] == [] && [] + [c] == [c];
    } else {
      GrantsSnoc(calls[1..], answers[1..], c, r);
      assert (calls + [c])[1..] == calls[1..] + [c] && (answers + [r])[1..] == answers[1..] + [r];
    }
  }

  lemma {:induction false} CountInConcat(s: seq<int>, t: seq<int>, lo: int, hi: int)
    ensures CountIn(s + t, lo, hi) == CountIn(s, lo, hi) + CountIn(t, lo, hi)
    decreases |t|
  {
    if t == [] {
      assert s + t == s;
    } else {
      var init, x := t[..|t| - 1], t[|t| - 1];
      CountInConcat(s, init, lo, hi);
      CountInSnoc(s + init, x, lo, hi);
      assert s + t == s + init + [x];
    }
  }

  /** max for the beginning and again for each Reset. */
  function Budget(max: nat, calls: seq<Call>): (b: nat)
    ensures b == (Resets(calls) + 1) * max
  {
    if calls == [] then max
    else
      MulPred(Resets(calls) + 1, max);
      (if calls[0].Reset? then max else 0) + Budget(max, calls[1..])
  }

  lemma BudgetAdds(kept: seq<int>, rest: seq<int>, size: int, max: nat, budget: nat, a: int)
    requires Bounded(kept, size, max) && InWindow(rest, a, size) <= budget
    ensures InWindow(kept + rest, a, size) <= max + budget
  {
    assert InWindow(kept, a, size) <= max;
    CountInConcat(kept, rest, a, a + size);
  }

  /** Each Reset gives the key a fresh budget, and only a Reset does. */
  lemma {:induction false} ReferenceAcrossResets(size: int, max: nat, f: Option<seq<int>>, calls: seq<Call>, a: int)
    requires Bounded(StampsOf(f), size, max)
    ensures InWindow(AllGrants(size, max, f, calls), a, size) <= Budget(max, calls)
    decreases |calls|
  {
    if calls == [] {
      assert AllGrants(size, max, f, calls) == StampsOf(f);
      assert InWindow(StampsOf(f), a, size) <= max;
    } else if calls[0].Reset? {
      EmptyBounded(size, max);
      ReferenceAcrossResets(size, max, None, calls[1..], a);
      AllGrantsReset(size, max, f, calls);
      BudgetAdds(StampsOf(f), AllGrants(size, max, None, calls[1..]), size, max, Budget(max, calls[1..]), a);
    } else {
      FullDecideBounded(size, max, f, calls[0]);
      ReferenceAcrossResets(size, max, FullDecide(size, max, f, calls[0]).0, calls[1..], a);
      AllGrantsAllow(size, max, f, calls);
    }
  }

  lemma EmptyBounded(size: int, max: nat)
    ensures Bounded([], size, max)
  {
  }

  /** Under a nondecreasing clock and with n Resets in the run, no interval (a, a + size] sees more than
      (n + 1) * max grants, and one of length at most k * size no more than k times as many. */
  lemma WindowBoundAcrossResets(size: int, max: nat, from: int, calls: seq<Call>, a: int, b: int, k: nat)
    requires size > 0 && Ordered(from, calls) && a <= b <= a + k * size
    ensures
      var grants := Grants(calls, Keyed.RunOne(Gate(size, max), None, calls).1);
      var budget := Budget(max, calls);
      InWindow(grants, a, size) <= budget && CountIn(grants, a, b) <= k * budget
  {
    PruningIsFaithful(size, max, None, None, from, calls, LastNow(from, calls));
    var grants := Grants(calls, Keyed.RunOne(FullGate(size, max), None, calls).1);
    assert AllGrants(size, max, None, calls) == grants;
    var budget := Budget(max, calls);
    EmptyBounded(size, max);
    forall x ensures InWindow(grants, x, size) <= budget {
      ReferenceAcrossResets(size, max, None, calls, x);
    }
    assert Bounded(grants, size, budget);
    SpanBound(grants, size, budget, a, k, b);
  }

  // ---- The answers from the grants alone ---------------------------------------------------

  /** The times at which calls were admitted since the last Reset. */
  function SinceReset(calls: seq<Call>, answers: seq<bool>): seq<int>
    requires |answers| == |calls|
  {
    if calls == [] then []
    else
      var last := |calls| - 1;
      match calls[last]
      case Reset => []
      case Allow(now) => SinceReset(calls[..last], answers[..last]) + (if answers[last] then [now] else [])
  }

  /** At no point of the run does (lo, hi] hold more than `most` grants since the last Reset. */
  predicate Moderate(calls: seq<Call>, answers: seq<bool>, lo: int, hi: int, most: nat)
    requires |answers| == |calls|
    decreases |calls|
  {
    && CountIn(SinceReset(calls, answers), lo, hi) <= most
    && (calls == [] || Moderate(calls[..|calls| - 1], answers[..|calls| - 1], lo, hi, most))
  }

  /** Then it holds at most that many more for each Reset. */
  lemma CountAcrossResets(calls: seq<Call>, answers: seq<bool>, lo: int, hi: int, most: nat)
    requires |answers| == |calls| && Moderate(calls, answers, lo, hi, most)
    ensures CountIn(Grants(calls, answers), lo, hi) <= (Resets(calls) + 1) * most
  {
    CountSinceReset(calls, answers, lo, hi, most);
    MulPred(Resets(calls) + 1, most);
  }

  lemma {:induction false} CountSinceReset(calls: seq<Call>, answers: seq<bool>, lo: int, hi: int, most: nat)
    requires |answers| == |calls| && Moderate(calls, answers, lo, hi, most)
    ensures CountIn(Grants(calls, answers), lo, hi) <=
            Resets(calls) * most + CountIn(SinceReset(calls, answers), lo, hi)
    decreases |calls|
  {
    if calls != [] {
      var last := |calls| - 1;
      var init, before, c, r := calls[..last], answers[..last], calls[last], answers[last];
      CountSinceReset(init, before, lo, hi, most);
      assert calls == init + [c] && answers == before + [r];
      GrantsSnoc(init, before, c, r);
      MulPred(Resets(init) + 1, most);
      if c.Allow? && r {
        CountInSnoc(Grants(init, before), c.now, lo, hi);
        CountInSnoc(SinceReset(init, before), c.now, lo, hi);
      } else {
        assert Grants(init, before) + [] == Grants(init, before);
        assert SinceReset(init, before) + [] == SinceReset(init, before);
      }
    }
  }

  /** If a gate's state follows from the grants since the last Reset call by call, it does so over every
      run. */
  lemma {:induction false} StateFollowsHistory<S>(
    gate: (Option<S>, Call) -> (Option<S>, bool), shows: (Option<S>, seq<int>) -> bool, calls: seq<Call>)
    requires shows(None, []) && forall s :: gate(s, Reset).0 == None
    requires forall s, h, now | shows(s, h) ::
               shows(gate(s, Allow(now)).0, if gate(s, Allow(now)).1 then h + [now] else h)
    ensures
      var (s, answers) := Keyed.RunOne(gate, None, calls);
      shows(s, SinceReset(calls, answers))
    decreases |calls|
  {
    if calls != [] {
      var last := |calls| - 1;
      var (s, before) := Keyed.RunOne(gate, None, calls[..last]);
      StateFollowsHistory(gate, shows, calls[..last]);
      Keyed.RunAt(gate, None, calls, last);
      assert calls[..last + 1] == calls;
      var answers := Keyed.RunOne(gate, None, calls).1;
      assert answers[..last] == before && answers[last] == gate(s, calls[last]).1;
      var h := SinceReset(calls[..last], before);
      assert h + [] == h;
      if calls[last].Allow? {
        assert shows(gate(s, Allow(calls[last].now)).0,
                     if gate(s, Allow(calls[last].now)).1 then h + [calls[last].now] else h);
      }
    }
  }

  /** Each answer, from what the grants before it show. */
  lemma AnswerFollowsHistory<S>(
    gate: (Option<S>, Call) -> (Option<S>, bool), shows: (Option<S>, seq<int>) -> bool, calls: seq<Call>, i: nat)
    returns (s: Option<S>)
    requires shows(None, []) && forall s :: gate(s, Reset).0 == None
    requires forall s, h, now | shows(s, h) ::
               shows(gate(s, Allow(now)).0, if gate(s, Allow(now)).1 then h + [now] else h)
    requires i < |calls|
    ensures
      var answers := Keyed.RunOne(gate, None, calls).1;
      answers[i] == gate(s, calls[i]).1 && shows(s, SinceReset(calls[..i], answers[..i]))
  {
    s := Keyed.RunOne(gate, None, calls[..i]).0;
    StateFollowsHistory(gate, shows, calls[..i]);
    Keyed.RunAt(gate, None, calls, i);
  }

  lemma {:induction false} RecentMembers(ts: seq<int>, cutoff: int)
    ensures Recent(ts, cutoff) != [] <==> exists t :: t in ts && t > cutoff
    decreases |ts|
  {
    if ts != [] {
      var init, last := ts[..|ts| - 1], ts[|ts| - 1];
      RecentMembers(init, cutoff);
      assert forall t :: t in ts <==> t in init || t == last by {
        assert ts == init + [last];
      }
      if last > cutoff {
        assert last in ts;
      }
    }
  }

  lemma {:induction false} RecentCounts(ts: seq<int>, cutoff: int, hi: int)
    requires forall k :: 0 <= k < |ts| ==> ts[k] <= hi
    ensures |Recent(ts, cutoff)| == CountIn(ts, cutoff, hi)
    decreases |ts|
  {
    if ts != [] {
      RecentCounts(ts[..|ts| - 1], cutoff, hi);
    }
  }

  lemma {:induction false} OrderedAt(from: int, calls: seq<Call>, i: nat)
    requires Ordered(from, calls) && i < |calls| && calls[i].Allow?
    ensures from <= calls[i].now
    ensures forall j :: 0 <= j < i && calls[j].Allow? ==> calls[j].now <= calls[i].now
    decreases |calls|
  {
    if i > 0 {
      var from' := if calls[0].Allow? then calls[0].now else from;
      OrderedAt(from', calls[1..], i - 1);
      forall j | 0 <= j < i && calls[j].Allow? ensures calls[j].now <= calls[i].now {
        if j > 0 {
          assert calls[j] == calls[1..][j - 1];
        }
      }
    }
  }

  lemma {:induction false} GrantsAreCalls(calls: seq<Call>, answers: seq<bool>, hi: int)
    requires |answers| == |calls| && forall j :: 0 <= j < |calls| && calls[j].Allow? ==> calls[j].now <= hi
    ensures forall k :: 0 <= k < |SinceReset(calls, answers)| ==> SinceReset(calls, answers)[k] <= hi
    decreases |calls|
  {
    if calls != [] {
      GrantsAreCalls(calls[..|calls| - 1], answers[..|calls| - 1], hi);
    }
  }

  /** The gate in the source's own words: under a nondecreasing clock, and with Resets anywhere, a call is
      admitted exactly when fewer than max of all the grants since the last Reset lie in (now - size, now]. */
  lemma AdmitsExactly(size: int, max: int, from: int, calls: seq<Call>, i: nat)
    requires Ordered(from, calls) && i < |calls| && calls[i].Allow?
    ensures
      var answers := Keyed.RunOne(Gate(size, max), None, calls).1;
      var now := calls[i].now;
      answers[i] <==> CountIn(SinceReset(calls[..i], answers[..i]), now - size, now) < max
  {
    PruningIsFaithful(size, max, None, None, from, calls, LastNow(from, calls));
    OrderedAt(from, calls, i);
    ReferenceAdmits(size, max, calls, i);
  }

  /** The reference gate holds the grants since the last Reset. */
  function Holds(): (Option<seq<int>>, seq<int>) -> bool {
    (s, h) => StampsOf(s) == h
  }

  lemma FullGateShows(size: int, max: int)
    ensures Holds()(None, []) && forall s :: FullGate(size, max)(s, Reset).0 == None
    ensures forall s, h, now | Holds()(s, h) ::
              Holds()(FullGate(size, max)(s, Allow(now)).0,
                      if FullGate(size, max)(s, Allow(now)).1 then h + [now] else h)
  {
    forall s ensures FullGate(size, max)(s, Reset).0 == None {
      assert FullDecide(size, max, s, Reset).0 == None;
    }
    forall s, h, now | Holds()(s, h)
      ensures Holds()(FullGate(size, max)(s, Allow(now)).0,
                      if FullGate(size, max)(s, Allow(now)).1 then h + [now] else h)
    {
      FullDecideStamps(size, max, s, now);
    }
  }

  lemma ReferenceAdmits(size: int, max: int, calls: seq<Call>, i: nat)
    requires i < |calls| && calls[i].Allow?
    requires forall j :: 0 <= j < i && calls[j].Allow? ==> calls[j].now <= calls[i].now
    ensures
      var answers := Keyed.RunOne(FullGate(size, max), None, calls).1;
      var now := calls[i].now;
      answers[i] <==> CountIn(SinceReset(calls[..i], answers[..i]), now - size, now) < max
  {
    var answers, now := Keyed.RunOne(FullGate(size, max), None, calls).1, calls[i].now;
    FullGateShows(size, max);
    var s := AnswerFollowsHistory(FullGate(size, max), Holds(), calls, i);
    GrantsAreCalls(calls[..i], answers[..i], now);
    ReferenceDecides(size, max, s, SinceReset(calls[..i], answers[..i]), now);
    assert calls[i] == Allow(now);
  }

  lemma ReferenceDecides(size: int, max: int, s: Option<seq<int>>, grants: seq<int>, now: int)
    requires StampsOf(s) == grants && forall k :: 0 <= k < |grants| ==> grants[k] <= now
    ensures FullDecide(size, max, s, Allow(now)).1 <==> CountIn(grants, now - size, now) < max
  {
    RecentCounts(grants, now - size, now);
    FullDecideStamps(size, max, s, now);
  }

  function Newer(ts: seq<int>, cutoff: int): nat -> bool {
    (i: nat) => i < |ts| && ts[i] > cutoff
  }

  /** Every call prunes: afterwards the list holds the stored stamps of the window, in order, and the new
      one if it was admitted. */
  lemma AllowPrunes(size: int, max: int, s: Option<seq<int>>, now: int)
    ensures
      var ts := StampsOf(s);
      var (s', ok) := Decide(size, max, s, Allow(now));
      StampsOf(s') == Filter(ts, Newer(ts, now - size)) + (if ok then [now] else [])
  {
    RecentIsFilter(StampsOf(s), now - size, |StampsOf(s)|);
    assert StampsOf(s)[..|StampsOf(s)|] == StampsOf(s);
    DecideStamps(size, max, s, now);
  }

  lemma {:induction false} RecentIsFilter(ts: seq<int>, cutoff: int, n: nat)
    requires n <= |ts|
    ensures Recent(ts[..n], cutoff) == Filter(ts[..n], Newer(ts, cutoff))
  {
    if n > 0 {
      RecentIsFilter(ts, cutoff, n - 1);
      assert ts[..n] == ts[..n - 1] + [ts[n - 1]];
      RecentSnoc(ts[..n - 1], ts[n - 1], cutoff);
      FilterNext(ts, n - 1, Newer(ts, cutoff));
    }
  }

  /** Every answer to Allow is the one that the grants since the last Reset give. */
  ghost predicate AnsweredByGrants(size: int, max: int, calls: seq<Call>, answers: seq<bool>) {
    && |answers| == |calls|
    && forall i :: 0 <= i < |calls| && calls[i].Allow? ==>
         var now := calls[i].now;
         (answers[i] <==> CountIn(SinceReset(calls[..i], answers[..i]), now - size, now) < max)
  }

  lemma AllAnswered(size: int, max: int, from: int, calls: seq<Call>)
    requires Ordered(from, calls)
    ensures AnsweredByGrants(size, max, calls, Keyed.RunOne(Gate(size, max), None, calls).1)
  {
    var answers := Keyed.RunOne(Gate(size, max), None, calls).1;
    forall i | 0 <= i < |calls| && calls[i].Allow?
      ensures
        var now := calls[i].now;
        answers[i] <==> CountIn(SinceReset(calls[..i], answers[..i]), now - size, now) < max
    {
      AdmitsExactly(size, max, from, calls, i);
    }
  }

  lemma {:induction false} LastNowBounds(from: int, calls: seq<Call>)
    requires Ordered(from, calls)
    ensures from <= LastNow(from, calls)
    ensures forall j :: 0 <= j < |calls| && calls[j].Allow? ==> calls[j].now <= LastNow(from, calls)
    decreases |calls|
  {
    if calls != [] {
      LastNowBounds(if calls[0].Allow? then calls[0].now else from, calls[1..]);
      forall j | 0 <= j < |calls| && calls[j].Allow? ensures calls[j].now <= LastNow(from, calls) {
        if j > 0 {
          assert calls[j] == calls[1..][j - 1];
        }
      }
    }
  }

  /** And at any later time the number of stored stamps in the window is the number of those grants. */
  lemma StoredExactly(size: int, max: int, from: int, calls: seq<Call>, later: int)
    requires Ordered(from, calls) && LastNow(from, calls) <= later
    ensures
      var (s, answers) := Keyed.RunOne(Gate(size, max), None, calls);
      |Recent(StampsOf(s), later - size)| == CountIn(SinceReset(calls, answers), later - size, later)
  {
    var s := Keyed.RunOne(Gate(size, max), None, calls).0;
    var f := Keyed.RunOne(FullGate(size, max), None, calls).0;
    PruningIsFaithful(size, max, None, None, from, calls, later);
    LastNowBounds(from, calls);
    StoredReference(size, max, calls, later);
    assert Recent(StampsOf(s), later - size) == Recent(StampsOf(f), later - size);
  }

  lemma StoredReference(size: int, max: int, calls: seq<Call>, later: int)
    requires forall j :: 0 <= j < |calls| && calls[j].Allow? ==> calls[j].now <= later
    ensures
      var (f, answers) := Keyed.RunOne(FullGate(size, max), None, calls);
      |Recent(StampsOf(f), later - size)| == CountIn(SinceReset(calls, answers), later - size, later)
  {
    var answers := Keyed.RunOne(FullGate(size, max), None, calls).1;
    FullGateShows(size, max);
    StateFollowsHistory(FullGate(size, max), Holds(), calls);
    GrantsAreCalls(calls, answers, later);
    RecentCounts(SinceReset(calls, answers), later - size, later);
  }
}

/** The cooldown gate shared by alert.go and dedup.go, for one key. */
module Cooldown {
  import opened Common
  import Keyed
  import Sliding

  function Decide(d: int, last: Option<int>, c: Sliding.Call): (Option<int>, bool) {
    match c
    case Reset => (None, true)
    case Allow(now) =>
      if last.Some? && now - last.value < d then (last, false) else (Some(now), true)
  }

  function Gate(d: int): (Option<int>, Sliding.Call) -> (Option<int>, bool) {
    (last, c) => Decide(d, last, c)
  }

  /** The states that the two kinds of gate take for the same past. */
  predicate Related(last: Option<int>, stamps: Option<seq<int>>) {
    match last
    case None => stamps == None
    case Some(t) => stamps == Some([t])
  }

  lemma BisimilarStep(d: int, last: Option<int>, stamps: Option<seq<int>>, c: Sliding.Call)
    requires Related(last, stamps)
    ensures Decide(d, last, c).1 == Sliding.Decide(d, 1, stamps, c).1
    ensures Related(Decide(d, last, c).0, Sliding.Decide(d, 1, stamps, c).0)
  {
    match c
    case Reset =>
    case Allow(now) =>
      assert [] + [now] == [now];
      if last.Some? {
        Sliding.RecentOne(last.value, now - d);
        if now - last.value < d {
          assert Sliding.Decide(d, 1, stamps, c) == (Some([last.value]), false);
        } else {
          assert Sliding.Decide(d, 1, stamps, c) == (Some([now]), true);
        }
      } else {
        assert Sliding.Decide(d, 1, stamps, c) == (Some([now]), true);
      }
  }

  /** The cooldown gate and the sliding window with one slot give the same answers on every sequence
      of Allow and Reset calls, whatever the clock does. */
  lemma Bisimilar(d: int, last: Option<int>, stamps: Option<seq<int>>, calls: seq<Sliding.Call>)
    requires Related(last, stamps)
    ensures Keyed.RunOne(Gate(d), last, calls).1 == Keyed.RunOne(Sliding.Gate(d, 1), stamps, calls).1
    ensures Related(Keyed.RunOne(Gate(d), last, calls).0, Keyed.RunOne(Sliding.Gate(d, 1), stamps, calls).0)
  {
    ghost var related := (last, stamps, rest: seq<Sliding.Call>) => Related(last, stamps);
    forall last, stamps, rest: seq<Sliding.Call> | rest != [] && related(last, stamps, rest)
      ensures Gate(d)(last, rest[0]).1 == Sliding.Gate(d, 1)(stamps, rest[0]).1
      ensures related(Gate(d)(last, rest[0]).0, Sliding.Gate(d, 1)(stamps, rest[0]).0, rest[1..])
    {
      BisimilarStep(d, last, stamps, rest[0]);
    }
    Keyed.Lockstep(Gate(d), Sliding.Gate(d, 1), related, last, stamps, calls);
  }

  ghost predicate RelatedTables(last: map<string, int>, stamps: map<string, seq<int>>) {
    forall k :: Related(Get(last, k), Get(stamps, k))
  }

  /** Limiter(d), Deduplicator(d), WindowCounter(d, 1) and Throttler(1, d) answer alike on every
      interleaving of calls on any keys, under any clock. */
  lemma {:induction false} BisimilarTables(
    d: int, last: map<string, int>, stamps: map<string, seq<int>>, calls: seq<(string, Sliding.Call)>)
    requires RelatedTables(last, stamps)
    ensures Keyed.Run(Gate(d), last, calls).1 == Keyed.Run(Sliding.Gate(d, 1), stamps, calls).1
    ensures RelatedTables(Keyed.Run(Gate(d), last, calls).0, Keyed.Run(Sliding.Gate(d, 1), stamps, calls).0)
    decreases |calls|
  {
    if calls != [] {
      var (k, c) := calls[0];
      BisimilarStep(d, Get(last, k), Get(stamps, k), c);
      var (last1, r) := Keyed.Apply(Gate(d), last, k, c);
      var (stamps1, r') := Keyed.Apply(Sliding.Gate(d, 1), stamps, k, c);
      forall k' ensures Related(Get(last1, k'), Get(stamps1, k')) {
        assert Related(Get(last, k'), Get(stamps, k'));
      }
      BisimilarTables(d, last1, stamps1, calls[1..]);
    }
  }

  /** Consecutive grants are at least d apart, the first one at least d after `last`. */
  predicate Spaced(d: int, last: Option<int>, grants: seq<int>)
    decreases |grants|
  {
    grants == [] || ((last.None? || grants[0] - last.value >= d) && Spaced(d, Some(grants[0]), grants[1..]))
  }

  lemma {:induction false} GrantsAreSpaced(d: int, last: Option<int>, calls: seq<Sliding.Call>)
    requires Sliding.Reset !in calls
    ensures Spaced(d, last, Sliding.Grants(calls, Keyed.RunOne(Gate(d), last, calls).1))
    decreases |calls|
  {
    if calls != [] {
      var (last1, r) := Decide(d, last, calls[0]);
      GrantsAreSpaced(d, last1, calls[1..]);
      var rest := Keyed.RunOne(Gate(d), last1, calls[1..]).1;
      Sliding.GrantsNext(calls, r, rest);
      var g := Sliding.Grants(calls[1..], rest);
      if r {
        assert ([calls[0].now] + g)[1..] == g;
      } else {
        assert last1 == last && [] + g == g;
      }
    }
  }

  lemma {:induction false} SpacedDistance(d: int, last: Option<int>, g: seq<int>, i: nat, j: nat)
    requires d > 0 && Spaced(d, last, g) && i <= j < |g|
    ensures g[j] - g[i] >= (j - i) * d
    decreases j
  {
    if i > 0 {
      SpacedDistance(d, Some(g[0]), g[1..], i - 1, j - 1);
    } else if j > 0 {
      SpacedDistance(d, Some(g[0]), g[1..], 0, j - 1);
      assert g[1] - g[0] >= d && g[j] - g[1] >= (j - 1) * d;
      assert (j - i) * d == (j - 1) * d + d;
    }
  }

  /** Without Reset, the grants i..j number at most L / d + 1 when they span L, whatever the clock. */
  lemma SpanBound(d: int, calls: seq<Sliding.Call>, i: nat, j: nat)
    requires d > 0 && Sliding.Reset !in calls
    requires i <= j < |Sliding.Grants(calls, Keyed.RunOne(Gate(d), None, calls).1)|
    ensures
      var g := Sliding.Grants(calls, Keyed.RunOne(Gate(d), None, calls).1);
      0 <= g[j] - g[i] && j - i + 1 <= (g[j] - g[i]) / d + 1
  {
    GrantsAreSpaced(d, None, calls);
    var g := Sliding.Grants(calls, Keyed.RunOne(Gate(d), None, calls).1);
    SpacedDistance(d, None, g, i, j);
    var n: nat, span := j - i, g[j] - g[i];
    assert span >= n * d;
    DivideBound(span, n, d);
  }

  function LastOf(grants: seq<int>): Option<int> {
    if grants == [] then None else Some(grants[|grants| - 1])
  }

  /** Under any clock, and with Resets anywhere, a call is admitted exactly when there is no grant since the
      last Reset or the last one is at least d old. */
  lemma AdmitsExactly(d: int, calls: seq<Sliding.Call>, i: nat)
    requires i < |calls| && calls[i].Allow?
    ensures
      var answers := Keyed.RunOne(Gate(d), None, calls).1;
      var grants := Sliding.SinceReset(calls[..i], answers[..i]);
      answers[i] <==> grants == [] || calls[i].now - grants[|grants| - 1] >= d
  {
    var shows := (s: Option<int>, h: seq<int>) => s == LastOf(h);
    assert LastOf([]) == None && shows(None, []);
    forall s ensures Gate(d)(s, Sliding.Reset).0 == None {
      assert Decide(d, s, Sliding.Reset).0 == None;
    }
    forall s, h, now | shows(s, h)
      ensures shows(Gate(d)(s, Sliding.Allow(now)).0, if Gate(d)(s, Sliding.Allow(now)).1 then h + [now] else h)
    {
      assert Gate(d)(s, Sliding.Allow(now)) == Decide(d, s, Sliding.Allow(now));
      assert LastOf(h + [now]) == Some(now);
    }
    var s := Sliding.AnswerFollowsHistory(Gate(d), shows, calls, i);
  }
}
