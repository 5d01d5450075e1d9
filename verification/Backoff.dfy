/** Powers, truncation and the capped exponential interval that backoff.go and retry.go both use.
    Durations are integers and multipliers are reals. */
module Exponential {
  import opened Common

  function Power(m: real, k: nat): real {
    if k == 0 then 1.0 else m * Power(m, k - 1)
  }

  function IntPower(m: int, k: nat): int {
    if k == 0 then 1 else m * IntPower(m, k - 1)
  }

  /** Converting a float64 to a time.Duration drops the fraction. */
  function Truncate(x: real): int {
    if x >= 0.0 then x.Floor else -((-x).Floor)
  }

  function Min(a: int, b: int): int {
    if a <= b then a else b
  }

  /** The nearest integer toward zero. */
  lemma TruncateExactly(x: real)
    ensures x >= 0.0 ==> Truncate(x) as real <= x < Truncate(x) as real + 1.0
    ensures x <= 0.0 ==> Truncate(x) as real - 1.0 < x <= Truncate(x) as real
  {
  }

  lemma {:induction false} RealProduct(a: int, b: nat)
    ensures (a as real) * (b as real) == (a * b) as real
  {
    if b > 0 {
      RealProduct(a, b - 1);
      assert (a as real) * (b as real) == (a as real) * ((b - 1) as real) + (a as real);
      assert a * b == a * (b - 1) + a;
    }
  }

  lemma {:induction false} IntPowerPositive(m: int, k: nat)
    requires m >= 1
    ensures IntPower(m, k) >= 1
    ensures IntPower(m, k) <= IntPower(m, k + 1)
  {
    if k > 0 {
      IntPowerPositive(m, k - 1);
    }
    MulMono(1, m, IntPower(m, k));
  }

  lemma {:induction false} PowerOfInteger(m: int, k: nat)
    requires m >= 1
    ensures Power(m as real, k) == IntPower(m, k) as real
  {
    if k > 0 {
      PowerOfInteger(m, k - 1);
      IntPowerPositive(m, k - 1);
      RealProduct(m, IntPower(m, k - 1));
    }
  }

  lemma WholePower(m: int, k: nat) returns (q: nat)
    requires m >= 1
    ensures q == IntPower(m, k) && Power(m as real, k) == q as real
  {
    PowerOfInteger(m, k);
    IntPowerPositive(m, k);
    q := IntPower(m, k);
  }

  /** base * w truncated, capped at max. */
  function Scaled(base: int, w: real, max: int): int {
    Min(Truncate(base as real * w), max)
  }

  /** base * m^k truncated, capped at max. */
  function Capped(base: int, m: real, max: int, k: nat): int {
    Scaled(base, Power(m, k), max)
  }

  lemma ScaledInteger(base: int, q: nat, w: real, max: int)
    requires w == q as real
    ensures Scaled(base, w, max) == Min(base * q, max)
  {
    RealProduct(base, q);
  }

  /** With an integer multiplier nothing is truncated. */
  lemma CappedInteger(base: int, m: int, max: int, k: nat)
    requires m >= 1
    ensures Capped(base, m as real, max, k) == Min(base * IntPower(m, k), max)
  {
    var q := WholePower(m, k);
    ScaledInteger(base, q, Power(m as real, k), max);
  }
}

/** internal/alert/backoff.go. */
module Backoff {
  import opened Common
  import opened Exponential
  import Keyed
  import Sliding

  datatype Policy = Policy(base: int, multiplier: real, max: int)

  datatype Entry = Entry(attempts: nat, nextAt: int)

  /** The wait that the n-th grant of a key imposes: the plain base after the first, then
      base * multiplier^(n-1) capped at max. */
  function Gap(p: Policy, n: nat): int {
    if n <= 1 then p.base else Capped(p.base, p.multiplier, p.max, n - 1)
  }

  function Schedule(p: Policy): nat -> int {
    (n: nat) => Gap(p, n)
  }

  /** One call, for any schedule of gaps. */
  function Decide(gap: nat -> int, s: Option<Entry>, c: Sliding.Call): (Option<Entry>, bool) {
    match c
    case Reset => (None, true)
    case Allow(now) =>
      match s
      case None => (Some(Entry(1, now + gap(1))), true)
      case Some(e) =>
        if now < e.nextAt then (s, false)
        else (Some(Entry(e.attempts + 1, now + gap(e.attempts + 1))), true)
  }

  function Gate(gap: nat -> int): (Option<Entry>, Sliding.Call) -> (Option<Entry>, bool) {
    (s, c) => Decide(gap, s, c)
  }

  class BackoffLimiter {
    const policy: Policy
    var state: map<string, Entry>

    ghost predicate Valid()
      reads this
    {
      forall k :: k in state ==> state[k].attempts >= 1
    }

    constructor (p: Policy)
      ensures Valid() && policy == p && state == map[]
    {
      policy := p;
      state := map[];
    }

    method Interval(attempts: nat) returns (interval: int)
      requires attempts >= 1
      ensures interval == Gap(policy, attempts + 1)
    {
      interval := Truncate(policy.base as real * Power(policy.multiplier, attempts));
      if interval > policy.max {
        interval := policy.max;
      }
    }

    method Allow(key: string, now: int) returns (ok: bool)
      requires Valid()
      modifies this
      ensures Valid()
      ensures (state, ok) == Keyed.Apply(Gate(Schedule(policy)), old(state), key, Sliding.Allow(now))
    {
      if key !in state {
        state := state[key := Entry(1, now + policy.base)];
        return true;
      }
      var entry := state[key];
      if now < entry.nextAt {
        assert state[key := entry] == state;
        return false;
      }
      var interval := Interval(entry.attempts);
      state := state[key := Entry(entry.attempts + 1, now + interval)];
      return true;
    }

    method Reset(key: string)
      requires Valid()
      modifies this
      ensures Valid()
      ensures state == old(state) - {key}
      ensures (state, true) == Keyed.Apply(Gate(Schedule(policy)), old(state), key, Sliding.Reset)
    {
      state := state - {key};
    }
  }

  /** The stored entry that follows from the grant times alone. */
  function EntryAfter(gap: nat -> int, grants: seq<int>): Option<Entry> {
    if grants == [] then None
    else Some(Entry(|grants|, grants[|grants| - 1] + gap(|grants|)))
  }

  /** Each grant comes at least the previous grant's gap later. */
  predicate Spaced(gap: nat -> int, grants: seq<int>) {
    forall i :: 1 <= i < |grants| ==> grants[i] >= grants[i - 1] + gap(i)
  }

  lemma GrantKeeps(gap: nat -> int, grants: seq<int>, now: int)
    ensures
      var (s, ok) := Decide(gap, EntryAfter(gap, grants), Sliding.Allow(now));
      && s == EntryAfter(gap, if ok then grants + [now] else grants)
      && (ok <==> grants == [] || now >= grants[|grants| - 1] + gap(|grants|))
  {
  }

  /** Without Reset and under any clock, the stored entry is determined by the grants so far. */
  lemma {:induction false} StateFollowsGrants(gap: nat -> int, before: seq<int>, calls: seq<Sliding.Call>)
    requires Sliding.Reset !in calls
    ensures
      var result := Keyed.RunOne(Gate(gap), EntryAfter(gap, before), calls);
      result.0 == EntryAfter(gap, before + Sliding.Grants(calls, result.1))
    decreases |calls|
  {
    if calls == [] {
      assert before + [] == before;
    } else {
      var (s, r) := Decide(gap, EntryAfter(gap, before), calls[0]);
      GrantKeeps(gap, before, calls[0].now);
      var rs := Keyed.RunOne(Gate(gap), s, calls[1..]).1;
      Sliding.GrantsNext(calls, r, rs);
      var grants := Sliding.Grants(calls[1..], rs);
      if r {
        StateFollowsGrants(gap, before + [calls[0].now], calls[1..]);
        assert before + ([calls[0].now] + grants) == before + [calls[0].now] + grants;
      } else {
        StateFollowsGrants(gap, before, calls[1..]);
        assert [] + grants == grants;
      }
    }
  }

  lemma SpacedSnoc(gap: nat -> int, grants: seq<int>, now: int)
    requires Spaced(gap, grants) && (grants == [] || now >= grants[|grants| - 1] + gap(|grants|))
    ensures Spaced(gap, grants + [now])
  {
    var extended := grants + [now];
    assert forall i :: 0 <= i < |grants| ==> extended[i] == grants[i];
  }

  /** Hence each gap between consecutive grants is at least the scheduled one. */
  lemma {:induction false} GapsGrow(gap: nat -> int, before: seq<int>, calls: seq<Sliding.Call>)
    requires Sliding.Reset !in calls && Spaced(gap, before)
    ensures Spaced(gap, before + Sliding.Grants(calls, Keyed.RunOne(Gate(gap), EntryAfter(gap, before), calls).1))
    decreases |calls|
  {
    if calls == [] {
      assert before + [] == before;
    } else {
      var (s, r) := Decide(gap, EntryAfter(gap, before), calls[0]);
      GrantKeeps(gap, before, calls[0].now);
      var rs := Keyed.RunOne(Gate(gap), s, calls[1..]).1;
      Sliding.GrantsNext(calls, r, rs);
      var grants := Sliding.Grants(calls[1..], rs);
      if r {
        SpacedSnoc(gap, before, calls[0].now);
        GapsGrow(gap, before + [calls[0].now], calls[1..]);
        assert before + ([calls[0].now] + grants) == before + [calls[0].now] + grants;
      } else {
        GapsGrow(gap, before, calls[1..]);
        assert [] + grants == grants;
      }
    }
  }

  /** The sum of the first n gaps. */
  function GapSum(gap: nat -> int, n: nat): int {
    if n == 0 then 0 else GapSum(gap, n - 1) + gap(n)
  }

  lemma {:induction false} SpanOfGrants(gap: nat -> int, grants: seq<int>, i: nat, j: nat)
    requires Spaced(gap, grants) && i <= j < |grants|
    ensures grants[j] - grants[i] >= GapSum(gap, j) - GapSum(gap, i)
  {
    if i < j {
      SpanOfGrants(gap, grants, i, j - 1);
    }
  }

  /** The grants of a key since its last Reset, under a policy. */
  function GrantsOf(p: Policy, calls: seq<Sliding.Call>): seq<int> {
    Sliding.SinceReset(calls, Keyed.RunOne(Gate(Schedule(p)), None, calls).1)
  }

  /** The entry holds what the grants since the last Reset determine, and these keep the gaps. */
  predicate Shows(gap: nat -> int, s: Option<Entry>, grants: seq<int>) {
    s == EntryAfter(gap, grants) && Spaced(gap, grants)
  }

  lemma GateShows(gap: nat -> int)
    ensures Shows(gap, None, []) && forall s :: Gate(gap)(s, Sliding.Reset).0 == None
    ensures forall s, h, now | Shows(gap, s, h) ::
              Shows(gap, Gate(gap)(s, Sliding.Allow(now)).0,
                    if Gate(gap)(s, Sliding.Allow(now)).1 then h + [now] else h)
  {
    forall s ensures Gate(gap)(s, Sliding.Reset).0 == None {
      assert Decide(gap, s, Sliding.Reset).0 == None;
    }
    forall s, h, now | Shows(gap, s, h)
      ensures Shows(gap, Gate(gap)(s, Sliding.Allow(now)).0,
                    if Gate(gap)(s, Sliding.Allow(now)).1 then h + [now] else h)
    {
      GrantKeeps(gap, h, now);
      if Decide(gap, s, Sliding.Allow(now)).1 {
        SpacedSnoc(gap, h, now);
      }
    }
  }

  /** Under any clock, and with Resets anywhere, a call is admitted exactly when there is no grant since
      the last Reset, or the scheduled gap has passed since the last of them. */
  lemma AdmitsExactly(gap: nat -> int, calls: seq<Sliding.Call>, i: nat)
    requires i < |calls| && calls[i].Allow?
    ensures
      var answers := Keyed.RunOne(Gate(gap), None, calls).1;
      var grants := Sliding.SinceReset(calls[..i], answers[..i]);
      answers[i] <==> grants == [] || calls[i].now >= grants[|grants| - 1] + gap(|grants|)
  {
    GateShows(gap);
    var s := Sliding.AnswerFollowsHistory(Gate(gap), (s, h) => Shows(gap, s, h), calls, i);
    var grants := Sliding.SinceReset(calls[..i], Keyed.RunOne(Gate(gap), None, calls).1[..i]);
    GrantKeeps(gap, grants, calls[i].now);
  }

  /** After a Reset a key is answered as if it had never been seen, whatever state it was in. */
  lemma ResetForgets(gap: nat -> int, s: Option<Entry>, calls: seq<Sliding.Call>)
    ensures Keyed.RunOne(Gate(gap), s, [Sliding.Reset] + calls).1[1..] == Keyed.RunOne(Gate(gap), None, calls).1
  {
    assert ([Sliding.Reset] + calls)[1..] == calls;
  }

  lemma SpacedSinceReset(p: Policy, calls: seq<Sliding.Call>)
    ensures Spaced(Schedule(p), GrantsOf(p, calls))
  {
    GateShows(Schedule(p));
    Sliding.StateFollowsHistory(Gate(Schedule(p)), (s, h) => Shows(Schedule(p), s, h), calls);
  }

  /** Under any clock, the n-th gap of a key since its last Reset is at least base (n = 1) or
      min(base * multiplier^(n-1), max), so the grants i .. j span at least the sum of the gaps between
      them. */
  lemma MinimumSpan(p: Policy, calls: seq<Sliding.Call>, i: nat, j: nat)
    requires i <= j < |GrantsOf(p, calls)|
    ensures j >= 1 ==> GrantsOf(p, calls)[j] >= GrantsOf(p, calls)[j - 1] + Gap(p, j)
    ensures GrantsOf(p, calls)[j] - GrantsOf(p, calls)[i] >= GapSum(Schedule(p), j) - GapSum(Schedule(p), i)
  {
    SpacedSinceReset(p, calls);
    SpanOfGrants(Schedule(p), GrantsOf(p, calls), i, j);
  }

  function IntegerPolicy(base: int, m: int, max: int): Policy {
    Policy(base, m as real, max)
  }

  lemma ScaleMono(base: int, a: int, b: int)
    requires base >= 0 && a <= b
    ensures base * a <= base * b
  {
  }

  lemma GeometricStep(base: int, m: int, q: int, sum: int)
    requires (m - 1) * sum == base * (q - 1)
    ensures (m - 1) * (sum + base * q) == base * (m * q - 1)
  {
    calc {
      (m - 1) * (sum + base * q);
      base * (q - 1) + (m - 1) * (base * q);
      base * (m * q - 1);
    }
  }

  lemma UncappedGap(base: int, m: int, max: int, n: nat)
    requires m >= 1 && base >= 0 && n >= 1 && (n == 1 || base * IntPower(m, n - 1) <= max)
    ensures Gap(IntegerPolicy(base, m, max), n) == base * IntPower(m, n - 1)
  {
    if n > 1 {
      CappedInteger(base, m, max, n - 1);
    }
  }

  /** Before the cap, the gaps of an integer multiplier m form a geometric series. */
  lemma {:induction false} GeometricGaps(base: int, m: int, max: int, n: nat)
    requires m >= 1 && base >= 0 && (n <= 1 || base * IntPower(m, n - 1) <= max)
    ensures (m - 1) * GapSum(Schedule(IntegerPolicy(base, m, max)), n) == base * (IntPower(m, n) - 1)
  {
    var gap := Schedule(IntegerPolicy(base, m, max));
    if n > 0 {
      UncappedGap(base, m, max, n);
      if n > 1 {
        IntPowerPositive(m, n - 2);
        ScaleMono(base, IntPower(m, n - 2), IntPower(m, n - 1));
      }
      GeometricGaps(base, m, max, n - 1);
      GeometricStep(base, m, IntPower(m, n - 1), GapSum(gap, n - 1));
      assert GapSum(gap, n) == GapSum(gap, n - 1) + base * IntPower(m, n - 1);
    }
  }

  lemma CappedGap(base: int, m: int, max: int, n: nat)
    requires m >= 1 && base >= 0 && n >= 2 && base * IntPower(m, n - 1) >= max
    ensures Gap(IntegerPolicy(base, m, max), n) == max
  {
    CappedInteger(base, m, max, n - 1);
  }

  lemma {:induction false} ConstantGaps(gap: nat -> int, max: int, c: nat, n: nat)
    requires c <= n && forall k :: c < k <= n ==> gap(k) == max
    ensures GapSum(gap, n) == GapSum(gap, c) + (n - c) * max
  {
    if c < n {
      ConstantGaps(gap, max, c, n - 1);
      MulPred(n - c, max);
    }
  }

  /** Once base * m^c reaches the cap, every later gap is the cap. */
  lemma CappedGaps(base: int, m: int, max: int, c: nat, n: nat)
    requires m >= 1 && base >= 0 && 1 <= c <= n && base * IntPower(m, c) >= max
    ensures
      var gap := Schedule(IntegerPolicy(base, m, max));
      GapSum(gap, n) == GapSum(gap, c) + (n - c) * max
  {
    var gap := Schedule(IntegerPolicy(base, m, max));
    forall k | c < k <= n ensures gap(k) == max {
      PowersGrow(base, m, c, k - 1);
      CappedGap(base, m, max, k);
    }
    ConstantGaps(gap, max, c, n);
  }

  lemma {:induction false} PowersGrow(base: int, m: int, c: nat, k: nat)
    requires m >= 1 && base >= 0 && c <= k
    ensures base * IntPower(m, c) <= base * IntPower(m, k)
  {
    if c < k {
      PowersGrow(base, m, c, k - 1);
      IntPowerPositive(m, k - 1);
      ScaleMono(base, IntPower(m, k - 1), IntPower(m, k));
    }
  }

  /** Doubling, as in the default policy: when the cap is reached after c gaps, n + 1 grants span at
      least base * (2^c - 1) + (n - c) * max; before the cap they span at least base * (2^n - 1). */
  lemma DoublingSpan(base: int, max: int, calls: seq<Sliding.Call>, c: nat, n: nat)
    requires base >= 0
    requires c <= 1 || base * IntPower(2, c - 1) <= max
    requires c < n ==> c >= 1 && base * IntPower(2, c) >= max
    requires n < |GrantsOf(IntegerPolicy(base, 2, max), calls)|
    ensures
      var grants := GrantsOf(IntegerPolicy(base, 2, max), calls);
      grants[n] - grants[0] >= if n <= c then base * (IntPower(2, n) - 1)
                               else base * (IntPower(2, c) - 1) + (n - c) * max
  {
    MinimumSpan(IntegerPolicy(base, 2, max), calls, 0, n);
    DoublingSum(base, max, c, n);
  }

  lemma DoublingSum(base: int, max: int, c: nat, n: nat)
    requires base >= 0 && (c <= 1 || base * IntPower(2, c - 1) <= max)
    requires c < n ==> c >= 1 && base * IntPower(2, c) >= max
    ensures
      GapSum(Schedule(IntegerPolicy(base, 2, max)), n) ==
      if n <= c then base * (IntPower(2, n) - 1) else base * (IntPower(2, c) - 1) + (n - c) * max
  {
    if n <= c {
      if 1 < n {
        PowersGrow(base, 2, n - 1, c - 1);
      }
      GeometricGaps(base, 2, max, n);
    } else {
      GeometricGaps(base, 2, max, c);
      CappedGaps(base, 2, max, c, n);
    }
  }

  // ---- How many grants fit in a span -------------------------------------------------------

  lemma GapsAscend(base: int, m: int, max: int, k: nat)
    requires m >= 1 && 0 <= base <= max && k >= 1
    ensures Gap(IntegerPolicy(base, m, max), k) <= Gap(IntegerPolicy(base, m, max), k + 1)
  {
    CappedInteger(base, m, max, k);
    PowersGrow(base, m, k - 1, k);
    if k > 1 {
      CappedInteger(base, m, max, k - 1);
    }
  }

  lemma {:induction false} LaterGapsAreLarger(base: int, m: int, max: int, n: nat, i: nat)
    requires m >= 1 && 0 <= base <= max && n >= 1
    ensures Gap(IntegerPolicy(base, m, max), n) <= Gap(IntegerPolicy(base, m, max), i + n)
  {
    if i > 0 {
      LaterGapsAreLarger(base, m, max, n, i - 1);
      GapsAscend(base, m, max, i + n - 1);
    }
  }

  /** Any n consecutive gaps sum to at least the first n. */
  lemma {:induction false} FirstGapsAreLeast(base: int, m: int, max: int, i: nat, n: nat)
    requires m >= 1 && 0 <= base <= max
    ensures
      var gap := Schedule(IntegerPolicy(base, m, max));
      GapSum(gap, i + n) - GapSum(gap, i) >= GapSum(gap, n)
  {
    if n > 0 {
      FirstGapsAreLeast(base, m, max, i, n - 1);
      LaterGapsAreLarger(base, m, max, n, i);
    }
  }

  /** From whichever grant the span begins, it is at least the sum of as many gaps from the first on. */
  lemma SpanFromAnyGrant(base: int, m: int, max: int, calls: seq<Sliding.Call>, i: nat, j: nat)
    requires m >= 1 && 0 <= base <= max
    requires i <= j < |GrantsOf(IntegerPolicy(base, m, max), calls)|
    ensures
      var grants := GrantsOf(IntegerPolicy(base, m, max), calls);
      grants[j] - grants[i] >= GapSum(Schedule(IntegerPolicy(base, m, max)), j - i)
  {
    MinimumSpan(IntegerPolicy(base, m, max), calls, i, j);
    FirstGapsAreLeast(base, m, max, i, j - i);
  }

  lemma PowerStep(m: int, k: nat)
    requires m >= 2
    ensures 1 <= IntPower(m, k) && IntPower(m, k) + 1 <= IntPower(m, k + 1) == m * IntPower(m, k)
  {
    IntPowerPositive(m, k);
    MulMono(2, m, IntPower(m, k));
  }

  /** From which gap on the cap counts. */
  function CapIndex(base: int, m: int, max: int): (c: nat)
    requires m >= 2 && 1 <= base <= max
    ensures c >= 1 && base * IntPower(m, c - 1) <= max <= base * IntPower(m, c)
  {
    CapFrom(base, m, max, 1)
  }

  function CapFrom(base: int, m: int, max: int, k: nat): (c: nat)
    requires m >= 2 && base >= 1 && k >= 1 && base * IntPower(m, k - 1) <= max
    ensures c >= 1 && base * IntPower(m, c - 1) <= max <= base * IntPower(m, c)
    decreases max - base * IntPower(m, k - 1)
  {
    PowerStep(m, k - 1);
    MulMono(IntPower(m, k - 1) + 1, IntPower(m, k), base);
    assert base * (IntPower(m, k - 1) + 1) == base * IntPower(m, k - 1) + base;
    if max <= base * IntPower(m, k) then k else CapFrom(base, m, max, k + 1)
  }

  /** The largest k with m^k <= x. */
  function Log(m: int, x: int): (k: nat)
    requires m >= 2 && x >= 1
    ensures IntPower(m, k) <= x < IntPower(m, k + 1)
    decreases x
  {
    if x < m then 0
    else
      QuotientBelow(m, x);
      var k := Log(m, x / m);
      LogStep(m, x, IntPower(m, k), IntPower(m, k + 1));
      1 + k
  }

  lemma QuotientBelow(m: int, x: int)
    requires 2 <= m <= x
    ensures 1 <= x / m < x && m * (x / m) <= x < m * (x / m + 1)
  {
    assert x == m * (x / m) + x % m;
    DivideBound(x, 1, m);
    MulMono(2, m, x / m);
  }

  lemma LogStep(m: int, x: int, low: int, high: int)
    requires 2 <= m <= x && 1 <= low <= x / m < high
    ensures m * low <= x < m * high
  {
    QuotientBelow(m, x);
    MulMono(low, x / m, m);
    MulMono(x / m + 1, high, m);
  }

  lemma PowersOrder(m: int, j: nat, k: nat)
    requires m >= 1 && IntPower(m, j) < IntPower(m, k)
    ensures j < k
  {
    if k <= j {
      PowersGrow(1, m, k, j);
    }
  }

  lemma LogBounds(m: int, x: int, n: nat)
    requires m >= 2 && x >= 1 && IntPower(m, n) <= x
    ensures n <= Log(m, x)
  {
    PowersOrder(m, n, Log(m, x) + 1);
  }

  /** base + base * m + ... + base * m^(n-1). */
  function Geometric(base: int, m: int, n: nat): int
    requires m >= 2
  {
    base * (IntPower(m, n) - 1) / (m - 1)
  }

  /** How many gaps of a schedule with its cap after c of them fit in a span: until the cap a logarithm,
      and from there on one more per max. */
  predicate Fits(base: int, m: int, max: int, c: nat, n: nat, span: int)
    requires base >= 1 && m >= 2 && max >= 1
  {
    if n <= c then (m - 1) * span / base + 1 >= 1 && n <= Log(m, (m - 1) * span / base + 1)
    else n <= c + (span - Geometric(base, m, c)) / max
  }

  lemma BeforeCapFits(base: int, m: int, n: nat, sum: int, span: int)
    requires base >= 1 && m >= 2 && (m - 1) * sum == base * (IntPower(m, n) - 1) && span >= sum >= 0
    ensures (m - 1) * span / base + 1 >= 1 && n <= Log(m, (m - 1) * span / base + 1)
  {
    IntPowerPositive(m, n);
    var q := IntPower(m, n) - 1;
    MulMono(sum, span, m - 1);
    DivideBound((m - 1) * span, q, base);
    LogBounds(m, (m - 1) * span / base + 1, n);
  }

  lemma ExactQuotient(a: int, d: int, s: nat)
    requires d >= 1 && d * s == a
    ensures a / d == s
  {
    assert s * d == a;
    DivideBound(a, s, d);
    var q: nat := a / d;
    assert q * d <= a;
    assert (q - s) * d == q * d - s * d;
  }

  lemma SumNonnegative(base: int, m: int, max: int, n: nat)
    requires m >= 1 && 0 <= base <= max
    ensures GapSum(Schedule(IntegerPolicy(base, m, max)), n) >= 0
  {
    if n > 0 {
      SumNonnegative(base, m, max, n - 1);
      LaterGapsAreLarger(base, m, max, 1, n - 1);
    }
  }

  lemma GeometricSum(base: int, m: int, max: int, c: nat)
    requires m >= 2 && 0 <= base <= max && (c <= 1 || base * IntPower(m, c - 1) <= max)
    ensures GapSum(Schedule(IntegerPolicy(base, m, max)), c) == Geometric(base, m, c)
  {
    var sum := GapSum(Schedule(IntegerPolicy(base, m, max)), c);
    var product := base * (IntPower(m, c) - 1);
    SumNonnegative(base, m, max, c);
    assert (m - 1) * sum == product by {
      GeometricGaps(base, m, max, c);
    }
    ExactQuotient(product, m - 1, sum);
  }

  lemma SumFits(base: int, m: int, max: int, n: nat, span: int)
    requires m >= 2 && 1 <= base <= max
    requires span >= GapSum(Schedule(IntegerPolicy(base, m, max)), n)
    ensures Fits(base, m, max, CapIndex(base, m, max), n, span)
  {
    var gap := Schedule(IntegerPolicy(base, m, max));
    var c := CapIndex(base, m, max);
    if n <= c {
      if n > 1 {
        PowersGrow(base, m, n - 1, c - 1);
      }
      GeometricGaps(base, m, max, n);
      SumNonnegative(base, m, max, n);
      BeforeCapFits(base, m, n, GapSum(gap, n), span);
    } else {
      CappedGaps(base, m, max, c, n);
      GeometricSum(base, m, max, c);
      AfterCapFits(GapSum(gap, c), max, n - c, span);
    }
  }

  lemma AfterCapFits(sum: int, max: int, k: nat, span: int)
    requires max >= 1 && span >= sum + k * max
    ensures k <= (span - sum) / max
  {
    DivideBound(span - sum, k, max);
  }

  /** The grants i .. j of a key, for any i, since its last Reset, with an integer multiplier from 2 on. */
  lemma GrantsInSpan(base: int, m: int, max: int, calls: seq<Sliding.Call>, i: nat, j: nat)
    requires m >= 2 && 1 <= base <= max
    requires i <= j < |GrantsOf(IntegerPolicy(base, m, max), calls)|
    ensures
      var grants := GrantsOf(IntegerPolicy(base, m, max), calls);
      Fits(base, m, max, CapIndex(base, m, max), j - i, grants[j] - grants[i])
  {
    var grants := GrantsOf(IntegerPolicy(base, m, max), calls);
    SpanFromAnyGrant(base, m, max, calls, i, j);
    SumFits(base, m, max, j - i, grants[j] - grants[i]);
  }

  lemma {:induction false} GapsAtLeast(gap: nat -> int, d: int, i: nat, j: nat)
    requires i <= j && forall k :: i < k <= j ==> gap(k) >= d
    ensures GapSum(gap, j) - GapSum(gap, i) >= (j - i) * d
  {
    if i < j {
      GapsAtLeast(gap, d, i, j - 1);
      MulPred(j - i, d);
    }
  }

  /** For every policy with an integer multiplier, also a constant one or a base above the cap: every gap
      is at least min(base, max). */
  lemma GrantsInSpanLinear(base: int, m: int, max: int, calls: seq<Sliding.Call>, i: nat, j: nat)
    requires m >= 1 && base >= 1 && max >= 1
    requires i <= j < |GrantsOf(IntegerPolicy(base, m, max), calls)|
    ensures
      var grants := GrantsOf(IntegerPolicy(base, m, max), calls);
      j - i <= (grants[j] - grants[i]) / Min(base, max)
  {
    var p := IntegerPolicy(base, m, max);
    MinimumSpan(p, calls, i, j);
    forall k | i < k <= j ensures Gap(p, k) >= Min(base, max) {
      LeastGap(base, m, max, k);
    }
    GapsAtLeast(Schedule(p), Min(base, max), i, j);
    var grants := GrantsOf(p, calls);
    DivideBound(grants[j] - grants[i], j - i, Min(base, max));
  }

  // ---- Runs with Resets --------------------------------------------------------------------

  lemma {:induction false} NoneLater(ts: seq<int>, lo: int, hi: int, hi': int)
    requires hi <= hi' && forall k :: 0 <= k < |ts| ==> ts[k] <= hi
    ensures Sliding.CountIn(ts, lo, hi') == Sliding.CountIn(ts, lo, hi)
  {
    if ts != [] {
      NoneLater(ts[..|ts| - 1], lo, hi, hi');
    }
  }

  /** Times at least d apart: at most span / d + 1 of them lie in an interval. */
  lemma {:induction false} ApartInSpan(ts: seq<int>, d: int, lo: int, span: int)
    requires d >= 1 && span >= 0 && forall k :: 1 <= k < |ts| ==> ts[k] >= ts[k - 1] + d
    ensures Sliding.CountIn(ts, lo, lo + span) <= span / d + 1
    decreases |ts|
  {
    DivideBound(span, 0, d);
    if ts != [] {
      var init, t := ts[..|ts| - 1], ts[|ts| - 1];
      ApartInSpan(init, d, lo, span);
      if lo < t <= lo + span {
        Ascending(ts, d);
        NoneLater(init, lo, t - d, lo + span);
        if t - d <= lo {
          Sliding.EmptyInterval(init, lo, t - d);
        } else {
          ApartInSpan(init, d, lo, t - d - lo);
          DivideStep(t - d - lo, span, d);
        }
      }
    }
  }

  lemma {:induction false} Ascending(ts: seq<int>, d: int)
    requires d >= 1 && ts != [] && forall k :: 1 <= k < |ts| ==> ts[k] >= ts[k - 1] + d
    ensures forall k :: 0 <= k < |ts| - 1 ==> ts[k] <= ts[|ts| - 1] - d
    decreases |ts|
  {
    if |ts| > 1 {
      Ascending(ts[..|ts| - 1], d);
    }
  }

  lemma DivideStep(x: int, y: int, d: int)
    requires d >= 1 && 0 <= x && x + d <= y
    ensures x / d + 1 <= y / d
  {
    DivideBound(x, 0, d);
    assert x == d * (x / d) + x % d;
    MulPred(x / d + 1, d);
    DivideBound(y, x / d + 1, d);
  }

  lemma GapsApart(base: int, m: int, max: int, calls: seq<Sliding.Call>)
    requires m >= 1 && base >= 1 && max >= 1
    ensures
      var grants := GrantsOf(IntegerPolicy(base, m, max), calls);
      forall k :: 1 <= k < |grants| ==> grants[k] >= grants[k - 1] + Min(base, max)
  {
    var p := IntegerPolicy(base, m, max);
    SpacedSinceReset(p, calls);
    forall k: nat | 1 <= k ensures Gap(p, k) >= Min(base, max) {
      LeastGap(base, m, max, k);
    }
  }

  lemma LeastGap(base: int, m: int, max: int, k: nat)
    requires m >= 1 && base >= 1 && max >= 1 && k >= 1
    ensures Gap(IntegerPolicy(base, m, max), k) >= Min(base, max)
  {
    if k >= 2 {
      PowersGrow(base, m, 0, k - 1);
      CappedInteger(base, m, max, k - 1);
    }
  }

  lemma {:induction false} RunIsModerate(base: int, m: int, max: int, calls: seq<Sliding.Call>, lo: int, span: int)
    requires m >= 1 && base >= 1 && max >= 1 && span >= 0 && span / Min(base, max) + 1 >= 0
    ensures
      var answers := Keyed.RunOne(Gate(Schedule(IntegerPolicy(base, m, max))), None, calls).1;
      Sliding.Moderate(calls, answers, lo, lo + span, span / Min(base, max) + 1)
    decreases |calls|
  {
    var p := IntegerPolicy(base, m, max);
    GapsApart(base, m, max, calls);
    ApartInSpan(GrantsOf(p, calls), Min(base, max), lo, span);
    if calls != [] {
      RunIsModerate(base, m, max, calls[..|calls| - 1], lo, span);
      Keyed.RunPrefix(Gate(Schedule(p)), None, calls, |calls| - 1);
    }
  }

  /** In a run with n Resets, and under any clock, an interval of length L sees at most
      (n + 1) * (L / min(base, max) + 1) grants of a key. */
  lemma TotalGrants(base: int, m: int, max: int, calls: seq<Sliding.Call>, lo: int, span: int)
    requires m >= 1 && base >= 1 && max >= 1 && span >= 0
    ensures
      var answers := Keyed.RunOne(Gate(Schedule(IntegerPolicy(base, m, max))), None, calls).1;
      Sliding.CountIn(Sliding.Grants(calls, answers), lo, lo + span) <=
      (Sliding.Resets(calls) + 1) * (span / Min(base, max) + 1)
  {
    var p := IntegerPolicy(base, m, max);
    var answers := Keyed.RunOne(Gate(Schedule(p)), None, calls).1;
    DivideBound(span, 0, Min(base, max));
    var most: nat := span / Min(base, max) + 1;
    RunIsModerate(base, m, max, calls, lo, span);
    Sliding.CountAcrossResets(calls, answers, lo, lo + span, most);
  }
}

/** internal/alert/retry.go: the attempt and wait loop. */
module Retry {
  import opened Common
  import opened Exponential
  import Backoff

  datatype Policy = Policy(maxAttempts: int, initialWait: int, multiplier: real, maxWait: int)

  /** What the HTTP client returns; a transport error may wrap a cause. */
  datatype Response = Status(code: int) | TransportError(cause: Option<string>)

  predicate Transient(r: Response) {
    r.TransportError? || r.code >= 500
  }

  /** What errors.Unwrap finds in the last error: a status error wraps nothing. */
  function Cause(r: Response): Option<string> {
    match r
    case Status(_) => None
    case TransportError(cause) => cause
  }

  datatype Result = Delivered(code: int) | Cancelled | Exhausted(cause: Option<string>)

  function NextWait(p: Policy, wait: int): int {
    Scaled(wait, p.multiplier, p.maxWait)
  }

  /** The wait between attempt k and attempt k + 1. */
  function Wait(p: Policy, k: nat): int
    requires k >= 1
  {
    if k == 1 then p.initialWait else NextWait(p, Wait(p, k - 1))
  }

  function Waits(p: Policy, n: nat): seq<int> {
    if n == 0 then [] else Waits(p, n - 1) + [Wait(p, n)]
  }

  function Limit(p: Policy): nat {
    if p.maxAttempts <= 0 then 0 else p.maxAttempts
  }

  /** The waits total at most n * MaxWait, unless the first one is longer than MaxWait. */
  predicate InBudget(p: Policy, n: nat, waited: seq<int>) {
    p.initialWait <= p.maxWait ==> Sum(waited) <= n * p.maxWait
  }

  /** responses[k] answers attempt k + 1, and cancelled[k] tells whether the context is done during the
      wait after it. */
  method Do(p: Policy, responses: seq<Response>, cancelled: seq<bool>)
    returns (result: Result, attempts: nat, waited: seq<int>)
    requires |responses| >= Limit(p) && |cancelled| >= Limit(p)
    ensures attempts <= Limit(p) == if p.maxAttempts <= 0 then 0 else p.maxAttempts
    ensures forall k :: 0 <= k < attempts - 1 ==> !cancelled[k]
    ensures forall k :: 0 <= k < attempts - (if result.Delivered? then 1 else 0) ==>
              responses[k].TransportError? || responses[k].code >= 500
    ensures waited == Waits(p, if attempts == 0 then 0 else attempts - 1)
    ensures attempts > 0 ==> InBudget(p, attempts - 1, waited)
    ensures result.Delivered? ==>
              attempts > 0 && responses[attempts - 1] == Status(result.code) && result.code < 500
    ensures result.Cancelled? ==>
              0 < attempts < Limit(p) && cancelled[attempts - 1]
    ensures result.Exhausted? ==>
              && attempts == Limit(p)
              && result.cause == if attempts > 0 && responses[attempts - 1].TransportError?
                                 then responses[attempts - 1].cause else None
  {
    var wait := p.initialWait;
    var lastErr: Option<string> := None;
    attempts, waited := 0, [];
    TotalWait(p, 0);
    while attempts < p.maxAttempts
      invariant attempts == 0 || attempts < Limit(p)
      invariant forall k :: 0 <= k < attempts ==> Transient(responses[k]) && !cancelled[k]
      invariant wait == Wait(p, attempts + 1) && waited == Waits(p, attempts)
      invariant InBudget(p, attempts, waited)
      invariant lastErr == if attempts == 0 then None else Cause(responses[attempts - 1])
    {
      attempts := attempts + 1;
      var resp := responses[attempts - 1];
      if resp.Status? && resp.code < 500 {
        return Delivered(resp.code), attempts, waited;
      }
      lastErr := Cause(resp);
      if attempts == p.maxAttempts {
        break;
      }
      if cancelled[attempts - 1] {
        return Cancelled, attempts, waited;
      }
      waited := waited + [wait];
      TotalWait(p, attempts);
      wait := Multiply(p, wait);
    }
    result := Exhausted(lastErr);
  }

  method Multiply(p: Policy, wait: int) returns (next: int)
    ensures next == NextWait(p, wait)
  {
    next := Truncate(wait as real * p.multiplier);
    if next > p.maxWait {
      next := p.maxWait;
    }
  }

  function Sum(s: seq<int>): int {
    if s == [] then 0 else Sum(s[..|s| - 1]) + s[|s| - 1]
  }

  lemma WaitCapped(p: Policy, k: nat)
    requires k >= 1
    ensures Wait(p, k) <= p.maxWait || (k == 1 && p.initialWait > p.maxWait)
  {
  }

  /** The waits of n + 1 attempts total at most n * MaxWait when InitialWait does not exceed MaxWait; and
      exactly then, for the first wait is never capped. */
  lemma {:induction false} TotalWait(p: Policy, n: nat)
    ensures InBudget(p, n, Waits(p, n))
    ensures p.initialWait > p.maxWait ==> Sum(Waits(p, 1)) > p.maxWait
  {
    assert Waits(p, 1) == [p.initialWait] by {
      assert Waits(p, 0) == [];
    }
    assert [p.initialWait][..0] == [];
    if n > 0 {
      TotalWait(p, n - 1);
      WaitCapped(p, n);
      MulPred(n, p.maxWait);
      var ws := Waits(p, n);
      assert ws[..|ws| - 1] == Waits(p, n - 1);
    }
  }

  lemma NextWaitInteger(p: Policy, wait: int, m: int)
    requires m >= 1 && p.multiplier == m as real
    ensures NextWait(p, wait) == Min(wait * m, p.maxWait)
  {
    ScaledInteger(wait, m, p.multiplier, p.maxWait);
  }

  lemma CapStep(x: int, q: int, m: int, cap: int)
    requires x >= 0 && q >= 1 && m >= 1 && cap >= 0
    ensures Min(Min(x * q, cap) * m, cap) == Min(x * (m * q), cap)
  {
    assert x * (m * q) == (x * q) * m;
    if x * q > cap {
      ScaleUp(cap, m);
      ScaleUp(x * q, m);
    }
  }

  lemma ScaleUp(x: int, m: int)
    requires x >= 0 && m >= 1
    ensures x <= x * m
  {
  }

  /** For an integer multiplier, multiplying and capping step by step gives the closed form: the same
      schedule as the backoff limiter's gaps. */
  lemma {:induction false} ClosedForm(p: Policy, m: int, k: nat)
    requires k >= 1 && m >= 1 && p.multiplier == m as real && 0 <= p.initialWait <= p.maxWait
    ensures Wait(p, k) == Min(p.initialWait * IntPower(m, k - 1), p.maxWait)
    ensures Wait(p, k) == Backoff.Gap(Backoff.Policy(p.initialWait, p.multiplier, p.maxWait), k)
  {
    if k > 1 {
      ClosedForm(p, m, k - 1);
      IntPowerPositive(m, k - 2);
      NextWaitInteger(p, Wait(p, k - 1), m);
      CapStep(p.initialWait, IntPower(m, k - 2), m, p.maxWait);
      CappedInteger(p.initialWait, m, p.maxWait, k - 1);
    }
  }
}
