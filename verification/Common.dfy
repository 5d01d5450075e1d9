/** Vocabulary shared by every component: optional values, the result of one call to a
    downstream dispatcher, and counting in a sequence. */
module Common {
  datatype Option<+T> = None | Some(value: T)

  /** What one call returned: Go's nil error, or an error. */
  datatype Outcome = Success | Failure(error: string)

  /** The alert payload, internal/alert/notify.go:15-20. */
  datatype Notification = Notification(port: int, state: string, timestamp: int, message: string)

  function Get<K, V>(m: map<K, V>, k: K): Option<V> {
    if k in m then Some(m[k]) else None
  }

  /** How many elements of s equal x. */
  function Count<T(==)>(s: seq<T>, x: T): nat {
    if s == [] then 0 else (if s[0] == x then 1 else 0) + Count(s[1..], x)
  }

  lemma {:induction false} CountUpdate<T>(s: seq<T>, i: nat, y: T, x: T)
    requires i < |s|
    ensures Count(s[i := y], x) ==
            Count(s, x) - (if s[i] == x then 1 else 0) + (if y == x then 1 else 0)
  {
    if i == 0 {
      assert s[i := y][1..] == s[1..];
    } else {
      CountUpdate(s[1..], i - 1, y, x);
      assert s[i := y][1..] == s[1..][i - 1 := y];
    }
  }

  lemma {:induction false} CountConcat<T>(s: seq<T>, t: seq<T>, x: T)
    ensures Count(s + t, x) == Count(s, x) + Count(t, x)
  {
    if s == [] {
      assert s + t == t;
    } else {
      CountConcat(s[1..], t, x);
      assert (s + t)[1..] == s[1..] + t;
    }
  }

  lemma {:induction false} CountNone<T>(s: seq<T>, x: T)
    requires x !in s
    ensures Count(s, x) == 0
  {
    if s != [] {
      CountNone(s[1..], x);
    }
  }

  lemma {:induction false} CountSome<T>(s: seq<T>, i: nat)
    requires i < |s|
    ensures Count(s, s[i]) >= 1
  {
    if i > 0 {
      CountSome(s[1..], i - 1);
    }
  }

  /** The count is at most the length, and reaches it only when every element is x. */
  lemma {:induction false} CountFull<T>(s: seq<T>, x: T)
    ensures Count(s, x) <= |s|
    ensures Count(s, x) == |s| <==> forall i :: 0 <= i < |s| ==> s[i] == x
  {
    if s != [] {
      CountFull(s[1..], x);
      assert forall i :: 0 < i < |s| ==> s[i] == s[1..][i - 1];
      if forall i :: 0 <= i < |s| ==> s[i] == x {
        assert forall i :: 0 <= i < |s[1..]| ==> s[1..][i] == s[i + 1];
      }
    }
  }

  lemma ConsConcat<T>(x: T, s: seq<T>, t: seq<T>)
    ensures ([x] + s) + t == [x] + (s + t)
  {
  }

  lemma MulPred(k: int, x: int)
    ensures k * x == (k - 1) * x + x
  {
  }

  lemma {:induction false} MulMono(a: nat, b: nat, d: nat)
    requires a <= b
    ensures a * d <= b * d
  {
    if a < b {
      MulMono(a, b - 1, d);
      assert b * d == (b - 1) * d + d;
    }
  }

  lemma DivideBound(x: int, k: nat, d: int)
    requires d > 0 && x >= k * d
    ensures 0 <= x && k <= x / d
  {
    MulMono(0, k, d);
    var q: nat := x / d;
    assert x < (q + 1) * d;
    if q + 1 <= k {
      MulMono(q + 1, k, d);
    }
  }

  /** The elements of s at the indices that keep accepts, in order. */
  function Filter<T>(s: seq<T>, keep: nat -> bool): seq<T> {
    if s == [] then []
    else
      var last := |s| - 1;
      Filter(s[..last], keep) + (if keep(last) then [s[last]] else [])
  }

  lemma FilterSnoc<T>(s: seq<T>, x: T, keep: nat -> bool)
    ensures Filter(s + [x], keep) == Filter(s, keep) + (if keep(|s|) then [x] else [])
  {
    assert (s + [x])[..|s|] == s;
  }

  /** What is filtered out of a prefix. */
  lemma FilterNext<T>(s: seq<T>, i: nat, keep: nat -> bool)
    requires i < |s|
    ensures Filter(s[..i + 1], keep) == Filter(s[..i], keep) + (if keep(i) then [s[i]] else [])
  {
    assert s[..i + 1] == s[..i] + [s[i]];
    FilterSnoc(s[..i], s[i], keep);
  }

  lemma {:induction false} FilterMembers<T>(s: seq<T>, keep: nat -> bool, x: T)
    ensures x in Filter(s, keep) <==> exists i: nat :: i < |s| && keep(i) && s[i] == x
  {
    if s != [] {
      var last := |s| - 1;
      FilterMembers(s[..last], keep, x);
      if i: nat :| i < last && keep(i) && s[..last][i] == x {
        assert s[i] == x;
      }
    }
  }

  lemma Reassociate<T>(a: seq<T>, b: seq<T>, c: seq<T>)
    ensures (a + b) + c == a + (b + c)
  {
  }

  lemma HeadBag<T>(s: seq<T>)
    requires s != []
    ensures multiset(s) == multiset{s[0]} + multiset(s[1..])
  {
    assert s == [s[0]] + s[1..];
  }

  /** The last n elements, or all of them when there are fewer. */
  function LastN<T>(n: nat, s: seq<T>): (r: seq<T>)
    ensures |r| == if |s| < n then |s| else n
  {
    if |s| < n then s else s[|s| - n..]
  }

  /** Append, first dropping the oldest element of a full buffer. */
  function Push<T>(capacity: nat, s: seq<T>, x: T): seq<T> {
    (if |s| >= capacity && s != [] then s[1..] else s) + [x]
  }

  function PushAll<T>(capacity: nat, s: seq<T>, xs: seq<T>): seq<T>
    decreases |xs|
  {
    if xs == [] then s else PushAll(capacity, Push(capacity, s, xs[0]), xs[1..])
  }

  lemma SnocConcat<T>(before: seq<T>, xs: seq<T>)
    requires xs != []
    ensures before + [xs[0]] + xs[1..] == before + xs
  {
  }

  lemma PushKeepsLast<T>(capacity: nat, before: seq<T>, x: T)
    requires capacity >= 1
    ensures Push(capacity, LastN(capacity, before), x) == LastN(capacity, before + [x])
  {
  }

  /** The slice-shift bounded log holds exactly the last `capacity` elements of everything pushed. */
  lemma {:induction false} PushAllKeepsLast<T>(capacity: nat, before: seq<T>, xs: seq<T>)
    requires capacity >= 1
    ensures PushAll(capacity, LastN(capacity, before), xs) == LastN(capacity, before + xs)
    decreases |xs|
  {
    if xs == [] {
      assert before + xs == before;
    } else {
      PushKeepsLast(capacity, before, xs[0]);
      PushAllKeepsLast(capacity, before + [xs[0]], xs[1..]);
      SnocConcat(before, xs);
    }
  }
}

/** Labelled step machines. A scheduler picks the labels; a label that is not enabled in a state
    has no successor, so a schedule denotes a run exactly when Exec yields a state. */
module Machine {
  import opened Common

  function Exec<S, E>(next: (S, E) -> Option<S>, s: S, schedule: seq<E>): Option<S> {
    if schedule == [] then Some(s)
    else match next(s, schedule[0])
      case None => None
      case Some(t) => Exec(next, t, schedule[1..])
  }

  /** Some schedule leads from s to t. */
  ghost predicate Reaches<S, E(!new)>(next: (S, E) -> Option<S>, s: S, t: S) {
    exists schedule: seq<E> :: Exec(next, s, schedule) == Some(t)
  }

  /** No step of any kind is enabled. */
  ghost predicate Quiescent<S, E(!new)>(next: (S, E) -> Option<S>, s: S) {
    forall e :: next(s, e).None?
  }

  ghost predicate Preserved<S(!new), E(!new)>(next: (S, E) -> Option<S>, inv: S -> bool) {
    forall s, e :: inv(s) && next(s, e).Some? ==> inv(next(s, e).value)
  }

  /** What every step keeps holds after every schedule. */
  lemma {:induction false} AlwaysHolds<S(!new), E(!new)>(
    next: (S, E) -> Option<S>, inv: S -> bool, s: S, schedule: seq<E>)
    requires inv(s) && Preserved(next, inv)
    ensures Exec(next, s, schedule).Some? ==> inv(Exec(next, s, schedule).value)
  {
    if schedule != [] && next(s, schedule[0]).Some? {
      AlwaysHolds(next, inv, next(s, schedule[0]).value, schedule[1..]);
    }
  }

  /** A run can be extended by any enabled step. */
  lemma {:induction false} ExecStep<S, E>(next: (S, E) -> Option<S>, s: S, schedule: seq<E>, t: S, e: E)
    requires Exec(next, s, schedule) == Some(t)
    ensures Exec(next, s, schedule + [e]) == next(t, e)
  {
    if schedule == [] {
      assert schedule + [e] == [e] && [e][1..] == [];
    } else {
      assert (schedule + [e])[1..] == schedule[1..] + [e];
      ExecStep(next, next(s, schedule[0]).value, schedule[1..], t, e);
    }
  }

  lemma ReachStep<S, E(!new)>(next: (S, E) -> Option<S>, start: S, s: S, e: E) returns (t: S)
    requires Reaches(next, start, s) && next(s, e).Some?
    ensures Some(t) == next(s, e) && Reaches(next, start, t)
  {
    t := next(s, e).value;
    var schedule :| Exec(next, start, schedule) == Some(s);
    ExecStep(next, start, schedule, s, e);
  }

  lemma ReachSelf<S, E(!new)>(next: (S, E) -> Option<S>, s: S)
    ensures Reaches(next, s, s)
  {
    assert Exec(next, s, []) == Some(s);
  }

  /** The last step of a run is taken from the state that the rest of the run leads to. */
  lemma {:induction false} LastStep<S, E>(next: (S, E) -> Option<S>, s: S, schedule: seq<E>)
    requires schedule != [] && Exec(next, s, schedule).Some?
    ensures
      var before := Exec(next, s, schedule[..|schedule| - 1]);
      before.Some? && Exec(next, s, schedule) == next(before.value, schedule[|schedule| - 1])
  {
    var init := schedule[..|schedule| - 1];
    if init == [] {
      assert schedule[1..] == [];
    } else {
      LastStep(next, next(s, schedule[0]).value, schedule[1..]);
      assert schedule[1..][..|schedule| - 2] == init[1..];
    }
  }

  ghost predicate Decreases<S(!new), E(!new)>(next: (S, E) -> Option<S>, inv: S -> bool, measure: S -> int) {
    forall s, e :: inv(s) && next(s, e).Some? ==> 0 <= measure(next(s, e).value) < measure(s)
  }

  /** A measure that every step lowers bounds the length of every run. */
  lemma {:induction false} RunsAreBounded<S(!new), E(!new)>(
    next: (S, E) -> Option<S>, inv: S -> bool, measure: S -> int, s: S, schedule: seq<E>)
    requires inv(s) && Preserved(next, inv) && Decreases(next, inv, measure) && 0 <= measure(s)
    ensures Exec(next, s, schedule).Some? ==> |schedule| <= measure(s)
  {
    if schedule != [] && next(s, schedule[0]).Some? {
      RunsAreBounded(next, inv, measure, next(s, schedule[0]).value, schedule[1..]);
    }
  }
}

/** Go slices that grow by append. The array is the backing store and its length the capacity. */
module Slices {
  /** make and copy: a new array with the first n elements. */
  method Copy<T(0)>(a: array<T>, n: nat, capacity: nat) returns (b: array<T>)
    requires n <= a.Length && n <= capacity
    ensures fresh(b) && b.Length == capacity && b[..n] == a[..n]
  {
    b := new T[capacity];
    for i := 0 to n
      invariant b[..i] == a[..i]
      invariant unchanged(a)
    {
      b[i] := a[i];
    }
  }

  /** append(a[:n], x): in place while there is room, otherwise in a larger copy. */
  method Append<T(0)>(a: array<T>, n: nat, x: T) returns (b: array<T>)
    requires n <= a.Length
    modifies a
    ensures b == a || fresh(b)
    ensures n < b.Length && b[..n + 1] == old(a[..n]) + [x]
  {
    b := a;
    if n == a.Length {
      b := Copy(a, n, 2 * n + 1);
    }
    b[n] := x;
  }
}
