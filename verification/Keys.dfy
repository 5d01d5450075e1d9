/** The "%d:%s" keys of the alert package (window_dispatcher.go:36, throttle.go:49, digest.go:56,
    batch.go:90, correlate.go:48) and the independence they give to per-key state. */
module Keys {
  import opened Common

  function Digit(d: nat): char
    requires d < 10
  {
    ('0' as int + d) as char
  }

  function DigitValue(c: char): int {
    c as int - '0' as int
  }

  function Digits(n: nat): string {
    (if n < 10 then [] else Digits(n / 10)) + [Digit(n % 10)]
  }

  /** What "%d" prints. */
  function Decimal(n: int): string {
    if n < 0 then "-" + Digits(-n) else Digits(n)
  }

  function Key(port: int, state: string): string {
    Decimal(port) + ":" + state
  }

  function DigitsValue(s: string): int {
    if s == [] then 0 else 10 * DigitsValue(s[..|s| - 1]) + DigitValue(s[|s| - 1])
  }

  function DecimalValue(s: string): int {
    if s != [] && s[0] == '-' then -DigitsValue(s[1..]) else DigitsValue(s)
  }

  function BeforeColon(s: string): string {
    if s == [] || s[0] == ':' then [] else [s[0]] + BeforeColon(s[1..])
  }

  /** Reads a key back: the number before the first colon, and all that follows it. */
  function Parse(key: string): Option<(int, string)> {
    var head := BeforeColon(key);
    if |head| < |key| then Some((DecimalValue(head), key[|head| + 1..])) else None
  }

  lemma DigitsSnoc(s: string, d: nat)
    requires d < 10
    ensures DigitsValue(s + [Digit(d)]) == 10 * DigitsValue(s) + d
  {
    assert (s + [Digit(d)])[..|s|] == s;
    assert DigitValue(Digit(d)) == d;
  }

  lemma {:induction false} DigitsRoundTrip(n: nat)
    ensures DigitsValue(Digits(n)) == n
  {
    if n < 10 {
      DigitsSnoc([], n);
      assert [] + [Digit(n)] == [Digit(n)];
    } else {
      DigitsRoundTrip(n / 10);
      DigitsSnoc(Digits(n / 10), n % 10);
    }
  }

  lemma {:induction false} DigitsAreDigits(n: nat)
    ensures Digits(n) != [] && forall c :: c in Digits(n) ==> '0' <= c <= '9'
  {
    if n >= 10 {
      DigitsAreDigits(n / 10);
    }
  }

  lemma {:induction false} BeforeColonConcat(head: string, rest: string)
    requires ':' !in head
    ensures |BeforeColon(head + ":" + rest)| == |head| && BeforeColon(head + ":" + rest) == head
  {
    var s := head + ":" + rest;
    if head == [] {
      assert s[0] == ':';
    } else {
      assert s[0] == head[0] && head[0] in head;
      assert s[1..] == head[1..] + ":" + rest;
      BeforeColonConcat(head[1..], rest);
    }
  }

  lemma DecimalRoundTrip(n: int)
    ensures DecimalValue(Decimal(n)) == n && ':' !in Decimal(n)
  {
    var m: nat := if n < 0 then -n else n;
    DigitsRoundTrip(m);
    DigitsAreDigits(m);
    assert Digits(m)[0] in Digits(m) && ':' !in Digits(m);
    assert n < 0 ==> Decimal(n)[1..] == Digits(m);
  }

  /** Printing a key and splitting it at its first colon is a round trip, for every integer and every
      string, colons included. */
  lemma KeyRoundTrip(port: int, state: string)
    ensures Parse(Key(port, state)) == Some((port, state))
  {
    var head := Decimal(port);
    DecimalRoundTrip(port);
    BeforeColonConcat(head, state);
    assert (head + ":" + state)[|head| + 1..] == state;
  }

  /** Different (port, state) pairs never share a key. */
  lemma KeyInjective(port: int, state: string, port': int, state': string)
    requires Key(port, state) == Key(port', state')
    ensures port == port' && state == state'
  {
    KeyRoundTrip(port, state);
    KeyRoundTrip(port', state');
  }
}

/** A table that gives each key its own state. A gate maps the state of one key (None when the table
    has no entry) and a call to the new state and the answer. */
module Keyed {
  import opened Common

  function Apply<K, S, E, R>(gate: (Option<S>, E) -> (Option<S>, R), table: map<K, S>, k: K, e: E): (map<K, S>, R) {
    var (s, r) := gate(Get(table, k), e);
    (if s.Some? then table[k := s.value] else table - {k}, r)
  }

  function Run<K, S, E, R>(gate: (Option<S>, E) -> (Option<S>, R), table: map<K, S>, calls: seq<(K, E)>)
    : (result: (map<K, S>, seq<R>))
    ensures |result.1| == |calls|
    decreases |calls|
  {
    if calls == [] then (table, [])
    else
      var (t, r) := Apply(gate, table, calls[0].0, calls[0].1);
      var (t', rs) := Run(gate, t, calls[1..]);
      (t', [r] + rs)
  }

  /** The gate of a single key. */
  function RunOne<S, E, R>(gate: (Option<S>, E) -> (Option<S>, R), s: Option<S>, es: seq<E>)
    : (result: (Option<S>, seq<R>))
    ensures |result.1| == |es|
    decreases |es|
  {
    if es == [] then (s, [])
    else
      var (s', r) := gate(s, es[0]);
      var (s'', rs) := RunOne(gate, s', es[1..]);
      (s'', [r] + rs)
  }

  /** The i-th answer of a run is the gate's answer to the i-th call in the state that the calls before it
      lead to. */
  lemma {:induction false} RunAt<S, E, R>(
    gate: (Option<S>, E) -> (Option<S>, R), s: Option<S>, es: seq<E>, i: nat)
    requires i < |es|
    ensures
      var (t, before) := RunOne(gate, s, es[..i]);
      && RunOne(gate, s, es).1[..i] == before && RunOne(gate, s, es).1[i] == gate(t, es[i]).1
      && RunOne(gate, s, es[..i + 1]) == (gate(t, es[i]).0, before + [gate(t, es[i]).1])
    decreases i
  {
    var (s', r) := gate(s, es[0]);
    if i == 0 {
      assert es[..1][0] == es[0] && es[..1][1..] == [] && es[..0] == [];
      assert RunOne(gate, s', es[..1][1..]) == (s', []);
      assert RunOne(gate, s, es[..0]) == (s, []) && [r] + [] == [r] == [] + [r];
      assert RunOne(gate, s, es[..1]) == (s', [r]);
    } else {
      RunAt(gate, s', es[1..], i - 1);
      assert es[..i][1..] == es[1..][..i - 1] && es[..i + 1][1..] == es[1..][..i];
      assert es[..i][0] == es[0] == es[..i + 1][0];
      var (t, before) := RunOne(gate, s', es[1..][..i - 1]);
      assert [r] + (before + [gate(t, es[i]).1]) == ([r] + before) + [gate(t, es[i]).1];
    }
  }

  lemma RunPrefix<S, E, R>(gate: (Option<S>, E) -> (Option<S>, R), s: Option<S>, es: seq<E>, k: nat)
    requires k <= |es|
    ensures RunOne(gate, s, es).1[..k] == RunOne(gate, s, es[..k]).1
  {
    if k < |es| {
      RunAt(gate, s, es, k);
    } else {
      assert es[..k] == es;
    }
  }

  /** Two gates that start in related states and keep them related, answering alike, answer alike over
      every run. The relation may speak of the calls still to come. */
  lemma {:induction false} Lockstep<S, T, E, R>(
    g: (Option<S>, E) -> (Option<S>, R), h: (Option<T>, E) -> (Option<T>, R),
    related: (Option<S>, Option<T>, seq<E>) -> bool, s: Option<S>, t: Option<T>, es: seq<E>)
    requires related(s, t, es)
    requires forall s, t, es: seq<E> | es != [] && related(s, t, es) ::
               g(s, es[0]).1 == h(t, es[0]).1 && related(g(s, es[0]).0, h(t, es[0]).0, es[1..])
    ensures RunOne(g, s, es).1 == RunOne(h, t, es).1
    ensures related(RunOne(g, s, es).0, RunOne(h, t, es).0, [])
    decreases |es|
  {
    if es != [] {
      Lockstep(g, h, related, g(s, es[0]).0, h(t, es[0]).0, es[1..]);
    }
  }

  /** What belongs to key k among values tagged with keys. */
  function OfKey<K(==), E, V>(calls: seq<(K, E)>, values: seq<V>, k: K): seq<V>
    requires |values| == |calls|
  {
    if calls == [] then []
    else (if calls[0].0 == k then [values[0]] else []) + OfKey(calls[1..], values[1..], k)
  }

  function Payloads<K, E>(calls: seq<(K, E)>): seq<E> {
    seq(|calls|, i requires 0 <= i < |calls| => calls[i].1)
  }

  /** Per-key independence: in any interleaving of calls on any keys, key k sees the run that its own
      calls make alone. */
  lemma {:induction false} PerKey<K, S, E, R>(
    gate: (Option<S>, E) -> (Option<S>, R), table: map<K, S>, calls: seq<(K, E)>, k: K)
    ensures
      var (t, rs) := Run(gate, table, calls);
      var (s, own) := RunOne(gate, Get(table, k), OfKey(calls, Payloads(calls), k));
      Get(t, k) == s && OfKey(calls, rs, k) == own
    decreases |calls|
  {
    if calls != [] {
      var (t, r) := Apply(gate, table, calls[0].0, calls[0].1);
      PerKey(gate, t, calls[1..], k);
      assert Payloads(calls)[1..] == Payloads(calls[1..]);
      var es := OfKey(calls, Payloads(calls), k);
      var rest := OfKey(calls[1..], Payloads(calls[1..]), k);
      var rs := Run(gate, table, calls).1;
      assert rs[0] == r && rs[1..] == Run(gate, t, calls[1..]).1;
      if calls[0].0 == k {
        assert es == [calls[0].1] + rest;
        assert es[0] == calls[0].1 && es[1..] == rest;
        assert gate(Get(table, k), es[0]) == (Get(t, k), r);
        assert RunOne(gate, Get(table, k), es) ==
               (RunOne(gate, Get(t, k), rest).0, [r] + RunOne(gate, Get(t, k), rest).1);
      } else {
        assert Get(t, k) == Get(table, k) && es == rest;
      }
    }
  }
}
