/** Remainders of nonnegative numbers, by repeated subtraction, as the ring buffer uses them. */
module Modular {
  import opened Common

  function Rem(x: nat, c: nat): (r: nat)
    requires c > 0
    ensures r < c
  {
    if x < c then x else Rem(x - c, c)
  }

  lemma UniqueRemainder(x: nat, q: nat, r: nat, c: nat)
    requires c > 0 && x == q * c + r && r < c
    ensures x % c == r
  {
    var q', r' := x / c, x % c;
    assert x == q' * c + r';
    if q' < q {
      MulMono(q' + 1, q, c);
    } else if q < q' {
      MulMono(q + 1, q', c);
    }
  }

  lemma {:induction false} RemQuotient(x: nat, c: nat) returns (q: nat)
    requires c > 0
    ensures x == q * c + Rem(x, c)
  {
    if x < c {
      q := 0;
    } else {
      q := RemQuotient(x - c, c);
      q := q + 1;
      MulPred(q, c);
    }
  }

  /** Rem is the remainder operator. */
  lemma RemIsMod(x: nat, c: nat)
    requires c > 0
    ensures x % c == Rem(x, c)
  {
    var q := RemQuotient(x, c);
    UniqueRemainder(x, q, Rem(x, c), c);
  }

  /** Go's i % c for an index that is not negative. */
  method Wrap(i: nat, c: nat) returns (r: nat)
    requires c > 0
    ensures r == Rem(i, c)
  {
    RemIsMod(i, c);
    r := i % c;
  }

  /** A remainder may be taken before adding. */
  lemma {:induction false} RemAdd(x: nat, y: nat, c: nat)
    requires c > 0
    ensures Rem(Rem(x, c) + y, c) == Rem(x + y, c)
  {
    if x >= c {
      RemAdd(x - c, y, c);
    }
  }

  /** Two indices less than c apart never share a slot. */
  lemma {:induction false} DistinctSlots(a: nat, b: nat, c: nat)
    requires c > 0 && a < b < a + c
    ensures Rem(a, c) != Rem(b, c)
  {
    if a >= c {
      DistinctSlots(a - c, b - c, c);
    }
  }

  /** The start index that Snapshot computes is the slot of the oldest stored element. */
  lemma {:induction false} StartIndex(n: nat, count: nat, c: nat)
    requires c > 0 && count <= n && count <= c
    ensures Rem(Rem(n, c) - count + c, c) == Rem(n - count, c)
  {
    if n >= c && n - count >= c {
      StartIndex(n - c, count, c);
    }
  }
}
