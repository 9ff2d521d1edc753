/** Multiplication, quotient and remainder by a symbolic block size. They are *, / and % (the last
    three lemmas), defined so that the proofs above them stay within linear arithmetic. */
module SymbolicArith {

  function Min(a: int, b: int): int { if a < b then a else b }
  function Max(a: int, b: int): int { if a < b then b else a }

  function Times(k: nat, d: nat): nat {
    if k == 0 then 0 else Times(k - 1, d) + d
  }

  predicate InInterval(x: nat, d: nat, q: nat) {
    Times(q, d) <= x < Times(q, d) + d
  }

  /** The number of the interval [q * d, (q + 1) * d) that holds x. */
  function Quot(x: nat, d: nat): nat
    requires d > 0
  {
    IntervalExists(x, d);
    IntervalUnique(x, d);
    var q: nat :| InInterval(x, d, q);
    q
  }

  function Rem(x: nat, d: nat): (r: nat)
    requires d > 0
    ensures r < d
  {
    x - Times(Quot(x, d), d)
  }

  lemma {:induction false} TimesMono(a: nat, b: nat, d: nat)
    requires a <= b
    ensures Times(a, d) <= Times(b, d)
    ensures a < b ==> Times(a, d) + d <= Times(b, d)
    decreases b - a
  {
    if a < b {
      TimesMono(a, b - 1, d);
    }
  }

  lemma {:induction false} TimesAdd(a: nat, b: nat, d: nat)
    ensures Times(a + b, d) == Times(a, d) + Times(b, d)
  {
    if b > 0 {
      TimesAdd(a, b - 1, d);
      assert Times(a + b, d) == Times(a + b - 1, d) + d;
    }
  }

  lemma {:induction false} TimesSplit(k: nat, a: nat, b: nat)
    ensures Times(k, a + b) == Times(k, a) + Times(k, b)
  {
    if k > 0 {
      TimesSplit(k - 1, a, b);
    }
  }

  lemma {:induction false} IntervalExists(x: nat, d: nat)
    requires d > 0
    ensures exists q: nat :: InInterval(x, d, q)
  {
    if x < d {
      assert InInterval(x, d, 0);
    } else {
      IntervalExists(x - d, d);
      var q: nat :| InInterval(x - d, d, q);
      assert InInterval(x, d, q + 1);
    }
  }

  lemma IntervalUnique(x: nat, d: nat)
    ensures forall q: nat, r: nat :: InInterval(x, d, q) && InInterval(x, d, r) ==> q == r
  {
    forall q: nat, r: nat | InInterval(x, d, q) && InInterval(x, d, r)
      ensures q == r
    {
      if q < r {
        TimesMono(q, r, d);
      } else if r < q {
        TimesMono(r, q, d);
      }
    }
  }

  lemma QuotFacts(x: nat, d: nat)
    requires d > 0
    ensures Times(Quot(x, d), d) <= x < Times(Quot(x, d), d) + d
    ensures x == Times(Quot(x, d), d) + Rem(x, d)
  {
  }

  lemma QuotUnique(x: nat, d: nat, q: nat)
    requires d > 0
    requires Times(q, d) <= x < Times(q, d) + d
    ensures Quot(x, d) == q
    ensures Rem(x, d) == x - Times(q, d)
  {
    IntervalUnique(x, d);
    assert InInterval(x, d, q) && InInterval(x, d, Quot(x, d));
  }

  lemma QuotMono(x: nat, y: nat, d: nat)
    requires d > 0 && x <= y
    ensures Quot(x, d) <= Quot(y, d)
  {
    if Quot(y, d) < Quot(x, d) {
      TimesMono(Quot(y, d), Quot(x, d), d);
    }
  }

  lemma {:induction false} TimesIsMul(k: nat, d: nat)
    ensures Times(k, d) == k * d
  {
    if k > 0 {
      TimesIsMul(k - 1, d);
    }
  }

  lemma QuotIsDiv(x: nat, d: nat)
    requires d > 0
    ensures Quot(x, d) == x / d
  {
    TimesIsMul(x / d, d);
    QuotUnique(x, d, x / d);
  }

  lemma RemIsMod(x: nat, d: nat)
    requires d > 0
    ensures Rem(x, d) == x % d
  {
    QuotIsDiv(x, d);
    TimesIsMul(x / d, d);
  }
}
