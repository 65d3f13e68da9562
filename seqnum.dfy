/**
 * Sequence-number arithmetic of the sliding-window protocol: numbers live in
 * [0, maxSeq] and wrap around modulo maxSeq + 1 (MAXIMUM_SEQUENCE in the
 * configuration).
 */
module SeqNum {
  import opened Common

  /** A sequence number in the configured space. */
  predicate InRange(maxSeq: nat, i: int) {
    0 <= i <= maxSeq
  }

  /** `_next`: the sequence number that follows `i`. */
  function Next(maxSeq: nat, i: int): (r: int)
    ensures InRange(maxSeq, r)
    ensures 0 <= i < maxSeq ==> r == i + 1
    ensures i == maxSeq ==> r == 0
  {
    (i + 1) % (maxSeq + 1)
  }

  /** `_delta`: forward distance from `i` to `j` around the sequence space; never negative. */
  function Delta(maxSeq: nat, i: int, j: int): (r: int)
    ensures InRange(maxSeq, r)
  {
    (j - i + maxSeq + 1) % (maxSeq + 1)
  }

  /** The number `k` steps after `i`. */
  function Advance(maxSeq: nat, i: int, k: nat): (r: int)
    ensures InRange(maxSeq, r)
  {
    (i + k) % (maxSeq + 1)
  }

  /** Forward distance spelled out without the modulus, for numbers in range. */
  lemma DeltaCases(maxSeq: nat, i: int, j: int)
    requires InRange(maxSeq, i) && InRange(maxSeq, j)
    ensures Delta(maxSeq, i, j) == if i <= j then j - i else j - i + maxSeq + 1
  {
    var m := maxSeq + 1;
    if i <= j {
      ModUnique(j - i + m, m, 1, j - i);
    } else {
      ModUnique(j - i + m, m, 0, j - i + m);
    }
  }

  /** The documented examples: `_delta(i, i) == 0`, `_delta(MAX, 0) == 1`, `_delta(5, 4) == MAX`. */
  lemma DeltaExamples(maxSeq: nat, i: int)
    requires InRange(maxSeq, i)
    ensures Delta(maxSeq, i, i) == 0
    ensures maxSeq >= 1 ==> Delta(maxSeq, maxSeq, 0) == 1
    ensures maxSeq >= 5 ==> Delta(maxSeq, 5, 4) == maxSeq
  {
    DeltaCases(maxSeq, i, i);
    if maxSeq >= 1 {
      DeltaCases(maxSeq, maxSeq, 0);
    }
    if maxSeq >= 5 {
      DeltaCases(maxSeq, 5, 4);
    }
  }

  /** One step forward is distance one (when the space has at least two numbers). */
  lemma DeltaToNext(maxSeq: nat, i: int)
    requires InRange(maxSeq, i) && maxSeq >= 1
    ensures Delta(maxSeq, i, Next(maxSeq, i)) == 1
  {
    DeltaCases(maxSeq, i, Next(maxSeq, i));
  }

  /** Moving the left edge one step forward shortens every non-zero distance by one. */
  lemma DeltaFromNext(maxSeq: nat, i: int, j: int)
    requires InRange(maxSeq, i) && InRange(maxSeq, j)
    requires Delta(maxSeq, i, j) >= 1
    ensures Delta(maxSeq, Next(maxSeq, i), j) == Delta(maxSeq, i, j) - 1
  {
    DeltaCases(maxSeq, i, j);
    DeltaCases(maxSeq, Next(maxSeq, i), j);
  }

  /** Moving the right edge one step forward lengthens a distance by one, unless it wraps to zero. */
  lemma DeltaToNextOf(maxSeq: nat, i: int, j: int)
    requires InRange(maxSeq, i) && InRange(maxSeq, j)
    ensures Delta(maxSeq, i, j) < maxSeq ==> Delta(maxSeq, i, Next(maxSeq, j)) == Delta(maxSeq, i, j) + 1
    ensures Delta(maxSeq, i, j) == maxSeq ==> Next(maxSeq, j) == i
  {
    DeltaCases(maxSeq, i, j);
    DeltaCases(maxSeq, i, Next(maxSeq, j));
  }

  /** Distances from a fixed number tell numbers apart. */
  lemma DeltaInjective(maxSeq: nat, i: int, j: int, k: int)
    requires InRange(maxSeq, i) && InRange(maxSeq, j) && InRange(maxSeq, k)
    requires Delta(maxSeq, i, j) == Delta(maxSeq, i, k)
    ensures j == k
  {
    DeltaCases(maxSeq, i, j);
    DeltaCases(maxSeq, i, k);
  }

  /** `Advance` by `k` is the number at distance `k`. */
  lemma DeltaAdvance(maxSeq: nat, i: int, k: nat)
    requires InRange(maxSeq, i) && k <= maxSeq
    ensures Delta(maxSeq, i, Advance(maxSeq, i, k)) == k
  {
    var m := maxSeq + 1;
    if i + k < m {
      ModUnique(i + k, m, 0, i + k);
    } else {
      ModUnique(i + k, m, 1, i + k - m);
    }
    DeltaCases(maxSeq, i, Advance(maxSeq, i, k));
  }

  /** Advancing by one more is one more `_next`. */
  lemma AdvanceSucc(maxSeq: nat, i: int, k: nat)
    ensures Advance(maxSeq, i, k + 1) == Next(maxSeq, Advance(maxSeq, i, k))
  {
    var m := maxSeq + 1;
    var q, r := (i + k) / m, Advance(maxSeq, i, k);
    if r + 1 < m {
      ModUnique(i + k + 1, m, q, r + 1);
    } else {
      ModUnique(i + k + 1, m, q + 1, 0);
    }
  }

  /** A number that is `d` steps ahead is reached after exactly `d` `_next`s. */
  lemma AdvanceDelta(maxSeq: nat, i: int, j: int)
    requires InRange(maxSeq, i) && InRange(maxSeq, j)
    ensures Advance(maxSeq, i, Delta(maxSeq, i, j)) == j
  {
    DeltaCases(maxSeq, i, j);
    if i <= j {
      ModUnique(j, maxSeq + 1, 0, j);
    } else {
      ModUnique(j + maxSeq + 1, maxSeq + 1, 1, j);
    }
  }

  /** Distances add up along the way round, as long as the sum does not wrap. */
  lemma DeltaAdd(maxSeq: nat, i: int, j: int, k: int)
    requires InRange(maxSeq, i) && InRange(maxSeq, j) && InRange(maxSeq, k)
    requires Delta(maxSeq, i, j) + Delta(maxSeq, j, k) <= maxSeq
    ensures Delta(maxSeq, i, k) == Delta(maxSeq, i, j) + Delta(maxSeq, j, k)
  {
    DeltaCases(maxSeq, i, j);
    DeltaCases(maxSeq, j, k);
    DeltaCases(maxSeq, i, k);
  }

  /** A point `j` no further from `i` than `k` splits the distance from `i` to `k`. */
  lemma DeltaSub(maxSeq: nat, i: int, j: int, k: int)
    requires InRange(maxSeq, i) && InRange(maxSeq, j) && InRange(maxSeq, k)
    requires Delta(maxSeq, i, j) <= Delta(maxSeq, i, k)
    ensures Delta(maxSeq, j, k) == Delta(maxSeq, i, k) - Delta(maxSeq, i, j)
  {
    DeltaCases(maxSeq, i, j);
    DeltaCases(maxSeq, j, k);
    DeltaCases(maxSeq, i, k);
  }

  /** The numbers 1 to `n` steps after `i`. */
  function Span(maxSeq: nat, i: int, n: nat): (s: set<int>)
    ensures forall k :: 1 <= k <= n ==> Advance(maxSeq, i, k) in s
    ensures forall x :: x in s ==> InRange(maxSeq, x)
  {
    set k | 1 <= k <= n :: Advance(maxSeq, i, k)
  }

  /** Advancing twice is advancing by the sum. */
  lemma AdvanceAdd(maxSeq: nat, i: int, a: nat, b: nat)
    ensures Advance(maxSeq, Advance(maxSeq, i, a), b) == Advance(maxSeq, i, a + b)
  {
    var m := maxSeq + 1;
    var x := i + a;
    var q, r := x / m, x % m;
    var q2, r2 := (r + b) / m, (r + b) % m;
    assert x == q * m + r && 0 <= r < m;
    assert r + b == q2 * m + r2 && 0 <= r2 < m;
    assert x + b == (q + q2) * m + r2 by {
      assert (q + q2) * m == q * m + q2 * m;
    }
    ModUnique(x + b, m, q + q2, r2);
  }

  /** A whole turn of the sequence space comes back to the start. */
  lemma AdvanceFullTurn(maxSeq: nat, i: int)
    requires InRange(maxSeq, i)
    ensures Advance(maxSeq, i, maxSeq + 1) == i
  {
    ModUnique(i + maxSeq + 1, maxSeq + 1, 1, i);
  }

  /** The span one step longer also holds the next number. */
  lemma SpanSucc(maxSeq: nat, i: int, n: nat)
    ensures Span(maxSeq, i, n + 1) == Span(maxSeq, i, n) + {Advance(maxSeq, i, n + 1)}
  {
  }

  /** The span from `i` is the first number after `i` followed by the span from there. */
  lemma {:induction false} SpanFromNext(maxSeq: nat, i: int, n: nat)
    ensures Span(maxSeq, i, n + 1) == {Next(maxSeq, i)} + Span(maxSeq, Next(maxSeq, i), n)
  {
    forall k | 1 <= k <= n
      ensures Advance(maxSeq, Next(maxSeq, i), k) == Advance(maxSeq, i, k + 1)
    {
      AdvanceAdd(maxSeq, i, 1, k);
    }
    forall x | x in Span(maxSeq, i, n + 1)
      ensures x in {Next(maxSeq, i)} + Span(maxSeq, Next(maxSeq, i), n)
    {
      var k :| 1 <= k <= n + 1 && x == Advance(maxSeq, i, k);
      if k > 1 {
        assert x == Advance(maxSeq, Next(maxSeq, i), k - 1);
      }
    }
    assert Next(maxSeq, i) == Advance(maxSeq, i, 1);
    forall x | x in Span(maxSeq, Next(maxSeq, i), n)
      ensures x in Span(maxSeq, i, n + 1)
    {
      var k :| 1 <= k <= n && x == Advance(maxSeq, Next(maxSeq, i), k);
      assert x == Advance(maxSeq, i, k + 1);
    }
  }
}
