/** Positions that count on without end, and their place in a ring of n. */
module Rings {
  function Slot(i: nat, n: nat): (s: nat)
    requires n > 0
    ensures s < n
  {
    i % n
  }

  lemma RemainderIs(x: nat, n: nat, q: nat, r: nat)
    requires r < n && x == n * q + r
    ensures x % n == r
  {
    var d := q - x / n;
    assert n * d == x % n - r;
    assert d >= 1 ==> n * d >= n;
    assert d <= -1 ==> n * d + n <= 0;
  }

  lemma SlotsDiffer(i: nat, j: nat, n: nat)
    requires i < j < i + n
    ensures Slot(i, n) != Slot(j, n)
  {
    var q := j / n - i / n;
    assert j - i == n * q + (j % n - i % n);
    assert q <= 0 ==> n * q <= 0;
    assert q >= 1 ==> n * q >= n;
  }

  lemma SlotAfter(i: nat, n: nat)
    requires 0 < n
    ensures (Slot(i, n) + 1) % n == Slot(i + 1, n)
  {
    var q, r := i / n, i % n;
    if r + 1 == n {
      NextTurn(i, n, q, r);
      RemainderIs(i + 1, n, q + 1, 0);
      RemainderIs(n, n, 1, 0);
    } else {
      RemainderIs(i + 1, n, q, r + 1);
      RemainderIs(r + 1, n, 0, r + 1);
    }
  }

  lemma SlotNextTurn(i: nat, n: nat)
    requires n > 0
    ensures Slot(i + n, n) == Slot(i, n)
  {
    assert i == n * (i / n) + i % n;
    assert n * (i / n + 1) == n * (i / n) + n;
    RemainderIs(i + n, n, i / n + 1, i % n);
  }

  lemma NextTurn(i: nat, n: nat, q: nat, r: nat)
    requires i == n * q + r && r + 1 == n
    ensures i + 1 == n * (q + 1) + 0
  {
  }

  /** Every place of the ring comes up within one turn. */
  lemma SlotReached(p: nat, n: nat, i: nat) returns (q: nat)
    requires i < n
    ensures p <= q < p + n && Slot(q, n) == i
  {
    var turn, r := p / n, p % n;
    if i >= r {
      q := p + (i - r);
      RemainderIs(q, n, turn, i);
    } else {
      q := p + n - r + i;
      assert n * (turn + 1) == n * turn + n;
      RemainderIs(q, n, turn + 1, i);
    }
  }
}
