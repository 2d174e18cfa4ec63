/** Unsigned division, with the laws the block and page arithmetic relies on. */
module Division {
  function Quot(x: nat, d: nat): nat
    requires d > 0
  {
    x / d
  }

  function Rem(x: nat, d: nat): (r: nat)
    requires d > 0
    ensures r < d
  {
    x % d
  }

  lemma Split(x: nat, d: nat)
    requires d > 0
    ensures x == Quot(x, d) * d + Rem(x, d)
  {
  }

  /** A number has one quotient and one remainder. */
  lemma Unique(d: nat, q: nat, r: nat, q': nat, r': nat)
    requires r < d && r' < d && q * d + r == q' * d + r'
    ensures q == q' && r == r'
  {
    if q < q' {
      MulMonotone(q + 1, q', d);
    } else if q' < q {
      MulMonotone(q' + 1, q, d);
    }
  }

  /** The parts of a sum q * d + r with r < d. */
  lemma Parts(d: nat, q: nat, r: nat)
    requires r < d
    ensures q * d >= 0 && Quot(q * d + r, d) == q && Rem(q * d + r, d) == r
  {
    assert q * d >= 0;
    Split(q * d + r, d);
    Unique(d, q, r, Quot(q * d + r, d), Rem(q * d + r, d));
  }

  lemma PartsOf(x: nat, d: nat, q: nat, r: nat)
    requires r < d && x == q * d + r
    ensures Quot(x, d) == q && Rem(x, d) == r
  {
    Parts(d, q, r);
  }

  lemma QuotBelow(x: nat, d: nat, n: nat)
    requires d > 0 && x < n * d
    ensures Quot(x, d) < n
  {
    Split(x, d);
    if Quot(x, d) >= n { MulMonotone(n, Quot(x, d), d); }
  }

  lemma Distribute(a: int, b: int, d: int)
    ensures (a + b) * d == a * d + b * d
  {
  }

  lemma Regroup(t: int, h: int, s: int)
    ensures t * (s * h) == (t * h) * s
  {
  }

  lemma Shifted(n: nat, i: nat, d: nat)
    requires d > 0
    ensures n * d + i >= 0 && Quot(n * d + i, d) == n + Quot(i, d) && Rem(n * d + i, d) == Rem(i, d)
  {
    Split(i, d);
    Distribute(n, Quot(i, d), d);
    Parts(d, n + Quot(i, d), Rem(i, d));
  }

  lemma RowFits(h: nat, s: nat, sect: nat, head: nat)
    requires h < head && s < sect
    ensures h * sect + s < sect * head
  {
    MulMonotone(h + 1, head, sect);
    Distribute(h, 1, sect);
  }

  lemma MulMonotone(a: nat, b: nat, d: nat)
    requires a <= b
    ensures a * d <= b * d
  {
    assert b * d == a * d + (b - a) * d;
  }

  lemma RemOfMultiple(x: nat, k: nat, d: nat)
    requires d > 0 && k * d > 0
    ensures Rem(Rem(x, k * d), d) == Rem(x, d)
  {
    var q, rest := Quot(x, k * d), Rem(x, k * d);
    Split(x, k * d);
    Split(rest, d);
    Regroup(q, k, d);
    Distribute(q * k, Quot(rest, d), d);
    PartsOf(x, d, q * k + Quot(rest, d), Rem(rest, d));
  }
}
