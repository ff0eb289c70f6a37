/** Facts about division and remainder by a variable, which the solver needs spelled out. */
module IntegerFacts {

  lemma SmallMultiple(d: int, e: int)
    requires -d < d * e < d
    ensures e == 0
  {
    assert e >= 1 ==> d * e >= d * 1;
    assert e <= -1 ==> d * e <= d * -1;
  }

  lemma QuotientRemainder(n: nat, r: nat, q: nat, d: int)
    requires r < d && n == r + d * q
    ensures n / d == q && n % d == r
  {
    assert d * (n / d - q) == r - n % d;
    SmallMultiple(d, n / d - q);
  }

  lemma AddModulus(value: int, m: int)
    requires 0 < m
    ensures (value + m) % m == value % m
  {
    var e := (value + m) / m - value / m - 1;
    assert m * e == value % m - (value + m) % m;
    SmallMultiple(m, e);
  }

  /** Within one lap, equal residues mean equal numbers. */
  lemma SameResidue(a: nat, b: nat, n: nat)
    requires a < b + n && b < a + n && a % n == b % n
    ensures a == b
  {
    assert n * (b / n - a / n) == b - a;
    SmallMultiple(n, b / n - a / n);
  }

  lemma FullLap(k: nat, n: nat)
    requires 0 < n && k % n == n - 1
    ensures (k + 1) % n == 0
  {
    var q := k / n;
    assert k == n * q + (n - 1);
    assert n * (q + 1) == n * q + n;
    QuotientRemainder(k + 1, 0, q + 1, n);
  }

  /** The residue of a successor is the wrapped successor of the residue. */
  lemma NextResidue(k: nat, n: nat)
    requires 0 < n
    ensures (k % n + 1) % n == (k + 1) % n
  {
    var r := k % n + 1;
    assert k + 1 == r + n * (k / n);
    if r < n {
      QuotientRemainder(k + 1, r, k / n, n);
      QuotientRemainder(r, r, 0, n);
    } else {
      FullLap(k, n);
      QuotientRemainder(n, 0, 1, n);
    }
  }

  /** Wrapped cursors meet when the counters are equal or a whole lap apart. */
  lemma CursorsMeet(ahead: nat, behind: nat, size: nat)
    requires 0 < size && behind <= ahead <= behind + size
    ensures ahead % size == behind % size <==> ahead == behind || ahead == behind + size
  {
    if ahead == behind + size {
      AddModulus(behind, size);
    } else if ahead % size == behind % size {
      SameResidue(ahead, behind, size);
    }
  }
}
