/** The few non-linear facts the other modules need. */
module Arithmetic {

  lemma NoMultiple(a: nat, d: nat, m: nat)
    requires 0 < d < m
    ensures (a + d) % m != a % m
  {
    var q, r := a / m, a % m;
    assert a == q * m + r;
    if r + d < m {
      ModIs(a + d, q, r + d, m);
    } else {
      assert a + d == (q + 1) * m + (r + d - m);
      ModIs(a + d, q + 1, r + d - m, m);
    }
  }

  lemma {:induction false} MulGap(a: nat, b: nat, m: nat)
    ensures a < b ==> a * m + m <= b * m
    decreases b
  {
    if a < b {
      MulStep(b - 1, m);
      MulGap(a, b - 1, m);
    }
  }

  lemma MulStep(k: nat, m: nat)
    ensures (k + 1) * m == k * m + m
  {
  }

  lemma DivisionIsUnique(d: nat, e: nat, q: nat, r: nat, m: nat)
    requires d * m + e == q * m + r && e < m && r < m
    ensures d == q && e == r
  {
    MulGap(d, q, m);
    MulGap(q, d, m);
  }

  lemma ModIs(a: nat, q: nat, r: nat, m: nat)
    requires a == q * m + r && r < m
    ensures a % m == r && a / m == q
  {
    var d, e := a / m, a % m;
    assert a == d * m + e;
    DivisionIsUnique(d, e, q, r, m);
  }
}
