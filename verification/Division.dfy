/** Whole division. */
module Division {

  lemma DivModUnique(t: int, d: int, q: int, r: int)
    requires 0 <= r < d && t == q * d + r
    ensures t / d == q && t % d == r
  {
    var u := t / d - q;
    assert u * d == r - t % d by {
      assert t == t / d * d + t % d;
      assert u * d == t / d * d - q * d;
    }
    assert u >= 1 ==> u * d >= d;
    assert u <= -1 ==> u * d <= -d;
  }

  lemma Parts(t: int, d: int)
    requires d > 0
    ensures t == t / d * d + t % d && 0 <= t % d < d
  {
  }

  lemma TimesMonotone(a: nat, b: nat, c: nat)
    requires a <= b
    ensures a * c <= b * c
  {
  }

  lemma DivMonotone(x: nat, y: nat, n: nat)
    requires x <= y && n > 0
    ensures x / n <= y / n
  {
    var q := x / n;
    assert q * n <= x <= y < (y / n + 1) * n;
    if y / n + 1 <= q {
      TimesMonotone(y / n + 1, q, n);
    }
  }
}
