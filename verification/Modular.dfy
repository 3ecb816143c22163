/** Facts about % that the ring's slot arithmetic needs. */
module Modular {

  lemma SmallMultiple(k: int, c: int)
    requires 0 < c
    requires -c < k * c < c
    ensures k == 0
  {
  }

  lemma Unique(a: int, q: int, r: int, c: nat)
    requires 0 <= r < c && a == q * c + r
    ensures a % c == r
  {
    var q', r' := a / c, a % c;
    assert a == c * q' + r';
    assert (q - q') * c == r' - r;
    SmallMultiple(q - q', c);
  }

  lemma Lap(t: int, c: nat)
    requires c > 0
    ensures (t + c) % c == t % c
  {
    var q, r := t / c, t % c;
    assert (q + 1) * c == q * c + c;
    Unique(t + c, q + 1, r, c);
  }

  /** Two of any c consecutive integers have different remainders. */
  lemma Distinct(a: int, b: int, c: nat)
    requires c > 0 && a < b < a + c
    ensures a % c != b % c
  {
    if a % c == b % c {
      var p, q := a / c, b / c;
      assert b - a == (q - p) * c;
      SmallMultiple(q - p, c);
    }
  }
}
