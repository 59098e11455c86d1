/** Division, remainder and sequence facts the solver does not find alone. */
module Arith {

  lemma MulMonotone(a: nat, b: nat, c: nat)
    requires a <= b
    ensures a * c <= b * c
  {}

  /** Quotient and remainder are unique. */
  lemma ModUnique(x: nat, d: nat, q: nat, r: nat)
    requires d > 0 && x == d * q + r && r < d
    ensures x % d == r && x / d == q
  {
    var q', r' := x / d, x % d;
    assert x == d * q' + r';
    if q' > q {
      MulMonotone(q + 1, q', d);
    } else if q' < q {
      MulMonotone(q' + 1, q, d);
    }
  }

  lemma ModAddMultiple(r: nat, d: nat, q: nat)
    requires d > 0
    ensures (r + d * q) % d == r % d
  {
    assert r + d * q == d * (r / d + q) + r % d;
    ModUnique(r + d * q, d, r / d + q, r % d);
  }

  lemma Associative<T>(a: seq<T>, b: seq<T>, c: seq<T>)
    ensures a + b + c == a + (b + c)
  {}

  lemma ConsTake<T>(f: T, rest: seq<T>, k: nat)
    requires k <= |rest|
    ensures ([f] + rest)[..k + 1] == [f] + rest[..k]
  {}
}
