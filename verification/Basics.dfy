/** What the parts share: bytes, optional values, powers of two and bit masks on numbers. */
module Basics {

  type byte = x: int | 0 <= x < 256

  datatype Option<+T> = None | Some(value: T)

  function Power2(k: nat): (p: nat)
    ensures p > 0
  {
    if k == 0 then 1 else 2 * Power2(k - 1)
  }

  predicate PowerOfTwo(n: nat) {
    n == 1 || (n > 1 && n % 2 == 0 && PowerOfTwo(n / 2))
  }

  // ----- masks -----

  /** `x & m`, bit by bit. */
  function And(x: nat, m: nat): (r: nat)
    ensures r <= x && r <= m
  {
    if x == 0 then 0 else 2 * And(x / 2, m / 2) + (if x % 2 == 1 && m % 2 == 1 then 1 else 0)
  }

  /** `x & ~m`: the bits of `x` that are not in `m`. */
  function AndNot(x: nat, m: nat): nat { x - And(x, m) }

  lemma {:induction false} PowersGrow(a: nat, b: nat)
    requires a <= b
    ensures Power2(a) <= Power2(b)
    decreases b
  {
    if a < b {
      PowersGrow(a, b - 1);
    }
  }

  /** Bit vectors are combined bit by bit in the same way. */
  lemma AndIsBitwise(x: bv32, m: bv32)
    ensures x & m == (((x >> 1) & (m >> 1)) << 1) | ((x & 1) & (m & 1))
    ensures x & !m == x - (x & m)
  {
  }

  /** Below a power of two the mask that is one less keeps the remainder. */
  lemma {:induction false} AndLowBits(x: nat, k: nat)
    ensures And(x, Power2(k) - 1) == x % Power2(k)
    decreases k
  {
    if k == 0 {
      AndNothing(x);
    } else {
      AndLowBits(x / 2, k - 1);
      WiderMask(x, Power2(k - 1));
    }
  }

  lemma WiderMask(x: nat, p: nat)
    requires p > 0 && And(x / 2, p - 1) == x / 2 % p
    ensures And(x, 2 * p - 1) == x % (2 * p)
  {
    OddMask(p);
    AndStep(x, 2 * p - 1);
    hide And;
    RemainderHalves(x, p);
  }

  lemma AndStep(x: nat, m: nat)
    ensures And(x, m) == 2 * And(x / 2, m / 2) + (if x % 2 == 1 && m % 2 == 1 then 1 else 0)
  {
  }

  lemma OddMask(p: nat)
    requires p > 0
    ensures (2 * p - 1) / 2 == p - 1 && (2 * p - 1) % 2 == 1
  {
  }

  lemma {:induction false} AndNothing(x: nat)
    ensures And(x, 0) == 0
  {
    if x > 0 {
      AndNothing(x / 2);
    }
  }

  lemma {:induction false} AndSelf(x: nat)
    ensures And(x, x) == x
  {
    if x > 0 {
      AndSelf(x / 2);
    }
  }

  lemma RemainderHalves(x: nat, p: nat)
    requires p > 0
    ensures x % (2 * p) == 2 * (x / 2 % p) + x % 2
  {
    var h, b := x / 2, x % 2;
    var q, r := h / p, h % p;
    Product(p, q);
    assert x == (2 * p) * q + (2 * r + b);
    RemainderIs(x, 2 * p, q, 2 * r + b);
  }

  lemma Product(p: nat, q: nat)
    ensures 2 * (p * q) == (2 * p) * q
  {
  }

  lemma RemainderIs(x: nat, d: nat, q: nat, r: nat)
    requires x == d * q + r && r < d
    ensures x % d == r && x / d == q
  {
    assert x == d * (x / d) + x % d;
    OneQuotient(d, q, r, x / d, x % d);
  }

  lemma OneQuotient(d: nat, q: nat, r: nat, k: nat, m: nat)
    requires d * q + r == d * k + m && r < d && m < d
    ensures q == k && r == m
  {
    var x: int := k - q;
    Multiples(d, k, q);
    if x >= 1 {
      AtLeast(d, x);
    } else if x <= -1 {
      AtLeast(d, -x);
    }
  }

  lemma Multiples(d: int, a: int, b: int)
    ensures d * (a - b) == d * a - d * b
  {
  }

  lemma AtLeast(d: int, x: int)
    requires d >= 0 && x >= 1
    ensures d * x >= d && d * -x <= -d
  {
  }

  lemma {:induction false} PowersAreThose(k: nat)
    ensures PowerOfTwo(Power2(k))
  {
    if k > 0 {
      PowersAreThose(k - 1);
      assert Power2(k) / 2 == Power2(k - 1);
    }
  }

  lemma {:induction false} PowerIndex(n: nat) returns (k: nat)
    requires PowerOfTwo(n)
    ensures n == Power2(k)
  {
    if n == 1 {
      k := 0;
    } else {
      k := PowerIndex(n / 2);
      k := k + 1;
    }
  }
}
