/**
 * The big-integer helpers the close-factor attack relies on: `pow(2, k, n)`,
 * `isqrt` and `invmod`. The library that implements `isqrt` and `invmod` is
 * not part of this model; each is given here by its contract, with a simple
 * body that meets it. Python's `%` with a positive modulus and `//` by a
 * positive divisor round toward minus infinity, which is what Dafny's
 * Euclidean `%` and `/` do for a positive divisor, so they are written as is.
 */
module Utils {
  import opened Wrappers

  /** x to the power k; `pow(2, k, n)` in the source is `Pow(2, k) % n`. */
  function Pow(x: int, k: nat): int
  {
    if k == 0 then 1 else x * Pow(x, k - 1)
  }

  lemma {:induction false} PowAdd(x: int, a: nat, b: nat)
    ensures Pow(x, a + b) == Pow(x, a) * Pow(x, b)
    decreases a
  {
    if a > 0 {
      PowAdd(x, a - 1, b);
      assert Pow(x, a + b) == x * Pow(x, a - 1 + b);
    }
  }

  /** PowAdd with the exponent sum named, for callers whose sum is written another way. */
  lemma PowSplit(x: int, a: nat, b: nat, c: nat)
    requires c == a + b
    ensures Pow(x, c) == Pow(x, a) * Pow(x, b)
  {
    PowAdd(x, a, b);
  }

  lemma {:induction false} PowMul(x: int, a: nat, k: nat)
    ensures Pow(Pow(x, a), k) == Pow(x, a * k)
    decreases k
  {
    if k > 0 {
      PowMul(x, a, k - 1);
      PowAdd(x, a, a * (k - 1));
      assert a + a * (k - 1) == a * k;
    }
  }

  lemma MulAssoc(a: int, b: int, c: int)
    ensures (a * b) * c == a * (b * c)
  {
  }

  lemma MulComm(a: int, b: int)
    ensures a * b == b * a
  {
  }

  // ---------------------------------------------------------------------
  // Modular arithmetic
  // ---------------------------------------------------------------------

  /** Quotient and remainder are unique: x % n is the r in x == q*n + r, 0 <= r < n. */
  lemma ModUnique(x: int, n: int, q: int, r: int)
    requires n > 0 && 0 <= r < n && x == q * n + r
    ensures x % n == r && x / n == q
  {
    var q', r' := x / n, x % n;
    assert x == q' * n + r';
    var d := q - q';
    assert d * n == r' - r;
    if d > 0 {
      MulAtLeast(d, n);
    } else if d < 0 {
      MulAtLeast(-d, n);
    }
  }

  lemma MulAtLeast(d: int, n: int)
    requires d >= 1 && n > 0
    ensures d * n >= n
  {
    assert d * n == n + (d - 1) * n;
  }

  lemma ModAddMultiple(k: int, c: int, n: int)
    requires n > 0
    ensures (k * n + c) % n == c % n
  {
    var q, r := c / n, c % n;
    assert k * n + c == (k + q) * n + r;
    ModUnique(k * n + c, n, k + q, r);
  }

  /** Reducing the left factor modulo n does not change a product modulo n. */
  lemma ModMulLeft(a: int, b: int, n: int)
    requires n > 0
    ensures (a * b) % n == ((a % n) * b) % n
  {
    var q, r := a / n, a % n;
    assert a * b == (q * b) * n + r * b;
    ModAddMultiple(q * b, r * b, n);
  }

  lemma ModMulRight(a: int, b: int, n: int)
    requires n > 0
    ensures (a * b) % n == (a * (b % n)) % n
  {
    ModMulLeft(b, a, n);
  }

  lemma {:induction false} PowMod(x: int, k: nat, n: int)
    requires n > 0
    ensures Pow(x % n, k) % n == Pow(x, k) % n
    decreases k
  {
    if k > 0 {
      calc {
        Pow(x % n, k) % n;
        ((x % n) * Pow(x % n, k - 1)) % n;
        { ModMulRight(x % n, Pow(x % n, k - 1), n); }
        ((x % n) * (Pow(x % n, k - 1) % n)) % n;
        { PowMod(x, k - 1, n); }
        ((x % n) * (Pow(x, k - 1) % n)) % n;
        { ModMulRight(x % n, Pow(x, k - 1), n); }
        ((x % n) * Pow(x, k - 1)) % n;
        { ModMulLeft(x, Pow(x, k - 1), n); }
        (x * Pow(x, k - 1)) % n;
      }
    }
  }

  // ---------------------------------------------------------------------
  // isqrt
  // ---------------------------------------------------------------------

  /** Floor square root: the r with r*r <= x < (r+1)*(r+1). */
  function Isqrt(x: nat): (r: nat)
    ensures r * r <= x < (r + 1) * (r + 1)
  {
    if x < 4 then
      (if x == 0 then 0 else 1)
    else
      var h := 2 * Isqrt(x / 4);
      IsqrtStep(x, Isqrt(x / 4));
      if (h + 1) * (h + 1) <= x then h + 1 else h
  }

  /** From the root of x / 4, doubling brackets the root of x within one. */
  lemma IsqrtStep(x: nat, s: nat)
    requires s * s <= x / 4 < (s + 1) * (s + 1)
    ensures (2 * s) * (2 * s) <= x < (2 * s + 2) * (2 * s + 2)
  {
    var y := x / 4;
    assert x == 4 * y + x % 4;
    assert (2 * s) * (2 * s) == 4 * (s * s);
    assert (2 * s + 2) * (2 * s + 2) == 4 * ((s + 1) * (s + 1));
    assert y + 1 <= (s + 1) * (s + 1);
  }

  lemma SquareMonotone(a: nat, b: nat)
    requires a <= b
    ensures a * a <= b * b
  {
    assert a * a <= a * b <= b * b;
  }

  /** The floor square root is the only r with r*r <= x < (r+1)*(r+1). */
  lemma IsqrtUnique(x: nat, s: nat)
    requires s * s <= x < (s + 1) * (s + 1)
    ensures Isqrt(x) == s
  {
    var r := Isqrt(x);
    if r < s {
      SquareMonotone(r + 1, s);
    } else if r > s {
      SquareMonotone(s + 1, r);
    }
  }

  // ---------------------------------------------------------------------
  // invmod
  // ---------------------------------------------------------------------

  predicate IsInverse(a: int, v: int, n: int)
    requires n > 0
  {
    (a * v) % n == 1
  }

  /**
   * Modular inverse of a modulo n, or None when there is none (that is, when
   * gcd(a, n) != 1). The body is a plain search; only the contract matters.
   */
  function Invmod(a: int, n: int): (r: Option<nat>)
    requires n > 1
    ensures r.Some? ==> r.value < n && IsInverse(a, r.value, n)
    ensures r.None? <==> forall v :: 0 <= v < n ==> !IsInverse(a, v, n)
  {
    InverseFrom(a, n, 0)
  }

  function InverseFrom(a: int, n: int, k: nat): (r: Option<nat>)
    requires n > 1
    ensures r.Some? ==> k <= r.value < n && IsInverse(a, r.value, n)
    ensures r.None? <==> forall v :: k <= v < n ==> !IsInverse(a, v, n)
    decreases n - k
  {
    if k >= n then None
    else if IsInverse(a, k, n) then Some(k)
    else InverseFrom(a, n, k + 1)
  }

  /** An inverse modulo n is unique in [0, n). */
  lemma InverseUnique(a: int, v: int, w: int, n: int)
    requires n > 1 && 0 <= v < n && 0 <= w < n
    requires IsInverse(a, v, n) && IsInverse(a, w, n)
    ensures v == w
  {
    ModUnique(v, n, 0, v);
    ModUnique(w, n, 0, w);
    calc {
      v;
      (v * 1) % n;
      (v * ((a * w) % n)) % n;
      { ModMulRight(v, a * w, n); }
      (v * (a * w)) % n;
      { assert v * (a * w) == (a * v) * w; }
      ((a * v) * w) % n;
      { ModMulLeft(a * v, w, n); }
      (((a * v) % n) * w) % n;
      (1 * w) % n;
      w;
    }
  }
}
