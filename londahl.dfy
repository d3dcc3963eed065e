/**
 * The close-factor (Londahl) attack: factor an RSA modulus n = p*q whose
 * factors are close, by a baby-step/giant-step search for the totient around
 * the approximation n - 2*isqrt(n) + 1, then solving x^2 - (p+q)*x + n = 0.
 *
 * `close_factor` is modelled by the method CloseFactor, whose two loops are
 * the methods BabySteps and GiantSteps; Recover is the reference definition
 * of its outcome, built from functions whose own contracts say what each
 * step computes. `attack` is the method Attack.
 */
module Londahl {
  import opened Wrappers
  import opened Utils

  /** The search bound `attack` hands to `close_factor`. */
  const LondahlB: nat := 20000000

  datatype PublicKey = PublicKey(n: int, e: int)

  datatype PrivateKey = PrivateKey(p: int, q: int, e: int, n: int)

  // -----------------------------------------------------------------------
  // Step 1: the totient approximation
  // -----------------------------------------------------------------------

  /** n - 2*isqrt(n) + 1; never negative, and below n once n >= 1. */
  function PhiApprox(n: nat): (pa: nat)
    ensures n >= 1 ==> pa < n
  {
    ApproxBounds(n, Isqrt(n));
    n - 2 * Isqrt(n) + 1
  }

  lemma ApproxBounds(n: nat, r: nat)
    requires r * r <= n < (r + 1) * (r + 1)
    ensures n - 2 * r + 1 >= 0
    ensures n >= 1 ==> n - 2 * r + 1 < n
  {
    assert (r - 1) * (r - 1) == r * r - 2 * r + 1;
    assert (r - 1) * (r - 1) >= 0;
    if r == 0 {
      assert (r + 1) * (r + 1) == 1;
    }
  }

  /**
   * The approximation is never below the true totient of n = p*q: since
   * 2*isqrt(p*q) <= p + q, the search only has to look downwards from it.
   */
  lemma TotientAtMostApprox(p: nat, q: nat)
    requires p >= 1 && q >= 1
    ensures (p - 1) * (q - 1) <= PhiApprox(p * q)
  {
    var n := p * q;
    var r := Isqrt(n);
    RootAtMostHalfSum(p, q, r);
    TotientOfPair(p, q);
  }

  /** A root of p*q is at most the arithmetic mean of p and q. */
  lemma RootAtMostHalfSum(p: nat, q: nat, r: nat)
    requires r * r <= p * q
    ensures 2 * r <= p + q
  {
    var d := if p <= q then q - p else p - q;
    assert (p + q) * (p + q) == 4 * (p * q) + d * d;
    assert d * d >= 0;
    if p + q < 2 * r {
      SquareMonotone(p + q + 1, 2 * r);
    }
  }

  // -----------------------------------------------------------------------
  // Step 2: baby steps
  // -----------------------------------------------------------------------

  /** The residue the baby-step loop holds at step k: 2^k mod n. */
  function BabyValue(n: int, k: nat): (z: int)
    requires n > 0
    ensures 0 <= z < n
  {
    Pow(2, k) % n
  }

  lemma BabyValueNext(n: int, k: nat)
    requires n > 1
    ensures BabyValue(n, k + 1) == (BabyValue(n, k) * 2) % n
  {
    assert Pow(2, k + 1) == Pow(2, k) * 2;
    ModMulLeft(Pow(2, k), 2, n);
  }

  /**
   * The largest k < count with 2^k mod n == z, or None: the index a table
   * keeps for key z when later insertions overwrite earlier ones.
   */
  function LastBelow(n: int, count: nat, z: int): (r: Option<nat>)
    requires n > 1
    ensures r.Some? ==> r.value < count && BabyValue(n, r.value) == z
    ensures r.Some? ==> forall k :: r.value < k < count ==> BabyValue(n, k) != z
    ensures r.None? ==> forall k :: 0 <= k < count ==> BabyValue(n, k) != z
  {
    if count == 0 then None
    else if BabyValue(n, count - 1) == z then Some(count - 1)
    else LastBelow(n, count - 1, z)
  }

  /** One more baby step: the new residue takes the new index, every other key keeps its own. */
  lemma LastBelowNext(n: int, i: nat, z: int)
    requires n > 1 && z == BabyValue(n, i)
    ensures LastBelow(n, i + 1, z) == Some(i)
    ensures forall w :: w != z ==> LastBelow(n, i + 1, w) == LastBelow(n, i, w)
  {
  }

  /**
   * The baby-step table: its keys are exactly 2^i mod n for 0 <= i <= b,
   * each key maps to the LARGEST such i (the loop overwrites), and it has at
   * most b + 1 entries.
   */
  method BabySteps(n: int, b: nat) returns (lookUp: map<int, nat>)
    requires n > 1
    ensures lookUp.Keys == set i | 0 <= i <= b :: BabyValue(n, i)
    ensures forall z :: z in lookUp <==> LastBelow(n, b + 1, z).Some?
    ensures forall z :: z in lookUp ==> LastBelow(n, b + 1, z) == Some(lookUp[z])
    ensures forall z :: z in lookUp ==> lookUp[z] <= b && BabyValue(n, lookUp[z]) == z
    ensures |lookUp| <= b + 1
  {
    lookUp := map[];
    var z := 1;
    ModUnique(1, n, 0, 1);
    for i := 0 to b + 1
      invariant z == BabyValue(n, i)
      invariant forall w :: w in lookUp <==> LastBelow(n, i, w).Some?
      invariant forall w :: w in lookUp ==> LastBelow(n, i, w) == Some(lookUp[w])
      invariant |lookUp| <= i
    {
      LastBelowNext(n, i, z);
      lookUp := lookUp[z := i];
      BabyValueNext(n, i);
      z := (z * 2) % n;
    }
    forall w | w in lookUp
      ensures w in (set i | 0 <= i <= b :: BabyValue(n, i))
    {
      var k := LastBelow(n, b + 1, w).value;
      assert 0 <= k <= b && BabyValue(n, k) == w;
    }
    forall w | w in (set i | 0 <= i <= b :: BabyValue(n, i))
      ensures w in lookUp
    {
      var k :| 0 <= k <= b && BabyValue(n, k) == w;
    }
  }

  // -----------------------------------------------------------------------
  // Step 3: giant steps
  // -----------------------------------------------------------------------

  /** The value of mu after k giant steps from mu0: mu0 * fac^k mod n. */
  function GiantValue(n: int, mu0: int, fac: int, k: nat): (mu: int)
    requires n > 0
    ensures 0 <= mu < n
  {
    (mu0 * Pow(fac, k)) % n
  }

  lemma GiantValueZero(n: int, mu0: int, fac: int)
    requires n > 1 && 0 <= mu0 < n
    ensures GiantValue(n, mu0, fac, 0) == mu0
  {
    ModUnique(mu0 * Pow(fac, 0), n, 0, mu0);
  }

  lemma GiantValueNext(n: int, mu0: int, fac: int, k: nat)
    requires n > 1
    ensures GiantValue(n, mu0, fac, k + 1) == (GiantValue(n, mu0, fac, k) * fac) % n
  {
    ModMulLeft(mu0 * Pow(fac, k), fac, n);
    assert mu0 * Pow(fac, k + 1) == mu0 * Pow(fac, k) * fac;
  }

  /**
   * The giant-step loop: hit is the SMALLEST i <= b whose mu is a key of the
   * table, with the index the table stores for it; None when no i <= b hits.
   * `steps` counts the iterations: b + 1 when nothing hits.
   */
  method GiantSteps(n: int, b: nat, lookUp: map<int, nat>, mu0: int, fac: int)
    returns (hit: Option<(nat, nat)>, ghost steps: nat)
    requires n > 1 && 0 <= mu0 < n
    ensures hit.Some? ==>
      && hit.value.0 <= b
      && GiantValue(n, mu0, fac, hit.value.0) in lookUp
      && hit.value.1 == lookUp[GiantValue(n, mu0, fac, hit.value.0)]
      && forall k :: 0 <= k < hit.value.0 ==> GiantValue(n, mu0, fac, k) !in lookUp
    ensures hit.None? ==> forall k :: 0 <= k <= b ==> GiantValue(n, mu0, fac, k) !in lookUp
    ensures steps == if hit.Some? then hit.value.0 + 1 else b + 1
  {
    var mu := mu0;
    GiantValueZero(n, mu0, fac);
    steps := 0;
    for i := 0 to b + 1
      invariant mu == GiantValue(n, mu0, fac, i)
      invariant forall k :: 0 <= k < i ==> GiantValue(n, mu0, fac, k) !in lookUp
      invariant steps == i
    {
      steps := steps + 1;
      if mu in lookUp {
        hit := Some((i, lookUp[mu]));
        return;
      }
      GiantValueNext(n, mu0, fac, i);
      mu := (mu * fac) % n;
    }
    hit := None;
  }

  /**
   * Reference definition of the giant-step search against the baby-step
   * table described by LastBelow: the smallest k in [from, b] whose giant
   * value is a table key, paired with the index the table keeps for it.
   */
  function FirstHit(n: int, b: nat, mu0: int, fac: int, from: nat): (r: Option<(nat, nat)>)
    requires n > 1
    ensures r.Some? ==>
      && from <= r.value.0 <= b
      && LastBelow(n, b + 1, GiantValue(n, mu0, fac, r.value.0)) == Some(r.value.1)
      && forall k :: from <= k < r.value.0 ==> LastBelow(n, b + 1, GiantValue(n, mu0, fac, k)).None?
    ensures r.None? ==> forall k :: from <= k <= b ==> LastBelow(n, b + 1, GiantValue(n, mu0, fac, k)).None?
    decreases b + 1 - from
  {
    if from > b then None
    else match LastBelow(n, b + 1, GiantValue(n, mu0, fac, from))
      case Some(j) => Some((from, j))
      case None => FirstHit(n, b, mu0, fac, from + 1)
  }

  /**
   * Against the baby-step table, the smallest hitting giant step the loop
   * finds is the one the reference search FirstHit defines.
   */
  lemma GiantStepsFindFirstHit(n: int, b: nat, lookUp: map<int, nat>, mu0: int, fac: int, hit: Option<(nat, nat)>)
    requires n > 1
    requires forall z :: z in lookUp <==> LastBelow(n, b + 1, z).Some?
    requires forall z :: z in lookUp ==> LastBelow(n, b + 1, z) == Some(lookUp[z])
    requires hit.Some? ==>
      && hit.value.0 <= b
      && GiantValue(n, mu0, fac, hit.value.0) in lookUp
      && hit.value.1 == lookUp[GiantValue(n, mu0, fac, hit.value.0)]
      && forall k :: 0 <= k < hit.value.0 ==> GiantValue(n, mu0, fac, k) !in lookUp
    requires hit.None? ==> forall k :: 0 <= k <= b ==> GiantValue(n, mu0, fac, k) !in lookUp
    ensures hit == FirstHit(n, b, mu0, fac, 0)
  {
    var expected := FirstHit(n, b, mu0, fac, 0);
    if hit.Some? {
      var i := hit.value.0;
      assert LastBelow(n, b + 1, GiantValue(n, mu0, fac, i)).Some?;
      assert expected.Some?;
      var i' := expected.value.0;
      assert LastBelow(n, b + 1, GiantValue(n, mu0, fac, i')).Some?;
      assert !(i' < i) && !(i < i');
    }
  }

  /** With fac = 2^b mod n, the k-th giant value is mu0 * 2^(b*k) mod n. */
  lemma GiantValueClosedForm(n: int, mu0: int, b: nat, k: nat)
    requires n > 1
    ensures GiantValue(n, mu0, Pow(2, b) % n, k) == (mu0 * Pow(2, b * k)) % n
  {
    calc {
      (mu0 * Pow(Pow(2, b) % n, k)) % n;
      { ModMulRight(mu0, Pow(Pow(2, b) % n, k), n); }
      (mu0 * (Pow(Pow(2, b) % n, k) % n)) % n;
      { PowMod(Pow(2, b), k, n); }
      (mu0 * (Pow(Pow(2, b), k) % n)) % n;
      { ModMulRight(mu0, Pow(Pow(2, b), k), n); }
      (mu0 * Pow(Pow(2, b), k)) % n;
      { PowMul(2, b, k); }
      (mu0 * Pow(2, b * k)) % n;
    }
  }

  /**
   * What a table hit certifies: when giant step i from mu0 = 2^(-pa) mod n
   * meets baby index j, and i*b does not exceed pa, the candidate exponent
   * phi = pa + j - i*b satisfies 2^phi == 1 (mod n).
   */
  lemma HitCertifiesPhi(n: int, b: nat, mu0: int, i: nat, j: nat, pa: nat)
    requires n > 1
    requires IsInverse(Pow(2, pa) % n, mu0, n)
    requires BabyValue(n, j) == GiantValue(n, mu0, Pow(2, b) % n, i)
    requires i * b <= pa
    ensures CandidatePhi(pa, b, i, j) >= 0
    ensures Pow(2, CandidatePhi(pa, b, i, j)) % n == 1
  {
    var e := pa - b * i;
    var phi := CandidatePhi(pa, b, i, j);
    // the hit: 2^j == mu0 * 2^(b*i) (mod n)
    GiantValueClosedForm(n, mu0, b, i);
    // 2^(b*i) * 2^e == 2^pa and 2^phi == 2^j * 2^e
    PowSplit(2, b * i, e, pa);
    PowSplit(2, j, e, phi);
    MulByInverse(n, Pow(2, j), mu0, Pow(2, b * i), Pow(2, e), Pow(2, pa));
  }

  /**
   * If a == mu0 * g (mod n), g * r == w and mu0 is an inverse of w modulo n,
   * then a * r == 1 (mod n).
   */
  lemma MulByInverse(n: int, a: int, mu0: int, g: int, r: int, w: int)
    requires n > 1
    requires a % n == (mu0 * g) % n && g * r == w && IsInverse(w % n, mu0, n)
    ensures (a * r) % n == 1
  {
    MulAssoc(mu0, g, r);
    calc {
      (a * r) % n;
      { ModMulLeft(a, r, n); }
      ((a % n) * r) % n;
      (((mu0 * g) % n) * r) % n;
      { ModMulLeft(mu0 * g, r, n); }
      ((mu0 * g) * r) % n;
      (mu0 * w) % n;
      { ModMulRight(mu0, w, n); }
      (mu0 * (w % n)) % n;
      { MulComm(mu0, w % n); }
      ((w % n) * mu0) % n;
      1;
    }
  }

  // -----------------------------------------------------------------------
  // Steps 4 and 5: roots of the quadratic, and the verification gate
  // -----------------------------------------------------------------------

  /**
   * From a candidate totient phi: m = n - phi + 1, roots (m -/+ isqrt(m^2 - 4n)) / 2
   * with floor division, returned only when their product is n.
   */
  function Roots(n: int, phi: int): (r: Option<(int, int)>)
    requires n > 1
    ensures r.Some? ==> r.value.0 * r.value.1 == n && r.value.0 <= r.value.1
  {
    var m := n - phi + 1;
    var disc := m * m - 4 * n;
    if disc < 0 then
      // The square root of a negative discriminant is up to the helper
      // library, which is not part of this model: modelled as no result.
      None
    else
      var s := Isqrt(disc);
      var roots := ((m - s) / 2, (m + s) / 2);
      assert roots.0 <= roots.1 by {
        assert (m + s) == (m - s) + 2 * s;
        ModUnique(m + s, 2, (m - s) / 2 + s, (m - s) % 2);
      }
      if roots.0 * roots.1 == n then Some(roots) else None
  }

  /**
   * With s the floor root of m^2 - 4n and n > 0, the floor halves of the odd
   * numbers m - s and m + s never multiply to n: (m-1)^2 - s^2 != 4n.
   */
  lemma OddGapMisses(m: int, s: nat, n: int)
    requires n > 0
    requires s * s <= m * m - 4 * n < (s + 1) * (s + 1)
    ensures 4 * n != (m - 1) * (m - 1) - s * s
  {
    if 4 * n == (m - 1) * (m - 1) - s * s {
      assert (m - 1) * (m - 1) == m * m - 2 * m + 1;
      assert (s + 1) * (s + 1) == s * s + 2 * s + 1;
      assert 1 <= m <= s;
      SquareMonotone(m - 1, s);
    }
  }

  lemma TotientOfPair(p: int, q: int)
    ensures (p - 1) * (q - 1) == p * q - (p + q) + 1
  {
  }

  lemma DiffOfSquares(a: int, b: int)
    ensures (a - b) * (a + b) == a * a - b * b
  {
  }

  /**
   * Soundness of the gate: a pair Roots returns multiplies to n and sums to
   * m = n - phi + 1, so (p - 1)*(q - 1) == phi.
   */
  lemma RootsSound(n: int, phi: int)
    requires n > 1 && Roots(n, phi).Some?
    ensures var (p, q) := Roots(n, phi).value;
      p * q == n && p + q == n - phi + 1 && (p - 1) * (q - 1) == phi
  {
    var (p, q) := Roots(n, phi).value;
    var m := n - phi + 1;
    var s := Isqrt(m * m - 4 * n);
    GatePairSum(m, s, n, p, q);
    TotientOfPair(p, q);
  }

  /** The gate passes only when m - s is even, and then the two roots sum to m. */
  lemma GatePairSum(m: int, s: nat, n: int, p: int, q: int)
    requires n > 1
    requires s * s <= m * m - 4 * n < (s + 1) * (s + 1)
    requires p == (m - s) / 2 && q == (m + s) / 2 && p * q == n
    ensures p + q == m
  {
    var t := (m - s) % 2;
    assert m - s == 2 * p + t;
    ModUnique(m + s, 2, p + s, t);
    if t == 1 {
      DiffOfSquares(m - 1, s);
      MulAssoc(2, p, 2 * q);
      OddGapMisses(m, s, n);
    }
  }

  /** Completeness of the roots step: a factor pair whose totient is phi is what Roots returns. */
  lemma RootsOfFactors(n: int, phi: int, p: int, q: int)
    requires n > 1 && p <= q && p * q == n && (p - 1) * (q - 1) == phi
    ensures Roots(n, phi) == Some((p, q))
  {
    TotientOfPair(p, q);
    var m := p + q;
    var d := q - p;
    assert m * m - 4 * n == d * d by {
      DiffOfSquares(p + q, q - p);
      assert (p + q - (q - p)) * (p + q + (q - p)) == 4 * (p * q);
    }
    assert d * d < (d + 1) * (d + 1);
    IsqrtUnique(m * m - 4 * n, d);
    assert m - d == 2 * p && m + d == 2 * q;
  }

  /**
   * Roots is exact: it returns (p, q) precisely when p <= q, p*q == n and
   * (p - 1)*(q - 1) == phi. In particular, given the true totient
   * (p - 1)*(q - 1) of n = p*q, it recovers the factors (p, q).
   */
  lemma RootsExact(n: int, phi: int, p: int, q: int)
    requires n > 1
    ensures Roots(n, phi) == Some((p, q)) <==> p <= q && p * q == n && (p - 1) * (q - 1) == phi
  {
    if Roots(n, phi) == Some((p, q)) {
      RootsSound(n, phi);
    }
    if p <= q && p * q == n && (p - 1) * (q - 1) == phi {
      RootsOfFactors(n, phi, p, q);
    }
  }

  // -----------------------------------------------------------------------
  // close_factor and attack
  // -----------------------------------------------------------------------

  /** The totient candidate of a hit: giant step i meeting baby index j gives phi_approx + j - i*b. */
  function CandidatePhi(phiApprox: int, b: nat, i: nat, j: nat): int
  {
    phiApprox + j - i * b
  }

  /** Reference definition of what close_factor returns. */
  function Recover(n: int, b: nat): (r: Option<(int, int)>)
    requires n > 1
    ensures r.Some? ==> r.value.0 * r.value.1 == n && r.value.0 <= r.value.1
  {
    var pa := PhiApprox(n);
    match Invmod(Pow(2, pa) % n, n)
    case None =>
      // No inverse of 2^phi_approx mod n: the helper library's failure is
      // not part of this model; modelled as no result.
      None
    case Some(mu0) =>
      match FirstHit(n, b, mu0, Pow(2, b) % n, 0)
      case None => None
      case Some((i, j)) => Roots(n, CandidatePhi(pa, b, i, j))
  }

  /**
   * What close_factor returns, given the inverse mu0 and the first giant-step
   * hit (i, j): the roots for phi = phi_approx + j - i*b, and a returned pair
   * (p, q) has p*q == n and (p - 1)*(q - 1) == phi, where 2^phi == 1 (mod n)
   * whenever i*b <= phi_approx.
   */
  lemma RecoveredTotient(n: int, b: nat, mu0: nat, i: nat, j: nat)
    requires n > 1
    requires Invmod(Pow(2, PhiApprox(n)) % n, n) == Some(mu0)
    requires FirstHit(n, b, mu0, Pow(2, b) % n, 0) == Some((i, j))
    ensures Recover(n, b) == Roots(n, CandidatePhi(PhiApprox(n), b, i, j))
    ensures Recover(n, b).Some? ==>
      var (p, q) := Recover(n, b).value;
      p * q == n && (p - 1) * (q - 1) == CandidatePhi(PhiApprox(n), b, i, j)
    ensures i * b <= PhiApprox(n) ==> Pow(2, CandidatePhi(PhiApprox(n), b, i, j)) % n == 1
  {
    var phi := CandidatePhi(PhiApprox(n), b, i, j);
    RecoverAtHit(n, b, mu0, i, j);
    if Roots(n, phi).Some? {
      RootsSound(n, phi);
    }
    if i * b <= PhiApprox(n) {
      HitCertifiesPhi(n, b, mu0, i, j, PhiApprox(n));
    }
  }

  /** Unfolding Recover along the path of a hit. */
  lemma RecoverAtHit(n: int, b: nat, mu0: nat, i: nat, j: nat)
    requires n > 1
    requires Invmod(Pow(2, PhiApprox(n)) % n, n) == Some(mu0)
    requires FirstHit(n, b, mu0, Pow(2, b) % n, 0) == Some((i, j))
    ensures Recover(n, b) == Roots(n, CandidatePhi(PhiApprox(n), b, i, j))
  {
  }

  /** No inverse of 2^phi_approx, or no giant step meeting the table, means no result. */
  lemma RecoverWithoutHit(n: int, b: nat)
    requires n > 1
    requires var inverse := Invmod(Pow(2, PhiApprox(n)) % n, n);
      inverse.None? || FirstHit(n, b, inverse.value, Pow(2, b) % n, 0).None?
    ensures Recover(n, b) == None
  {
  }

  /**
   * Completeness: when the first hit's candidate is the true totient of
   * n = p*q, close_factor returns (p, q).
   */
  lemma RecoverFindsFactors(n: int, b: nat, p: int, q: int, mu0: nat, i: nat, j: nat)
    requires 1 <= p <= q && n == p * q && n > 1
    requires Invmod(Pow(2, PhiApprox(n)) % n, n) == Some(mu0)
    requires FirstHit(n, b, mu0, Pow(2, b) % n, 0) == Some((i, j))
    requires CandidatePhi(PhiApprox(n), b, i, j) == (p - 1) * (q - 1)
    ensures Recover(n, b) == Some((p, q))
  {
    RecoverAtHit(n, b, mu0, i, j);
    RootsOfFactors(n, CandidatePhi(PhiApprox(n), b, i, j), p, q);
  }

  /**
   * A hit exists: if 2^phi == 1 (mod n) for some phi with
   * phi <= phi_approx <= phi + b*b, some giant step i <= b meets the table.
   * With i = ceil((phi_approx - phi) / b), the baby index i*b - (phi_approx - phi)
   * lies in [0, b).
   */
  lemma HitExists(n: int, b: nat, mu0: int, phi: nat)
    requires n > 1
    requires IsInverse(Pow(2, PhiApprox(n)) % n, mu0, n)
    requires Pow(2, phi) % n == 1
    requires phi <= PhiApprox(n) <= phi + b * b
    ensures FirstHit(n, b, mu0, Pow(2, b) % n, 0).Some?
  {
    var pa := PhiApprox(n);
    var t := pa - phi;
    var i, j := CeilSteps(t, b);
    InverseOfGap(n, mu0, t, phi, pa);
    HitAt(n, mu0, b, i, j, t);
    assert LastBelow(n, b + 1, GiantValue(n, mu0, Pow(2, b) % n, i)).Some?;
  }

  /** For 0 <= t <= b*b: the i <= b with i*b - b < t <= i*b, and j = i*b - t <= b. */
  lemma CeilSteps(t: nat, b: nat) returns (i: nat, j: nat)
    requires t <= b * b
    ensures i <= b && j <= b && i * b == j + t
  {
    if b == 0 {
      i, j := 0, 0;
    } else {
      var q, r := (t + b - 1) / b, (t + b - 1) % b;
      assert t + b - 1 == q * b + r;
      assert (b + 1) * b == b * b + b;
      MulLessCancel(q, b + 1, b);
      i, j := q, q * b - t;
    }
  }

  lemma MulLessCancel(q: int, c: int, b: int)
    requires b > 0 && q * b < c * b
    ensures q < c
  {
    assert (c - q) * b == c * b - q * b;
  }

  /** mu0 inverts 2^pa and 2^phi == 1, so mu0 also inverts 2^(pa - phi). */
  lemma InverseOfGap(n: int, mu0: int, t: nat, phi: nat, pa: nat)
    requires n > 1 && pa == phi + t
    requires IsInverse(Pow(2, pa) % n, mu0, n)
    requires Pow(2, phi) % n == 1
    ensures (mu0 * Pow(2, t)) % n == 1
  {
    PowSplit(2, t, phi, pa);
    MulAssoc(mu0, Pow(2, t), Pow(2, phi));
    calc {
      (mu0 * Pow(2, t)) % n;
      ((mu0 * Pow(2, t)) * (Pow(2, phi) % n)) % n;
      { ModMulRight(mu0 * Pow(2, t), Pow(2, phi), n); }
      ((mu0 * Pow(2, t)) * Pow(2, phi)) % n;
      (mu0 * Pow(2, pa)) % n;
      { ModMulRight(mu0, Pow(2, pa), n); }
      (mu0 * (Pow(2, pa) % n)) % n;
      { MulComm(mu0, Pow(2, pa) % n); }
      ((Pow(2, pa) % n) * mu0) % n;
      1;
    }
  }

  /** With mu0 * 2^t == 1 (mod n) and i*b == j + t, giant step i lands on baby value j. */
  lemma HitAt(n: int, mu0: int, b: nat, i: nat, j: nat, t: nat)
    requires n > 1 && i * b == j + t
    requires (mu0 * Pow(2, t)) % n == 1
    ensures GiantValue(n, mu0, Pow(2, b) % n, i) == BabyValue(n, j)
  {
    GiantValueClosedForm(n, mu0, b, i);
    PowSplit(2, j, t, b * i);
    Regroup(mu0, Pow(2, j), Pow(2, t));
    calc {
      (mu0 * Pow(2, b * i)) % n;
      (Pow(2, j) * (mu0 * Pow(2, t))) % n;
      { ModMulRight(Pow(2, j), mu0 * Pow(2, t), n); }
      (Pow(2, j) * ((mu0 * Pow(2, t)) % n)) % n;
      Pow(2, j) % n;
    }
  }

  lemma Regroup(a: int, x: int, y: int)
    ensures a * (x * y) == x * (a * y)
  {
    MulAssoc(a, x, y);
    MulComm(a, x);
    MulAssoc(x, a, y);
  }

  /**
   * A first hit need not give the totient: for n = 143 and b = 58 the very
   * first giant value, 36 == 2^58 mod 143, is a table key, so phi = 122 + 58
   * = 180, m = -36, isqrt(724) == 26, and the roots (-31, -5) multiply to 155:
   * close_factor returns nothing although 120 = 10 * 12 is within reach.
   */
  lemma Example143Spurious(n: int, b: nat)
    requires n == 143 && b == 58
    ensures FirstHit(n, b, 36, Pow(2, b) % n, 0) == Some((0, 58))
    ensures Recover(n, b) == None
  {
    Example143Hit(n);
    Example143SpuriousHit(n, b);
    RecoverAtHit(n, b, 36, 0, 58);
    Example143SpuriousRoots(n);
  }

  /** Giant step 0 from mu0 = 36 is 36 itself, which the table keeps at index 58. */
  lemma Example143SpuriousHit(n: int, b: nat)
    requires n == 143 && b == 58
    ensures FirstHit(n, b, 36, Pow(2, b) % n, 0) == Some((0, 58))
  {
    Example143Sixty(n);
    assert GiantValue(n, 36, Pow(2, b) % n, 0) == 36;
    assert LastBelow(n, b + 1, 36) == Some(58);
  }

  /** 2^60 == (2^10)^6 == 23^6 == 1 (mod 143), and 4 * 36 == 1, so 2^58 mod 143 == 36. */
  lemma Example143Sixty(n: int)
    requires n == 143
    ensures BabyValue(n, 58) == 36
  {
    PowMul(2, 10, 6);
    PowMod(1024, 6, n);
    assert Pow(2, 10) == 1024 && Pow(23, 6) % 143 == 1;
    PowAdd(2, 58, 2);
    ModMulLeft(Pow(2, 58), 4, n);
    MulComm(Pow(2, 58) % n, 4);
    assert IsInverse(4, 36, n);
    InverseUnique(4, Pow(2, 58) % n, 36, n);
  }

  /** phi = 180: m = -36, the discriminant is 724 with floor root 26, and (-31) * (-5) != 143. */
  lemma Example143SpuriousRoots(n: int)
    requires n == 143
    ensures Roots(n, 180) == None
  {
    var m := n - 180 + 1;
    assert m == -36 && m * m - 4 * n == 724;
    IsqrtUnique(724, 26);
    assert (m - 26) / 2 == -31 && (m + 26) / 2 == -5;
    GateRejects(n, 180, m, 26);
  }

  /** The gate rejects when the floor halves of m -/+ isqrt(m^2 - 4n) do not multiply to n. */
  lemma GateRejects(n: int, phi: int, m: int, s: nat)
    requires n > 1 && m == n - phi + 1 && m * m - 4 * n >= 0
    requires Isqrt(m * m - 4 * n) == s && ((m - s) / 2) * ((m + s) / 2) != n
    ensures Roots(n, phi) == None
  {
  }

  /**
   * close_factor(n, b): the baby-step table, the giant-step search from
   * mu0 = 2^(-phi_approx) mod n, and the gated roots.
   */
  method CloseFactor(n: int, b: nat) returns (roots: Option<(int, int)>)
    requires n > 1
    ensures roots == Recover(n, b)
    ensures roots.Some? ==> roots.value.0 * roots.value.1 == n && roots.value.0 <= roots.value.1
  {
    var phiApprox := PhiApprox(n);
    var lookUp := BabySteps(n, b);
    var inverse := Invmod(Pow(2, phiApprox) % n, n);
    if inverse.None? {
      RecoverWithoutHit(n, b);
      return None;
    }
    var mu0 := inverse.value;
    var fac := Pow(2, b) % n;
    var hit;
    ghost var steps;
    hit, steps := GiantSteps(n, b, lookUp, mu0, fac);
    GiantStepsFindFirstHit(n, b, lookUp, mu0, fac, hit);
    if hit.None? {
      RecoverWithoutHit(n, b);
      return None;
    }
    var (i, j) := hit.value;
    var phi := CandidatePhi(phiApprox, b, i, j);
    RecoveredTotient(n, b, mu0, i, j);
    roots := Roots(n, phi);
  }

  /**
   * attack: a private key built from the pair close_factor returns, with e
   * and n passed through; nothing when it returns no pair.
   */
  method Attack(key: PublicKey) returns (privateKey: Option<PrivateKey>)
    requires key.n > 1
    ensures privateKey.Some? <==> Recover(key.n, LondahlB).Some?
    ensures privateKey.Some? ==>
      var (p, q) := Recover(key.n, LondahlB).value;
      privateKey.value == PrivateKey(p, q, key.e, key.n)
    ensures privateKey.Some? ==>
      privateKey.value.p * privateKey.value.q == privateKey.value.n && privateKey.value.p <= privateKey.value.q
  {
    var factors := CloseFactor(key.n, LondahlB);
    if factors.Some? {
      var (p, q) := factors.value;
      privateKey := Some(PrivateKey(p, q, key.e, key.n));
    } else {
      privateKey := None;
    }
  }

  /**
   * n = 143 = 11 * 13 with b = 2: isqrt(143) == 11, so phi_approx == 122; the
   * second giant step hits baby index 0, giving phi == 120 and roots (11, 13).
   */
  lemma Example143(n: int, b: nat)
    requires n == 143 && b == 2
    ensures Recover(n, b) == Some((11, 13))
  {
    Example143Hit(n);
    RecoveredTotient(n, b, 36, 1, 0);
    Example143Roots(n);
  }

  /** phi = 120 = 10 * 12 gives m = 24, discriminant 4 and roots (11, 13). */
  lemma Example143Roots(n: int)
    requires n == 143
    ensures Roots(n, 120) == Some((11, 13))
  {
    RootsOfFactors(n, 120, 11, 13);
  }

  /** The inverse of 2^122 mod 143 is 36; from it, step 0 misses and step 1 meets 2^0. */
  lemma Example143Hit(n: int)
    requires n == 143
    ensures PhiApprox(n) == 122
    ensures Invmod(Pow(2, PhiApprox(n)) % n, n) == Some(36)
    ensures FirstHit(n, 2, 36, Pow(2, 2) % n, 0) == Some((1, 0))
  {
    IsqrtUnique(n, 11);
    Example143Inverse(n);
    Example143Search(n);
  }

  /** 2^122 mod 143 == 4, whose inverse modulo 143 is 36. */
  lemma Example143Inverse(n: int)
    requires n == 143
    ensures Invmod(Pow(2, 122) % n, n) == Some(36)
  {
    Example143Power(n);
    assert IsInverse(4, 36, n);
    InverseUnique(4, Invmod(4, n).value, 36, n);
  }

  /** 2^120 == (2^10)^12 and 2^10 == 23 (mod 143), with 23^12 == 1 (mod 143). */
  lemma Example143Power(n: int)
    requires n == 143
    ensures Pow(2, 122) % n == 4
  {
    PowMul(2, 10, 12);
    PowMod(1024, 12, n);
    assert Pow(2, 10) == 1024 && Pow(23, 12) % 143 == 1;
    PowAdd(2, 120, 2);
    ModMulLeft(Pow(2, 120), 4, n);
  }

  /** From mu0 = 36 with fac = 4: step 0 misses the table {1, 2, 4}, step 1 meets 1 = 2^0. */
  lemma Example143Search(n: int)
    requires n == 143
    ensures FirstHit(n, 2, 36, Pow(2, 2) % n, 0) == Some((1, 0))
  {
    assert Pow(2, 2) % n == 4;
    assert GiantValue(n, 36, 4, 0) == 36;
    assert LastBelow(n, 3, 36) == None;
    assert GiantValue(n, 36, 4, 1) == 1;
    assert LastBelow(n, 3, 1) == Some(0);
  }
}
