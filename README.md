# Close-factor (Londahl) attack — a Dafny model

RsaCtfTool's close-factor attack factors an RSA modulus `n = p*q` whose two
primes are close together. `close_factor(n, b)` does five things:
- It approximates the Euler totient as `phi_approx = n - 2*isqrt(n) + 1`.
- It builds a baby-step table `2^i mod n -> i` for `0 <= i <= b`.
- It walks giant steps `mu_i = 2^(-phi_approx) * (2^b)^i mod n` until one of them is a key of the table.
- It turns the recovered totient `phi = phi_approx + j - i*b` into `m = p + q` and solves `x^2 - m*x + n = 0` with an integer square root and floor division.
- It returns the two roots only when their product is `n`.

`attack` runs `close_factor` with `b = 20000000` and turns a returned pair into a private key. The public exponent and the modulus pass through unchanged.

The project has three files:
- `wrappers.dfy` holds the `Option` type.
- `utils.dfy` holds the arithmetic helpers the attack imports: `pow(2, k, n)`, `isqrt` and `invmod`. The library that implements `isqrt` and `invmod` is not part of this model. Each is given by its contract and a simple body that meets it: the floor square root, and the least non-negative inverse modulo `n`, or none.
- `londahl.dfy` holds the attack.

`close_factor` is the method `CloseFactor`. Its two loops are the methods `BabySteps` and `GiantSteps`: the table is a `map<int, nat>` the first loop fills, and `mu` is the variable the second loop updates. The reference function `Recover` defines what `close_factor` returns. `Recover` is built from:
- `PhiApprox`;
- `LastBelow`, the index the table keeps for a residue;
- `FirstHit`, the smallest giant step that meets the table;
- `Roots`, the quadratic step together with the product check.

`CloseFactor` is proved to return exactly `Recover(n, b)`. The properties of the algorithm are proved about these functions.

The duplicate-residue tie-break follows the code. Line 24 of `attacks/single_key/londahl.py` assigns `look_up[z] = i` on every step, so for a residue that repeats, the table keeps the LARGEST index `i <= b`.

## Model

| member | source | states |
|---|---|---|
| Utils.Isqrt | attacks/single_key/londahl.py:18 | isqrt(x) is the floor square root: r*r <= x < (r+1)*(r+1) |
| Utils.IsqrtUnique | attacks/single_key/londahl.py:40 | the floor square root is the only r with r*r <= x < (r+1)*(r+1) |
| Utils.Invmod | attacks/single_key/londahl.py:28 | invmod(a, n) is a v < n with a*v == 1 (mod n), and there is none exactly when no v in [0, n) is an inverse |
| Utils.InverseUnique | attacks/single_key/londahl.py:28 | an inverse modulo n is unique in [0, n) |
| Utils.PowMod | attacks/single_key/londahl.py:29 | reducing the base modulo n does not change x^k mod n, so (2^b mod n)^k == 2^(b*k) (mod n) |
| Utils.Pow | attacks/single_key/londahl.py:28-29 | x^k over unbounded integers; `pow(2, k, n)` is Pow(2, k) % n (no ensures of its own; PowAdd, PowMul and PowMod state its laws) |
| Londahl.PhiApprox | attacks/single_key/londahl.py:18 | phi_approx = n - 2*isqrt(n) + 1 is never negative and is below n for n >= 1 |
| Londahl.TotientAtMostApprox | attacks/single_key/londahl.py:18 | for n = p*q the true totient (p-1)*(q-1) never exceeds phi_approx, so the search looks downwards from it |
| Londahl.BabyValue | attacks/single_key/londahl.py:22-25 | the baby-step residue z after k steps, 2^k mod n, always in [0, n) |
| Londahl.BabyValueNext | attacks/single_key/londahl.py:25 | z = (z * 2) % n keeps z == 2^i mod n from one baby step to the next |
| Londahl.LastBelow | attacks/single_key/londahl.py:24 | the index a table keeps for a residue z is the largest k below the count with 2^k mod n == z, or none when no such k exists |
| Londahl.LastBelowNext | attacks/single_key/londahl.py:24 | inserting the new residue at index i gives it index i and leaves every other key's index alone |
| Londahl.BabySteps | attacks/single_key/londahl.py:21-25 | the table's keys are exactly {2^i mod n : 0 <= i <= b}; each key maps to the largest such i, which is <= b and raises 2 to the key; at most b+1 entries |
| Londahl.GiantValue | attacks/single_key/londahl.py:28-35 | the giant-step value mu after k steps, mu0 * fac^k mod n, always in [0, n) |
| Londahl.GiantValueNext | attacks/single_key/londahl.py:35 | mu = (mu * fac) % n keeps mu == mu0 * fac^i mod n from one giant step to the next |
| Londahl.GiantSteps | attacks/single_key/londahl.py:31-37 | the loop stops at the SMALLEST i <= b whose mu is a table key and returns the stored index; with no hit it returns None after exactly b+1 steps |
| Londahl.FirstHit | attacks/single_key/londahl.py:31-37 | reference search: the smallest k in [from, b] whose giant value has a table index, paired with that index; None when no such k exists |
| Londahl.GiantStepsFindFirstHit | attacks/single_key/londahl.py:31-37 | against the baby-step table, the giant-step loop's result is the reference search's result |
| Londahl.GiantValueClosedForm | attacks/single_key/londahl.py:28-35 | with fac = 2^b mod n, the i-th giant value is mu0 * 2^(b*i) mod n |
| Londahl.HitCertifiesPhi | attacks/single_key/londahl.py:28-35 | when giant step i meets baby index j and i*b <= phi_approx, the recovered phi = phi_approx + j - i*b satisfies 2^phi == 1 (mod n) |
| Londahl.Roots | attacks/single_key/londahl.py:39-43 | a pair the roots step returns multiplies to n and is ordered root_low <= root_high |
| Londahl.OddGapMisses | attacks/single_key/londahl.py:40-42 | when m - isqrt(m^2 - 4n) is odd, the floor halves cannot multiply to n |
| Londahl.GatePairSum | attacks/single_key/londahl.py:40-42 | a pair that passes the product check sums to m = n - phi + 1 |
| Londahl.RootsSound | attacks/single_key/londahl.py:39-43 | a returned pair (p, q) has p*q == n, p + q == n - phi + 1 and (p-1)*(q-1) == phi |
| Londahl.RootsOfFactors | attacks/single_key/londahl.py:39-43 | if p <= q, p*q == n and (p-1)*(q-1) == phi, the roots step returns exactly (p, q) |
| Londahl.RootsExact | attacks/single_key/londahl.py:39-43 | the roots step returns (p, q) if and only if p <= q, p*q == n and (p-1)*(q-1) == phi |
| Londahl.CandidatePhi | attacks/single_key/londahl.py:33 | the totient candidate phi = phi_approx + (look_up[mu] - i*b) of a hit (no ensures of its own; HitCertifiesPhi and RecoveredTotient state what it satisfies) |
| Londahl.Recover | attacks/single_key/londahl.py:16-43 | reference outcome of close_factor; a returned pair multiplies to n and is ordered |
| Londahl.RecoverAtHit | attacks/single_key/londahl.py:31-43 | after the first hit (i, j), the outcome is the roots step applied to phi_approx + j - i*b |
| Londahl.RecoverWithoutHit | attacks/single_key/londahl.py:28-37 | with no inverse of 2^phi_approx, or no giant step meeting the table, the outcome is None |
| Londahl.RecoveredTotient | attacks/single_key/londahl.py:33-43 | after the first hit (i, j), a returned pair has product n and totient phi = phi_approx + j - i*b, and 2^phi == 1 (mod n) whenever i*b <= phi_approx |
| Londahl.RecoverFindsFactors | attacks/single_key/londahl.py:16-43 | when the first hit's phi is the true totient of n = p*q (p <= q), close_factor returns (p, q) |
| Londahl.HitExists | attacks/single_key/londahl.py:21-35 | if 2^phi == 1 (mod n) and phi <= phi_approx <= phi + b*b, the giant-step search meets the table at some i <= b |
| Londahl.GateRejects | attacks/single_key/londahl.py:39-43 | when the floor halves of m -/+ isqrt(m^2 - 4n) do not multiply to n, the roots step returns nothing |
| Londahl.Example143Spurious | attacks/single_key/londahl.py:16-43 | n = 143, b = 58: giant step 0 meets baby index 58, phi = 180, and close_factor returns nothing although the true totient 120 is in range |
| Londahl.CloseFactor | attacks/single_key/londahl.py:16-43 | the method returns exactly the reference outcome Recover(n, b); any pair it returns multiplies to n and is ordered |
| Londahl.Attack | attacks/single_key/londahl.py:49-61 | a private key comes back exactly when close_factor(n, 20000000) returns a pair; it is PrivateKey(p, q, e, n) with e and n unchanged and p*q == n |
| Londahl.Example143 | attacks/single_key/londahl.py:16-43 | n = 143, b = 2: phi_approx 122, the second giant step meets baby index 0, phi = 120, result (11, 13) |
| Londahl.Example143Inverse | attacks/single_key/londahl.py:28 | 2^122 mod 143 == 4, and its inverse modulo 143 is 36 |
| Londahl.Example143Search | attacks/single_key/londahl.py:31-35 | from mu0 = 36 with fac = 4, step 0 misses the table {1, 2, 4} and step 1 meets 1 = 2^0 |

## Left out

- The bodies of `isqrt` and `invmod`. They live in `lib/utils.py`, which is not part of this model, so each is modelled by its contract.
- Utils.Invmod: when `2^phi_approx mod n` has no inverse (`n` even), the library's behaviour is unknown (it may raise). The model returns no result.
- Utils.Invmod: the model takes the least non-negative inverse, the representative in [0, n). The library's choice of representative is not visible. It matters at giant step 0, where `mu in look_up` (line 32) compares mu with table keys that all lie in [0, n).
- Londahl.Roots: when the discriminant `m^2 - 4n` is negative (a spurious table hit), what `isqrt` does is up to the library. The model returns no result.
- `n <= 1`: the model requires `n > 1`. For `n = 0` the source divides by zero. For `n = 1` every residue is 0 modulo 1, so the source calls `invmod(0, 1)`, and the outcome depends on how the library's `invmod` treats modulus 1; not modelled.
- The search bound: `b` is a natural number. A negative `b` makes both source loops empty and is not modelled.
- The returned pair is not checked to be non-trivial. `(1, n)` passes the product check, as in the source.
- Euler's theorem is not proved. `HitExists` takes `2^phi == 1 (mod n)` for the true totient phi = (p-1)(q-1) as a hypothesis rather than deriving it from p and q being prime.
- There is no theorem that close primes are always recovered, because it is false: the FIRST hit can yield a wrong exponent. `Example143Spurious` exhibits this for n = 143 = 11 * 13 and b = 58: giant step 0 already meets the table at index 58, giving phi = 180. The gate then rejects the roots (-31, -5), even though the true totient 120 lies within the search window. What is proved instead:
  - `TotientAtMostApprox`: the totient lies at or below the approximation.
  - `HitExists`: whenever some phi with 2^phi == 1 (mod n) lies within b*b below the approximation, a hit exists.
  - `HitCertifiesPhi`: every hit yields an exponent phi with 2^phi == 1 (mod n).
  - `RootsExact`: the roots step is exact.
  - `RecoverFindsFactors`: a first hit that yields the true totient returns the factors.
- The `timeout(...)` context manager and the `TimeoutError` handling (attacks/single_key/londahl.py:50, 62-64): wall-clock cancellation, not modellable logic.
- The `tqdm` progress bars (attacks/single_key/londahl.py:23, 31). They do not affect results, and the loops are plain loops.
- `attack`'s result tuple. Its second element is always `None`, so `(priv_key, None)` / `(None, None)` is modelled as `Some(PrivateKey)` / `None`. The unused `cipher` parameter and the `int(...)` conversions are dropped.
- `PrivateKey` / `PublicKey` construction from key files, the `AbstractAttack` base class and its `speed` field, and `test()` with its embedded PEM key (attacks/single_key/londahl.py:11-14, 66-77). This is key parsing and dispatch glue.
- The solver-based attack `attacks/single_key/z3_solver.py`: it wraps an external SMT solver whose answers cannot be modelled.
- Londahl.GiantSteps: the iteration count `steps` is a ghost out-parameter. It records the number of giant steps, but no program value depends on it.
- Integer widths: Python integers are unbounded, like Dafny's, so no wrap-around is modelled.
