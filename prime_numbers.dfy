/** Primality by trial division and the two prime lists of primeNumbers.py. */
module PrimeNumbers {

  /** `n` is a prime: at least 2 and without a divisor strictly between 1
      and `n`. */
  predicate Prime(n: int)
  {
    n >= 2 && forall d :: 2 <= d < n ==> n % d != 0
  }

  /** `math.isqrt(n)`, the integer square root. */
  function Isqrt(n: nat): (r: nat)
    ensures r * r <= n < (r + 1) * (r + 1)
  {
    if n == 0 then 0
    else
      var r := Isqrt(n - 1);
      if (r + 1) * (r + 1) <= n then
        assert (r + 2) * (r + 2) == (r + 1) * (r + 1) + 2 * r + 3;
        r + 1
      else r
  }

  /** Product bounds that the divisor argument needs. */
  lemma MulAtLeast(a: int, b: int, c: int)
    requires 0 <= c <= a && c <= b
    ensures c * c <= a * b
  {
    assert c * c <= a * c;
    assert a * c <= a * b;
  }

  lemma MulSign(q: int, e: int)
    ensures q > 0 && e >= 1 ==> q * e >= q
    ensures q > 0 && e <= -1 ==> q * e <= -q
  {
    if q > 0 && e >= 1 {
      assert q * e == q * (e - 1) + q;
    }
    if q > 0 && e <= -1 {
      assert q * e == q * (e + 1) - q;
    }
  }

  /** A multiple of `q` leaves no remainder on division by `q`. */
  lemma ModOfMultiple(q: int, d: int)
    requires q > 0
    ensures (q * d) % q == 0
  {
    var m := q * d;
    var k := m / q;
    assert m == q * k + m % q;
    assert q * (d - k) == m % q;
    MulSign(q, d - k);
  }

  /** A divisor `d` of `n` strictly between 1 and `n` has a cofactor that is
      a divisor too, and lies in the same range. */
  lemma Cofactor(n: int, d: int) returns (q: int)
    requires 2 <= d < n && n % d == 0
    ensures 2 <= q && d * q == n && n % q == 0
  {
    q := n / d;
    assert n == d * q;
    ModOfMultiple(q, d);
    assert q * d == d * q;
  }

  /** No divisor in `2..isqrt(n)` means no divisor at all: a divisor above
      the square root has a cofactor below it. */
  lemma TrialDivisionSuffices(n: int, r: nat)
    requires n >= 2 && r * r <= n < (r + 1) * (r + 1)
    requires forall d :: 2 <= d <= r ==> n % d != 0
    ensures Prime(n)
  {
    forall d | 2 <= d < n ensures n % d != 0 {
      if n % d == 0 {
        var q := Cofactor(n, d);
        MulAtLeast(d, q, r + 1);
      }
    }
  }

  /** A divisor at most the square root lies below `n` itself. */
  lemma SmallDivisorBelow(n: int, i: int)
    requires 2 <= i && i * i <= n
    ensures i < n
  {
    MulAtLeast(i, i, 2);
    assert i * i >= 2 * i;
  }

  /** `is_prime(n)`: the loop over `range(2, isqrt(n) + 1)` with an early
      return at the first divisor. */
  method IsPrime(n: int) returns (b: bool)
    ensures b <==> Prime(n)
  {
    if n < 2 {
      return false;
    }
    var bound := Isqrt(n);
    for i := 2 to bound + 1
      invariant forall d :: 2 <= d < i ==> n % d != 0
    {
      if n % i == 0 {
        MulAtLeast(bound, bound, i);
        SmallDivisorBelow(n, i);
        return false;
      }
    }
    TrialDivisionSuffices(n, bound);
    return true;
  }

  /** `[x for x in range(lo, hi) if is_prime(x)]`. */
  function PrimesIn(lo: int, hi: int): (r: seq<int>)
    ensures forall x :: x in r <==> lo <= x < hi && Prime(x)
    ensures forall i, j :: 0 <= i < j < |r| ==> r[i] < r[j]
    ensures forall i :: 0 <= i < |r| ==> lo <= r[i] < hi
    decreases hi - lo
  {
    if lo >= hi then []
    else
      var rest := PrimesIn(lo + 1, hi);
      if Prime(lo) then [lo] + rest else rest
  }

  /** The test inside `primes_under_n`: no `y` in `2..int(x ** 0.5)` divides
      `x`, with the float square root read as `isqrt`. */
  predicate PassesTrial(x: nat)
  {
    forall y :: 2 <= y <= Isqrt(x) ==> x % y != 0
  }

  /** The trial test accepts exactly the primes among the numbers from 2. */
  lemma PassesTrialIsPrime(x: nat)
    requires x >= 2
    ensures PassesTrial(x) <==> Prime(x)
  {
    var r := Isqrt(x);
    if PassesTrial(x) {
      TrialDivisionSuffices(x, r);
    } else {
      var y :| 2 <= y <= r && x % y == 0;
      MulAtLeast(r, r, y);
      SmallDivisorBelow(x, y);
    }
  }

  /** The comprehension of `primes_under_n` over `range(lo, hi)`. */
  function TrialFilter(lo: nat, hi: int): seq<int>
    decreases hi - lo
  {
    if lo >= hi then []
    else (if PassesTrial(lo) then [lo] else []) + TrialFilter(lo + 1, hi)
  }

  lemma {:induction false} TrialFilterPrimes(lo: nat, hi: int)
    requires lo >= 2
    ensures TrialFilter(lo, hi) == PrimesIn(lo, hi)
    decreases hi - lo
  {
    if lo < hi {
      PassesTrialIsPrime(lo);
      TrialFilterPrimes(lo + 1, hi);
    }
  }

  /** `primes_under_n(n)`. */
  function PrimesUnder(n: int): seq<int>
  {
    TrialFilter(2, n + 1)
  }

  /** `primes_under_n(n)` lists, in increasing order, exactly the primes from
      2 to `n`: the bound is inclusive. */
  lemma PrimesUnderSpec(n: int)
    ensures forall x :: x in PrimesUnder(n) <==> 2 <= x <= n && Prime(x)
    ensures forall i, j :: 0 <= i < j < |PrimesUnder(n)| ==> PrimesUnder(n)[i] < PrimesUnder(n)[j]
  {
    TrialFilterPrimes(2, n + 1);
  }

  /** `s[:n]` with Python's reading of a negative bound. */
  function Take(s: seq<int>, n: int): (r: seq<int>)
    ensures |r| <= |s|
    ensures r == s[..|r|]
    ensures n >= 0 ==> |r| == if n < |s| then n else |s|
    ensures n < 0 ==> |r| == if |s| + n < 0 then 0 else |s| + n
  {
    if n >= 0 then (if n < |s| then s[..n] else s)
    else if |s| + n < 0 then [] else s[..|s| + n]
  }

  /** A prefix of an increasing sequence keeps every element up to its own
      last one. */
  lemma PrefixKeepsSmaller(all: seq<int>, k: nat)
    requires k <= |all|
    requires forall i, j :: 0 <= i < j < |all| ==> all[i] < all[j]
    ensures forall p :: p in all && k > 0 && p <= all[k - 1] ==> p in all[..k]
  {
    forall p | p in all && k > 0 && p <= all[k - 1] ensures p in all[..k] {
      var m :| 0 <= m < |all| && all[m] == p;
      assert all[..k][m] == p;
    }
  }

  function Min(a: int, b: int): int
  {
    if a < b then a else b
  }

  function Max(a: int, b: int): int
  {
    if a < b then b else a
  }

  /** `get_n_primes(n)`: the primes below `n * (n + 1)`, cut to `n`. */
  function GetNPrimes(n: int): (r: seq<int>)
    ensures forall i :: 0 <= i < |r| ==> Prime(r[i])
    ensures forall i, j :: 0 <= i < j < |r| ==> r[i] < r[j]
    ensures n >= 0 ==> |r| <= n
    ensures forall p :: Prime(p) && r != [] && p <= r[|r| - 1] ==> p in r
    ensures 0 <= n && |r| < n ==> forall p :: Prime(p) && p < n * (n + 1) ==> p in r
    ensures forall i :: 0 <= i < |r| ==> r[i] < n * (n + 1)
    ensures n >= 0 ==> |r| == Min(n, |PrimesIn(2, n * (n + 1))|)
    ensures n < 0 ==> |r| == Max(0, |PrimesIn(2, n * (n + 1))| + n)
  {
    var bound := n * (n + 1);
    var all := PrimesIn(2, bound);
    var r := Take(all, n);
    assert 0 <= n && |r| < n ==> r == all;
    PrefixKeepsSmaller(all, |r|);
    r
  }

  /** For `n = 1` the range `range(2, 2)` is empty, so no prime comes back. */
  lemma GetOnePrime()
    ensures GetNPrimes(1) == []
  {
  }

  /** 2, 3 and 5 are prime; 4 is not. */
  lemma SmallPrimes()
    ensures Prime(2) && Prime(3) && !Prime(4) && Prime(5)
  {
    TrialDivisionSuffices(2, 1);
    TrialDivisionSuffices(3, 1);
    TrialDivisionSuffices(5, 2);
    assert 4 % 2 == 0;
  }

  /** The primes in `range(2, 6)`. */
  lemma PrimesToSix()
    ensures PrimesIn(2, 6) == [2, 3, 5]
  {
    SmallPrimes();
    assert PrimesIn(6, 6) == [];
    assert PrimesIn(5, 6) == [5];
    assert PrimesIn(4, 6) == [5];
    assert PrimesIn(3, 6) == [3, 5];
  }

  /** For `n = 2` the primes below 6 are 2, 3 and 5, of which the first two
      come back. */
  lemma GetTwoPrimes()
    ensures GetNPrimes(2) == [2, 3]
  {
    PrimesToSix();
    assert Take([2, 3, 5], 2) == [2, 3];
  }
}
