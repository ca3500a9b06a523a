/** The deterministic workloads that the harness times: naive recursive
    Fibonacci and the sieve of Eratosthenes. */
module Kernels {
  import opened Common

  // ---------------------------------------------------------------------
  // fibi
  // ---------------------------------------------------------------------

  /** `fibi(n)`: n itself when n <= 1 (negative arguments included),
      otherwise the sum of the two preceding values. */
  function Fibi(n: int): (r: int)
    ensures n >= 0 ==> r >= 0
    ensures n >= 2 ==> r >= 1
    decreases n
  {
    if n <= 1 then n else Fibi(n - 1) + Fibi(n - 2)
  }

  /** Fibonacci by iteration over pairs, an independent reference for Fibi:
      returns (F(n), F(n + 1)). */
  function FibPair(n: nat): (int, int)
  {
    if n == 0 then (0, 1)
    else
      var (a, b) := FibPair(n - 1);
      (b, a + b)
  }

  lemma {:induction false} FibiMatchesPairs(n: nat)
    ensures FibPair(n) == (Fibi(n), Fibi(n + 1))
  {
    if n > 0 {
      FibiMatchesPairs(n - 1);
    }
  }

  /** On non-negative arguments fibi never decreases. */
  lemma {:induction false} FibiMonotone(m: int, n: int)
    requires 0 <= m <= n
    ensures Fibi(m) <= Fibi(n)
    decreases n - m
  {
    if m < n {
      FibiMonotone(m, n - 1);
      assert Fibi(n - 1) <= Fibi(n) by {
        if n >= 2 {
          assert Fibi(n) == Fibi(n - 1) + Fibi(n - 2);
        }
      }
    }
  }

  /** From 2 upwards fibi strictly increases. */
  lemma FibiStrictlyIncreasing(n: int)
    requires n >= 2
    ensures Fibi(n) < Fibi(n + 1)
  {
  }

  // ---------------------------------------------------------------------
  // sieve
  // ---------------------------------------------------------------------

  /** d is a positive divisor of m. */
  predicate Divides(d: int, m: int)
  {
    d > 0 && m % d == 0
  }

  ghost predicate IsPrime(p: int)
  {
    p >= 2 && forall d :: 2 <= d < p ==> !Divides(d, p)
  }

  /** j has a divisor d with 2 <= d < i and d * d <= j: the sieve has crossed
      j off by the time its outer loop reaches i. */
  ghost predicate CrossedOff(j: int, i: int)
  {
    exists d :: 2 <= d < i && d * d <= j && Divides(d, j)
  }

  predicate StrictlyIncreasing(s: seq<int>)
  {
    forall a, b :: 0 <= a < b < |s| ==> s[a] < s[b]
  }

  /** -i < i * x < i forces x = 0. */
  lemma MulSmallIsZero(i: int, x: int)
    requires i > 0 && -i < i * x < i
    ensures x == 0
  {
  }

  /** Euclidean remainder of i * q + r for 0 <= r < i. */
  lemma ModUnique(i: int, q: int, r: int)
    requires i > 0 && 0 <= r < i
    ensures (i * q + r) % i == r
  {
    var j := i * q + r;
    assert j == i * (j / i) + j % i;
    assert i * (q - j / i) == j % i - r;
    MulSmallIsZero(i, q - j / i);
  }

  /** Divisibility is transitive. */
  lemma DividesTrans(d: int, i: int, k: int)
    requires Divides(d, i) && Divides(i, k)
    ensures Divides(d, k)
  {
    var p, q := i / d, k / i;
    assert i == d * p;
    assert k == i * q;
    assert k == d * (p * q);
    ModUnique(d, p * q, 0);
  }

  /** The successor multiple of i. */
  lemma NextMultiple(i: int, j: int)
    requires i > 0 && j % i == 0
    ensures (j + i) % i == 0
  {
    var q := j / i;
    assert j + i == i * (q + 1);
    ModUnique(i, q + 1, 0);
  }

  /** No multiple of i lies strictly between two consecutive multiples. */
  lemma NoMultipleBetween(i: int, j: int, k: int)
    requires i > 0 && j % i == 0 && j < k < j + i
    ensures k % i != 0
  {
    var q := j / i;
    assert k == i * q + (k - j);
    ModUnique(i, q, k - j);
  }

  /** Cancelling a positive factor keeps a strict order. */
  lemma MulCancelLess(d: int, c: int, e: int)
    requires d > 0 && d * c < d * e
    ensures c < e
  {
  }

  /** Multiplying by a non-negative factor keeps an order. */
  lemma MulMonotone(c: int, x: int, y: int)
    requires c >= 0 && x <= y
    ensures c * x <= c * y
  {
  }

  /** A composite j has a divisor no larger than its square root: d itself,
      or its cofactor j / d. */
  lemma SmallDivisor(j: int, d: int) returns (e: int)
    requires 2 <= d < j && Divides(d, j)
    ensures 2 <= e && e * e <= j && Divides(e, j)
  {
    var c := j / d;
    assert j == d * c;
    if d * d <= j {
      e := d;
    } else {
      MulCancelLess(d, c, d);
      MulCancelLess(d, 1, c);
      MulMonotone(c, c, d);
      assert c * d == j;
      ModUnique(c, d, 0);
      e := c;
    }
  }

  /** Squares of non-negative numbers are ordered as the numbers are. */
  lemma SquareOrder(e: int, i: int)
    requires e >= 0 && i >= 0 && e * e < i * i
    ensures e < i
  {
  }

  /** Once i * i exceeds j, j is crossed off exactly when it is composite. */
  lemma CrossedOffIffComposite(j: int, i: int)
    requires 2 <= j && j < i * i && i >= 2
    ensures CrossedOff(j, i) <==> !IsPrime(j)
  {
    if CrossedOff(j, i) {
      var d :| 2 <= d < i && d * d <= j && Divides(d, j);
      MulCancelLess(d, 1, d);
      assert 2 <= d < j && Divides(d, j);
    }
    if !IsPrime(j) {
      var d :| 2 <= d < j && Divides(d, j);
      var e := SmallDivisor(j, d);
      SquareOrder(e, i);
      assert 2 <= e < i && e * e <= j && Divides(e, j);
    }
  }

  /** A multiple j >= i * i of a crossed-off i is itself crossed off by the
      divisor e that crossed off i. */
  lemma CrossedOffThroughDivisor(e: int, i: int, j: int)
    requires 2 <= e < i && e * e <= i && Divides(e, i)
    requires i * i <= j && Divides(i, j)
    ensures CrossedOff(j, i)
  {
    DividesTrans(e, i, j);
    MulMonotone(i, 1, i);
    assert 2 <= e < i && e * e <= j && Divides(e, j);
  }

  /** Crossing off the multiples of i from i * i upwards moves the outer
      loop from i to i + 1; when i is itself crossed off, its multiples are
      already crossed off by a smaller divisor. */
  lemma CrossedOffStep(j: int, i: int, marksI: bool)
    requires i >= 2 && j >= 0
    requires marksI <==> !CrossedOff(i, i)
    ensures CrossedOff(j, i + 1) <==>
      CrossedOff(j, i) || (marksI && i * i <= j && Divides(i, j))
  {
    if CrossedOff(j, i + 1) {
      var d :| 2 <= d < i + 1 && d * d <= j && Divides(d, j);
      if d < i {
        assert 2 <= d < i && d * d <= j && Divides(d, j);
      } else if !marksI {
        var e :| 2 <= e < i && e * e <= i && Divides(e, i);
        CrossedOffThroughDivisor(e, i, j);
      }
    }
    if i * i <= j && Divides(i, j) {
      assert 2 <= i < i + 1 && i * i <= j && Divides(i, j);
    }
  }

  /** The marking phase of `sieve(n)` for n >= 0: a fresh array of n + 1
      flags, all true, in which the multiples of every i with i * i <= n are
      set to false from i * i upwards, for each i still marked. Afterwards a
      flag at j >= 2 is still set exactly when j is prime. */
  method MarkComposites(n: nat) returns (a: array<bool>)
    ensures fresh(a) && a.Length == n + 1
    ensures a[0] && (n >= 1 ==> a[1])
    ensures forall j :: 2 <= j <= n ==> (a[j] <==> IsPrime(j))
  {
    a := new bool[n + 1](_ => true);
    var i := 2;
    while i * i <= n
      invariant i >= 2
      invariant forall j :: 0 <= j <= n ==> (a[j] <==> !CrossedOff(j, i))
      decreases n - i
    {
      assert i < i * i;
      ghost var before := a[..];
      if a[i] {
        var j := i * i;
        ModUnique(i, i, 0);
        while j <= n
          invariant i * i <= j && j % i == 0
          invariant forall k :: 0 <= k <= n ==>
            (a[k] <==> before[k] && !(i * i <= k < j && Divides(i, k)))
          decreases n - j
        {
          a[j] := false;
          NextMultiple(i, j);
          forall k | j < k < j + i
            ensures !Divides(i, k)
          {
            NoMultipleBetween(i, j, k);
          }
          j := j + i;
        }
      }
      forall j | 0 <= j <= n
        ensures a[j] <==> !CrossedOff(j, i + 1)
      {
        CrossedOffStep(j, i, before[i]);
      }
      i := i + 1;
    }
    forall j | 2 <= j <= n
      ensures a[j] <==> IsPrime(j)
    {
      CrossedOffIffComposite(j, i);
    }
  }

  /** The final `reduce` of `sieve`: the indices greater than 1 whose flag
      is set, in increasing order. */
  function CollectMarked(marks: seq<bool>): (primes: seq<int>)
    ensures forall x :: x in primes <==> 1 < x < |marks| && marks[x]
    ensures StrictlyIncreasing(primes)
    ensures forall k :: 0 <= k < |primes| ==> primes[k] < |marks|
  {
    if marks == [] then []
    else
      var num := |marks| - 1;
      CollectMarked(marks[..num]) + (if marks[num] && num > 1 then [num] else [])
  }

  /** The largest length `new Array(len)` accepts: 2^32 - 1. */
  const MaxArrayLength: int := 0xFFFF_FFFF

  /** `sieve(n)`: the primes p with 2 <= p <= n in increasing order.
      `new Array(n + 1)` throws when n + 1 is negative or above
      MaxArrayLength; for n = -1 the array is empty and so is the result. */
  method Sieve(n: int) returns (r: Result<seq<int>>)
    ensures r.Failure? <==> n < -1 || n + 1 > MaxArrayLength
    ensures r.Failure? ==> r.error == InvalidArrayLength
    ensures r.Success? ==> StrictlyIncreasing(r.value)
    ensures r.Success? ==> forall p :: p in r.value <==> 2 <= p <= n && IsPrime(p)
  {
    if n < -1 || n + 1 > MaxArrayLength {
      return Failure(InvalidArrayLength);
    }
    if n == -1 {
      return Success(CollectMarked([]));
    }
    var a := MarkComposites(n);
    r := Success(CollectMarked(a[..]));
  }
}
