/**
 * Prime factorisation by trial division (`primes` in plot-elf.py).
 *
 * The factorisation is specified by `TrialDivision`, a recursive function that
 * follows the two nested loops of the source step by step: the inner loop is
 * `Multiplicity`/`Cofactor` (how often `d` is divided out and what is left),
 * the outer loop is the recursion on `d`.  `PrimeFactors` is the loop itself,
 * proved to compute `Primes(n)`, and `PrimesCorrect` proves what the result
 * means: ascending primes whose product is `n`.
 */
module Factorisation {

  /** p is prime: at least 2 and no divisor strictly between 1 and p. */
  predicate IsPrime(p: int)
  {
    p >= 2 && forall k :: 2 <= k < p ==> p % k != 0
  }

  /** No k with 2 <= k < d divides n (what trial division has ruled out before d). */
  predicate NoDivisorBelow(n: int, d: int)
  {
    forall k :: 2 <= k < d ==> n % k != 0
  }

  function Product(s: seq<int>): int
  {
    if s == [] then 1 else s[0] * Product(s[1..])
  }

  predicate Ascending(s: seq<int>)
  {
    forall i, j :: 0 <= i < j < |s| ==> s[i] <= s[j]
  }

  function Pow(d: int, e: nat): int
  {
    if e == 0 then 1 else d * Pow(d, e - 1)
  }

  /** `count` copies of `d`. */
  function Repeat(d: int, count: nat): seq<int>
  {
    if count == 0 then [] else [d] + Repeat(d, count - 1)
  }

  /** The set of values in a list (Python's `set(...)`). */
  function Elems(s: seq<int>): set<int>
  {
    set x | x in s
  }

  /** How often the inner loop divides `d` out of `n`. */
  function Multiplicity(n: int, d: int): nat
    requires n >= 1 && d >= 2
    decreases n
  {
    if n % d == 0 then
      DivStep(n, d);
      1 + Multiplicity(n / d, d)
    else 0
  }

  /** What the inner loop leaves of `n`: `n` with every factor `d` divided out. */
  function Cofactor(n: int, d: int): (m: int)
    requires n >= 1 && d >= 2
    ensures 1 <= m <= n && m % d != 0
    decreases n
  {
    if n % d == 0 then
      DivStep(n, d);
      Cofactor(n / d, d)
    else n
  }

  /**
   * The list the two loops of `primes` append, starting from `n` and
   * divisor `d`: while `d*d <= n`, divide `d` out as often as it goes, then
   * move on to `d + 1`; at the end append what is left if it exceeds 1.
   */
  function TrialDivision(n: int, d: int): seq<int>
    requires d >= 2
    decreases n - d
  {
    if d * d <= n then
      SquareAtLeast(d);
      Repeat(d, Multiplicity(n, d)) + TrialDivision(Cofactor(n, d), d + 1)
    else if n > 1 then [n]
    else []
  }

  /** `primes(n)`. */
  function Primes(n: int): seq<int>
  {
    TrialDivision(n, 2)
  }

  lemma DivStep(n: int, d: int)
    requires n >= 1 && d >= 2 && n % d == 0
    ensures 1 <= n / d < n && n == d * (n / d)
  {
  }

  lemma SquareAtLeast(d: int)
    requires d >= 2
    ensures d < d * d
  {
  }

  /**
   * What is still to be appended while the inner loop divides out `d`:
   * the copies of `d` left in `n`, then trial division from `d + 1` on
   * what remains.
   */
  function Pending(n: int, d: int): seq<int>
    requires n >= 1 && d >= 2
  {
    Repeat(d, Multiplicity(n, d)) + TrialDivision(Cofactor(n, d), d + 1)
  }

  /** While `d*d <= n`, trial division from `d` is the inner loop's pending list. */
  lemma OuterStep(n: int, d: int)
    requires d >= 2 && d * d <= n
    ensures d < n && TrialDivision(n, d) == Pending(n, d)
  {
    SquareAtLeast(d);
  }

  /** One pass of the inner loop appends `d` and divides it out. */
  lemma InnerStep(prefix: seq<int>, n: int, d: int)
    requires n >= 1 && d >= 2 && n % d == 0
    ensures 1 <= n / d < n
    ensures prefix + Pending(n, d) == (prefix + [d]) + Pending(n / d, d)
  {
    DivStep(n, d);
    assert Pending(n, d) == [d] + Pending(n / d, d);
  }

  /** Once `d` no longer divides `n`, the pending list is trial division from `d + 1`. */
  lemma InnerDone(n: int, d: int)
    requires n >= 1 && d >= 2 && n % d != 0
    ensures Pending(n, d) == TrialDivision(n, d + 1)
  {
    assert Repeat(d, 0) == [];
  }

  /**
   * The loop of `primes`, as written: the outer loop runs while `d*d <= n`,
   * the inner one appends `d` and divides it out while it divides `n`.
   */
  method PrimeFactors(n0: int) returns (primfac: seq<int>)
    ensures primfac == Primes(n0)
  {
    var n := n0;
    primfac := [];
    var d := 2;
    while d * d <= n
      invariant d >= 2
      invariant primfac + TrialDivision(n, d) == Primes(n0)
      decreases n - d
    {
      OuterStep(n, d);
      ghost var before := n;
      while n % d == 0
        invariant 1 <= n <= before
        invariant primfac + Pending(n, d) == Primes(n0)
        decreases n
      {
        InnerStep(primfac, n, d);
        primfac := primfac + [d];
        n := n / d;
      }
      InnerDone(n, d);
      d := d + 1;
    }
    assert TrialDivision(n, d) == if n > 1 then [n] else [];
    if n > 1 {
      primfac := primfac + [n];
    } else {
      assert primfac + [] == primfac;
    }
  }

  lemma {:induction false} ProductAppend(a: seq<int>, b: seq<int>)
    ensures Product(a + b) == Product(a) * Product(b)
    decreases |a|
  {
    if a == [] {
      assert a + b == b;
    } else {
      assert (a + b)[1..] == a[1..] + b;
      ProductAppend(a[1..], b);
      calc {
        Product(a + b);
        a[0] * Product(a[1..] + b);
        a[0] * (Product(a[1..]) * Product(b));
        (a[0] * Product(a[1..])) * Product(b);
      }
    }
  }

  lemma {:induction false} ProductRepeat(d: int, count: nat)
    ensures Product(Repeat(d, count)) == Pow(d, count)
  {
    if count > 0 {
      ProductRepeat(d, count - 1);
    }
  }

  /** The inner loop loses nothing: `n` is `d` to the multiplicity times the cofactor. */
  lemma {:induction false} CofactorSplits(n: int, d: int)
    requires n >= 1 && d >= 2
    ensures n == Pow(d, Multiplicity(n, d)) * Cofactor(n, d)
    decreases n
  {
    if n % d == 0 {
      DivStep(n, d);
      var m := n / d;
      CofactorSplits(m, d);
      var p := Pow(d, Multiplicity(m, d));
      assert Pow(d, Multiplicity(n, d)) == d * p;
      Associate(d, p, Cofactor(m, d));
    }
  }

  lemma Distribute(a: int, b: int, c: int)
    ensures a * (b + c) == a * b + a * c
  {
  }

  lemma Associate(a: int, b: int, c: int)
    ensures a * (b * c) == (a * b) * c
    ensures a * b == b * a
  {
  }

  /** A multiple of k leaves no remainder, and dividing it by k undoes the product. */
  lemma MulMod(k: int, t: int)
    requires k >= 1
    ensures (k * t) % k == 0 && (k * t) / k == t
  {
    var a := k * t;
    var q, r := a / k, a % k;
    assert a == k * q + r;
    var x := t - q;
    assert k * x == r;
    assert x >= 1 ==> k * x >= k;
    assert x <= -1 ==> k * x <= -k;
  }

  lemma MulMono(a: int, b: int, c: int, e: int)
    requires 0 <= a <= b && 0 <= c <= e
    ensures a * c <= b * e
  {
    assert a * c <= b * c;
  }

  /** Divisibility is transitive. */
  lemma DividesTrans(a: int, b: int, k: int)
    requires k >= 1 && b >= 1 && a % b == 0 && b % k == 0
    ensures a % k == 0
  {
    var p := a / b;
    var q := b / k;
    assert a == b * p;
    assert b == k * q;
    assert a == k * (q * p);
    MulMod(k, q * p);
  }

  /** A divisor of the cofactor divides `n`. */
  lemma {:induction false} CofactorDivides(n: int, d: int)
    requires n >= 1 && d >= 2
    ensures n % Cofactor(n, d) == 0
  {
    CofactorSplits(n, d);
    var m := Cofactor(n, d);
    assert n == m * Pow(d, Multiplicity(n, d));
    MulMod(m, Pow(d, Multiplicity(n, d)));
  }

  /** Dividing out `d` keeps every smaller divisor ruled out and rules out `d`. */
  lemma CofactorNoDivisor(n: int, d: int)
    requires n >= 1 && d >= 2 && NoDivisorBelow(n, d)
    ensures NoDivisorBelow(Cofactor(n, d), d + 1)
  {
    var m := Cofactor(n, d);
    CofactorDivides(n, d);
    forall k | 2 <= k < d + 1
      ensures m % k != 0
    {
      if k < d && m % k == 0 {
        DividesTrans(n, m, k);
      }
    }
  }

  /** A divisor reached by trial division that divides `n` is prime. */
  lemma DivisorReachedIsPrime(n: int, d: int)
    requires n >= 1 && d >= 2 && NoDivisorBelow(n, d) && n % d == 0
    ensures IsPrime(d)
  {
    forall k | 2 <= k < d
      ensures d % k != 0
    {
      if d % k == 0 {
        DividesTrans(n, d, k);
      }
    }
  }

  /** A divisor of `n` strictly between 1 and `n` yields one below `d` when `d*d > n`. */
  lemma SmallDivisorExists(n: int, k: int, d: int)
    requires 2 <= k < n && n % k == 0 && d >= 2 && d * d > n
    ensures exists j :: 2 <= j < d && n % j == 0
  {
    if k >= d {
      var m := n / k;
      assert n == k * m;
      assert m <= 1 ==> k * m <= k;
      if m >= d {
        MulMono(d, k, d, m);
      }
      MulMod(m, k);
      assert 2 <= m < d && n % m == 0;
    }
  }

  /** What is left once `d*d > n` has no divisor below `d`, so it is prime. */
  lemma RemainderIsPrime(n: int, d: int)
    requires n > 1 && d >= 2 && d * d > n && NoDivisorBelow(n, d)
    ensures IsPrime(n) && n >= d
  {
    forall k | 2 <= k < n
      ensures n % k != 0
    {
      if n % k == 0 {
        SmallDivisorExists(n, k, d);
      }
    }
    assert n % n == 0;
  }

  lemma {:induction false} RepeatAll(d: int, count: nat)
    ensures forall x :: x in Repeat(d, count) ==> x == d
  {
    if count > 0 {
      RepeatAll(d, count - 1);
    }
  }

  /** The pending list multiplies back to `n` when the rest of trial division multiplies back to the cofactor. */
  lemma PendingProduct(n: int, d: int)
    requires n >= 1 && d >= 2
    requires Product(TrialDivision(Cofactor(n, d), d + 1)) == Cofactor(n, d)
    ensures Product(Pending(n, d)) == n
  {
    var c := Multiplicity(n, d);
    ProductAppend(Repeat(d, c), TrialDivision(Cofactor(n, d), d + 1));
    ProductRepeat(d, c);
    CofactorSplits(n, d);
  }

  /** The pending list holds primes at least `d` when the rest of trial division holds primes above `d`. */
  lemma PendingPrimes(n: int, d: int)
    requires n >= 1 && d >= 2 && NoDivisorBelow(n, d)
    requires forall x :: x in TrialDivision(Cofactor(n, d), d + 1) ==> IsPrime(x) && x >= d + 1
    ensures forall x :: x in Pending(n, d) ==> IsPrime(x) && x >= d
  {
    var c := Multiplicity(n, d);
    var front, rest := Repeat(d, c), TrialDivision(Cofactor(n, d), d + 1);
    RepeatAll(d, c);
    if c > 0 {
      assert n % d == 0;
      DivisorReachedIsPrime(n, d);
    }
    forall x | x in front + rest
      ensures IsPrime(x) && x >= d
    {
      if x in front {
        assert c > 0;
      }
    }
  }

  /** Copies of `d` followed by an ascending list of values above `d` are ascending. */
  lemma AscendingJoin(d: int, c: nat, rest: seq<int>)
    requires Ascending(rest) && forall x :: x in rest ==> x > d
    ensures Ascending(Repeat(d, c) + rest)
  {
    var front := Repeat(d, c);
    RepeatAll(d, c);
    forall i, j | 0 <= i < j < |front + rest|
      ensures (front + rest)[i] <= (front + rest)[j]
    {
      if j < |front| {
        assert front[i] in front && front[j] in front;
      } else if i < |front| {
        assert front[i] in front;
        assert rest[j - |front|] in rest;
      }
    }
  }

  /**
   * From any point of trial division where no divisor below `d` is left in
   * `n`, the rest of the list is ascending, made of primes at least `d`, and
   * multiplies back to `n`.
   */
  lemma {:induction false} TrialDivisionSound(n: int, d: int)
    requires n >= 1 && d >= 2 && NoDivisorBelow(n, d)
    ensures Product(TrialDivision(n, d)) == n
    ensures forall x :: x in TrialDivision(n, d) ==> IsPrime(x) && x >= d
    ensures Ascending(TrialDivision(n, d))
    decreases n - d
  {
    if d * d <= n {
      OuterStep(n, d);
      var m := Cofactor(n, d);
      CofactorNoDivisor(n, d);
      TrialDivisionSound(m, d + 1);
      PendingProduct(n, d);
      PendingPrimes(n, d);
      AscendingJoin(d, Multiplicity(n, d), TrialDivision(m, d + 1));
    } else if n > 1 {
      RemainderIsPrime(n, d);
    }
  }

  /**
   * `primes(n)` is the prime factorisation of `n`: for n >= 2 its entries are
   * primes, in ascending order, whose product is `n`; for n <= 1 it is empty.
   */
  lemma PrimesCorrect(n: int)
    ensures n <= 1 ==> Primes(n) == []
    ensures n >= 2 ==> Product(Primes(n)) == n
    ensures n >= 2 ==> forall x :: x in Primes(n) ==> IsPrime(x)
    ensures n >= 2 ==> Ascending(Primes(n))
  {
    if n >= 2 {
      TrialDivisionSound(n, 2);
    }
  }
}
