/**
 * The colour step (`get_optimal_color_division`) and the palette index it
 * feeds (`(i * division) % num_parts` in `colorize_data`).
 *
 * `OptimalColorDivision` is the function as written.  Its loop never changes
 * `division`, so it returns on the first test or never returns at all; the
 * model therefore requires `StepTestPasses`, which fails exactly for the
 * part counts where the source hangs.  The lemmas below give examples of
 * such counts and show that the step it does return need not be coprime
 * with the part count (so colours can repeat, against what the docstring
 * promises).  `CoprimeColorDivision` is the corrected
 * search, which always terminates and whose palette indices never repeat.
 */
module ColorStep {
  import opened Factorisation

  /**
   * `int((num_colors - 1) / 3)`: Python divides as floating point and `int`
   * truncates toward zero, so 0 colours give 0, not -1.
   */
  function Candidate(numColors: nat): (c: nat)
    ensures numColors == 0 ==> c == 0
    ensures numColors > 0 ==> 3 * c <= numColors - 1 < 3 * c + 3
  {
    if numColors == 0 then 0 else (numColors - 1) / 3
  }

  /**
   * The test of the loop: the prime factors of the step are not all among
   * the prime factors of the number of colours.
   */
  predicate NewPrimeIn(division: int, numColors: int)
  {
    !(Elems(Primes(division)) <= Elems(Primes(numColors)))
  }

  /**
   * The call returns: either the loop is skipped, or its first (and, as
   * `division` never changes, every) test succeeds.
   */
  predicate StepTestPasses(numColors: nat)
  {
    Candidate(numColors) >= numColors || NewPrimeIn(Candidate(numColors), numColors)
  }

  /**
   * `get_optimal_color_division`, as written.  The source loops while
   * `division < num_colors`, but nothing in its body changes `division` or
   * `num_colors`: the first test decides everything.  If it succeeds the
   * step is returned; if it fails the source tests the same values again
   * forever.  The body below is that single test, and the branch where it
   * fails, excluded by the precondition, is marked unreachable.
   */
  method OptimalColorDivision(numColors: nat) returns (division: int)
    requires StepTestPasses(numColors)
    ensures numColors == 0 ==> division == -1
    ensures numColors > 0 ==> 0 <= division < numColors && 3 * division <= numColors - 1 < 3 * division + 3
    ensures numColors > 0 ==> division == Candidate(numColors) && NewPrimeIn(division, numColors)
    ensures division == numColors - 1 <==> Candidate(numColors) >= numColors
  {
    division := Candidate(numColors);
    if division < numColors {
      var divisionFactors := PrimeFactors(division);
      var colorFactors := PrimeFactors(numColors);
      if Elems(divisionFactors) <= Elems(colorFactors) {
        assert false;
      }
      return;
    }
    division := numColors - 1;
  }

  /** The palette index of part `i`: `(i * division) % num_parts`. */
  function PaletteIndex(i: nat, division: int, numParts: nat): (j: nat)
    requires numParts > 0
    ensures j < numParts
  {
    (i * division) % numParts
  }

  /**
   * The docstring's promise: stepping through the palette with `step`,
   * the `numParts` parts get pairwise different colours.
   */
  predicate NeverRepeats(step: int, numParts: nat)
  {
    forall i, j :: 0 <= i < j < numParts ==> PaletteIndex(i, step, numParts) != PaletteIndex(j, step, numParts)
  }

  /** For 1 to 6 colours the candidate step is 0 or 1, which has no prime factor, so the call hangs. */
  lemma SmallCountsHang(numColors: nat)
    requires 1 <= numColors <= 6
    ensures !StepTestPasses(numColors)
  {
    assert Primes(0) == [] && Primes(1) == [];
    assert Elems([]) == {};
  }

  /** For 12 colours the candidate 3 has the prime factor 3, which 12 has too, so the call hangs. */
  lemma TwelveHangs()
    ensures !StepTestPasses(12)
  {
    assert Primes(3) == [3];
    assert Multiplicity(12, 2) == 2 && Cofactor(12, 2) == 3;
    assert Primes(12) == [2, 2] + [3];
    assert 3 in Elems(Primes(12));
  }

  /**
   * Further counts that hang: the candidates 2, 4 and 9 have only the prime
   * factors 2, 2 and 3, which 8, 14 and 30 have too.
   */
  lemma OtherCountsHang()
    ensures !StepTestPasses(8) && !StepTestPasses(14) && !StepTestPasses(30)
  {
    assert Primes(2) == [2];
    assert Multiplicity(8, 2) == 3 && Cofactor(8, 2) == 1;
    assert Primes(8) == [2, 2, 2];
    assert Multiplicity(4, 2) == 2 && Cofactor(4, 2) == 1;
    assert Primes(4) == [2, 2];
    assert Multiplicity(14, 2) == 1 && Cofactor(14, 2) == 7;
    assert Primes(14) == [2] + [7];
    assert Multiplicity(9, 3) == 2 && Cofactor(9, 3) == 1;
    assert Primes(9) == [3, 3];
    assert Multiplicity(30, 2) == 1 && Cofactor(30, 2) == 15;
    assert Multiplicity(15, 3) == 1 && Cofactor(15, 3) == 5;
    assert Primes(30) == [2] + ([3] + [5]);
    assert 2 in Elems(Primes(8)) && 2 in Elems(Primes(14)) && 3 in Elems(Primes(30));
  }

  /**
   * For 20 colours the call returns 6, which shares the factor 2 with 20:
   * parts 0 and 10 get the same colour.
   */
  lemma TwentyRepeatsColors()
    ensures StepTestPasses(20) && Candidate(20) == 6
    ensures Gcd(6, 20) == 2
    ensures PaletteIndex(0, 6, 20) == PaletteIndex(10, 6, 20)
    ensures !NeverRepeats(6, 20)
  {
    assert Multiplicity(6, 2) == 1 && Cofactor(6, 2) == 3;
    assert Primes(6) == [2] + [3];
    assert Multiplicity(20, 2) == 2 && Cofactor(20, 2) == 5;
    assert Primes(20) == [2, 2] + [5];
    assert 3 in Elems(Primes(6)) && 3 !in Elems(Primes(20));
    assert PaletteIndex(10, 6, 20) == 0;
  }

  function Gcd(a: nat, b: nat): nat
    decreases b
  {
    if b == 0 then a else Gcd(b, a % b)
  }

  /** Bezout's identity: the gcd is an integer combination of its arguments. */
  lemma {:induction false} Bezout(a: nat, b: nat) returns (x: int, y: int)
    ensures a * x + b * y == Gcd(a, b)
    decreases b
  {
    if b == 0 {
      x, y := 1, 0;
    } else {
      var x', y' := Bezout(b, a % b);
      var q := a / b;
      assert a % b == a - b * q;
      x := y';
      y := x' - q * y';
      Distribute(b, x', -(q * y'));
      Associate(b, q, y');
      assert (a - b * q) * y' == a * y' - (b * q) * y';
    }
  }

  /** If `n` is coprime with `s` and divides `k * s`, it divides `k`. */
  lemma CoprimeFactor(s: nat, n: nat, k: int)
    requires n > 0 && Gcd(s, n) == 1 && (k * s) % n == 0
    ensures k % n == 0
  {
    var x, y := Bezout(s, n);
    var t := (k * s) / n;
    assert k * s == n * t;
    Distribute(k, s * x, n * y);
    Associate(k, s, x);
    Associate(n, t, x);
    Associate(k, n, y);
    Associate(n, k, y);
    Distribute(n, t * x, k * y);
    assert k == n * (t * x + k * y);
    MulMod(n, t * x + k * y);
  }

  /** Two multiples of `step` with the same remainder differ by a multiple of `n`. */
  lemma SameRemainder(i: int, j: int, step: int, n: nat)
    requires n > 0 && (i * step) % n == (j * step) % n
    ensures ((j - i) * step) % n == 0
  {
    var a, b := i * step, j * step;
    assert a == n * (a / n) + a % n;
    assert b == n * (b / n) + b % n;
    assert (j - i) * step == n * (b / n - a / n);
    MulMod(n, b / n - a / n);
  }

  /** Parts `i < j` get different colours when the step is coprime with their number. */
  lemma CoprimePairDiffers(i: nat, j: nat, step: nat, numParts: nat)
    requires i < j < numParts && Gcd(step, numParts) == 1
    ensures PaletteIndex(i, step, numParts) != PaletteIndex(j, step, numParts)
  {
    var d := j - i;
    SmallRemainder(d, numParts);
    if PaletteIndex(i, step, numParts) == PaletteIndex(j, step, numParts) {
      SameRemainder(i, j, step, numParts);
      CoprimeFactor(step, numParts, d);
    }
  }

  lemma SmallRemainder(a: int, n: int)
    requires 0 <= a < n
    ensures a % n == a
  {
  }

  /** A step coprime with the number of parts never repeats a colour. */
  lemma CoprimeStepNeverRepeats(step: nat, numParts: nat)
    requires numParts > 0 && Gcd(step, numParts) == 1
    ensures NeverRepeats(step, numParts)
  {
    forall i, j | 0 <= i < j < numParts
      ensures PaletteIndex(i, step, numParts) != PaletteIndex(j, step, numParts)
    {
      CoprimePairDiffers(i, j, step, numParts);
    }
  }

  /** The gcd of two numbers, not both zero, is positive and divides both. */
  lemma {:induction false} GcdDivides(a: nat, b: nat)
    requires a > 0 || b > 0
    ensures Gcd(a, b) > 0 && a % Gcd(a, b) == 0 && b % Gcd(a, b) == 0
    decreases b
  {
    if b == 0 {
      MulMod(a, 1);
      MulMod(a, 0);
    } else {
      GcdDivides(b, a % b);
      DividesFromRemainder(a, b, Gcd(b, a % b));
    }
  }

  /** A divisor of `b` and of `a % b` divides `a`. */
  lemma DividesFromRemainder(a: nat, b: nat, g: nat)
    requires b > 0 && g > 0 && b % g == 0 && (a % b) % g == 0
    ensures a % g == 0
  {
    var u, v, q := b / g, (a % b) / g, a / b;
    assert b == g * u;
    assert a % b == g * v;
    assert a == b * q + a % b;
    Associate(g, u, q);
    Distribute(g, u * q, v);
    MulMod(g, u * q + v);
  }

  /**
   * A step sharing a factor g > 1 with the number of parts repeats a
   * colour: parts 0 and n / g both get index 0.
   */
  lemma SharedFactorRepeats(step: nat, numParts: nat)
    requires numParts > 0 && Gcd(step, numParts) != 1
    ensures !NeverRepeats(step, numParts)
  {
    GcdDivides(step, numParts);
    CommonFactorRepeats(step, numParts, Gcd(step, numParts));
  }

  /** For a common divisor g >= 2 of `step` and `n`, parts 0 and n / g share index 0. */
  lemma CommonFactorRepeats(step: nat, n: nat, g: nat)
    requires n > 0 && g >= 2 && step % g == 0 && n % g == 0
    ensures PaletteIndex(n / g, step, n) == PaletteIndex(0, step, n)
    ensures !NeverRepeats(step, n)
  {
    var m := CommonMultiple(step, n, g);
    assert PaletteIndex(m, step, n) == 0 == PaletteIndex(0, step, n);
  }

  /** n / g lies strictly between 0 and n, and `step` times it is a multiple of n. */
  lemma CommonMultiple(step: nat, n: nat, g: nat) returns (m: nat)
    requires n > 0 && g >= 2 && step % g == 0 && n % g == 0
    ensures m == n / g && 0 < m < n && (m * step) % n == 0
  {
    m := Quotient(n, g);
    var t := Quotient(step, g);
    MulMono(2, g, m, m);
    ScaledMultiple(m, g, t);
  }

  /** A multiple `x` of `g` is `g` times its quotient. */
  lemma Quotient(x: nat, g: nat) returns (q: nat)
    requires g > 0 && x % g == 0
    ensures q == x / g && x == g * q
  {
    q := x / g;
  }

  /** `m * (g * t)` is a multiple of `g * m`. */
  lemma ScaledMultiple(m: nat, g: nat, t: nat)
    requires g * m > 0
    ensures (m * (g * t)) % (g * m) == 0
  {
    Associate(m, g, t);
    MulMod(g * m, t);
  }

  /** n - 1 and n are coprime. */
  lemma ConsecutiveCoprime(n: nat)
    requires n >= 1
    ensures Gcd(n - 1, n) == 1
  {
    if n == 1 {
      assert Gcd(0, 1) == Gcd(1, 0);
    } else if n == 2 {
      assert Gcd(1, 2) == Gcd(2, 1) == Gcd(1, 0);
    } else {
      assert (n - 1) % n == n - 1 && n % (n - 1) == 1;
      assert Gcd(n - 1, n) == Gcd(n, n - 1) == Gcd(n - 1, 1) == Gcd(1, 0);
    }
  }

  /**
   * The corrected step: start from the same candidate and move up until it
   * is coprime with the number of colours (n - 1 always is).  It always
   * returns, and for one or more colours (`numColors > 0`) the palette
   * indices never repeat.
   */
  method CoprimeColorDivision(numColors: nat) returns (division: int)
    ensures numColors == 0 ==> division == -1
    ensures numColors > 0 ==> Candidate(numColors) <= division < numColors && Gcd(division, numColors) == 1
    ensures numColors > 0 ==> forall k :: Candidate(numColors) <= k < division ==> Gcd(k, numColors) != 1
    ensures numColors > 0 ==> NeverRepeats(division, numColors)
  {
    division := Candidate(numColors);
    if numColors > 0 {
      ConsecutiveCoprime(numColors);
    }
    while division < numColors && Gcd(division, numColors) != 1
      invariant Candidate(numColors) <= division
      invariant numColors > 0 ==> division <= numColors - 1
      invariant forall k :: Candidate(numColors) <= k < division ==> Gcd(k, numColors) != 1
      decreases numColors - division
    {
      division := division + 1;
    }
    if division < numColors {
      CoprimeStepNeverRepeats(division, numColors);
      return;
    }
    division := numColors - 1;
  }
}
