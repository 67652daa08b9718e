/** The prime search behind libc++'s hash tables (`__next_prime`, src/runtime/cxx_support.cpp):
    the number theory, and the two loops in the 64-bit arithmetic of the code, whose squares wrap. */
module NextPrime {
  ghost predicate Divides(d: nat, n: nat) {
    exists k: nat :: n == d * k
  }

  ghost predicate Prime(n: nat) {
    n >= 2 && forall d: nat :: 2 <= d < n ==> !Divides(d, n)
  }

  /** Nothing from 2 up to but not including `b` divides `n`. */
  ghost predicate NoDivisorBelow(n: nat, b: nat) {
    forall d: nat :: 2 <= d < b ==> !Divides(d, n)
  }

  lemma DividesIsMod(d: nat, n: nat)
    requires d > 0
    ensures Divides(d, n) <==> n % d == 0
  {
    if n % d == 0 {
      assert n == d * (n / d);
    }
    if Divides(d, n) {
      var k: nat :| n == d * k;
      ModOfMultiple(d, k);
    }
  }

  lemma ModOfMultiple(d: nat, k: nat)
    requires d > 0
    ensures (d * k) % d == 0
  {
    var q, r := (d * k) / d, (d * k) % d;
    assert d * k == d * q + r;
    var x: int := k - q;
    assert d * x == r;
    assert x >= 1 ==> d * x >= d;
    assert x <= -1 ==> d * x + d <= 0;
  }

  lemma DividesTrans(a: nat, b: nat, n: nat)
    requires Divides(a, b) && Divides(b, n)
    ensures Divides(a, n)
  {
    var k: nat :| b == a * k;
    var l: nat :| n == b * l;
    assert n == a * (k * l);
  }

  lemma MulGrows(b: nat, d: nat, k: nat)
    requires b <= d && b <= k
    ensures b * b <= d * k
  {
    assert d * k == b * k + (d - b) * k;
    assert b * k == b * b + b * (k - b);
  }

  lemma Cofactor(d: nat, n: nat) returns (k: nat)
    requires 2 <= d < n && Divides(d, n)
    ensures k >= 2 && n == d * k && Divides(k, n)
  {
    k :| n == d * k;
    assert k != 0 && k != 1;
    assert n == k * d;
  }

  /** A divisor brings its cofactor, and the smaller of the two is at most the root. */
  lemma RootSuffices(n: nat, b: nat)
    requires n >= 2 && b * b > n && NoDivisorBelow(n, b)
    ensures Prime(n)
  {
    forall d: nat | 2 <= d < n ensures !Divides(d, n) {
      if Divides(d, n) {
        var k := Cofactor(d, n);
        MulGrows(b, d, k);
      }
    }
  }

  // ---- The 6k +- 1 wheel ----------------------------------------------------------------------

  /** Of six consecutive candidates from `d` = 6k - 1 only `d` and `d + 2` can divide a number that
      neither 2 nor 3 divides. */
  lemma WheelStep(n: nat, d: nat)
    requires d % 6 == 5 && !Divides(2, n) && !Divides(3, n) && NoDivisorBelow(n, d)
    requires !Divides(d, n) && !Divides(d + 2, n)
    ensures NoDivisorBelow(n, d + 6)
  {
    forall e: nat | 2 <= e < d + 6 ensures !Divides(e, n) {
      if Divides(e, n) && d <= e {
        if e == d + 1 || e == d + 3 || e == d + 5 {
          assert e == 2 * (e / 2) && Divides(2, e);
          DividesTrans(2, e, n);
        } else if e == d + 4 {
          assert e == 3 * (e / 3) && Divides(3, e);
          DividesTrans(3, e, n);
        }
      }
    }
  }

  lemma SmallerThanSquare(d: nat, n: nat)
    requires d >= 5 && d * d <= n
    ensures d + 2 < n
  {
    assert d * d >= 5 * d;
  }

  lemma NoDivisorBelowFive(n: nat)
    requires n % 2 == 1 && n % 3 != 0
    ensures NoDivisorBelow(n, 5) && !Divides(2, n) && !Divides(3, n)
  {
  }

  // ---- There is always a next prime -----------------------------------------------------------

  function Factorial(n: nat): (f: nat)
    ensures f >= 1
  {
    if n == 0 then 1 else n * Factorial(n - 1)
  }

  lemma {:induction false} DividesFactorial(d: nat, n: nat)
    requires 1 <= d <= n
    ensures Divides(d, Factorial(n))
  {
    if d == n {
      assert Factorial(n) == d * Factorial(n - 1);
    } else {
      DividesFactorial(d, n - 1);
      var k: nat :| Factorial(n - 1) == d * k;
      assert Factorial(n) == d * (n * k);
    }
  }

  /** The least divisor from 2 on is a prime. */
  lemma {:induction false} LeastDivisor(n: nat, b: nat) returns (p: nat)
    requires 2 <= b <= n && NoDivisorBelow(n, b)
    ensures b <= p <= n && Prime(p) && Divides(p, n)
    decreases n - b
  {
    assert b == n ==> Divides(b, n) by { assert n == n * 1; }
    if Divides(b, n) {
      p := b;
      forall d: nat | 2 <= d < b ensures !Divides(d, b) {
        if Divides(d, b) { DividesTrans(d, b, n); }
      }
    } else {
      p := LeastDivisor(n, b + 1);
    }
  }

  lemma NoConsecutiveMultiples(p: nat, a: nat)
    requires p >= 2 && Divides(p, a)
    ensures !Divides(p, a + 1)
  {
    var k: nat :| a == p * k;
    if Divides(p, a + 1) {
      var l: nat :| a + 1 == p * l;
      assert p * (l - k) == p * l - p * k;
      OneIsNoMultiple(p, l - k);
    }
  }

  lemma OneIsNoMultiple(p: nat, x: int)
    requires p >= 2
    ensures p * x != 1
  {
    if x >= 1 { assert p * x >= p; } else { assert p * x <= 0; }
  }

  /** Euclid's theorem: beyond every number there is a prime. */
  lemma PrimeBeyond(n: nat) returns (p: nat)
    ensures p >= n && Prime(p)
  {
    p := LeastDivisor(Factorial(n) + 1, 2);
    if p < n {
      DividesFactorial(p, n);
      NoConsecutiveMultiples(p, Factorial(n));
    }
  }

  lemma EvenIsNotPrime(m: nat)
    requires m > 2 && m % 2 == 0
    ensures !Prime(m)
  {
    DividesIsMod(2, m);
  }

  lemma TripleIsNotPrime(m: nat)
    requires m > 3 && m % 3 == 0
    ensures !Prime(m)
  {
    DividesIsMod(3, m);
  }

  lemma SmallPrimes()
    ensures Prime(2) && Prime(3)
  {
  }

  /** The only prime from `n` up to `r` that was passed over is 3. */
  ghost predicate OnlyThreePassed(n: nat, r: nat) {
    forall m: nat :: n <= m < r && Prime(m) ==> m == 3
  }

  lemma PassTwo(n: nat, r: nat)
    requires OnlyThreePassed(n, r) && r >= 3 && r % 2 == 1 && (r == 3 || !Prime(r))
    ensures OnlyThreePassed(n, r + 2)
  {
    EvenIsNotPrime(r + 1);
  }

  /** What `__next_prime` is after: the least prime at or above `n`, where 3 is passed over. */
  ghost predicate IsNext(n: nat, r: nat) {
    Prime(r) && n <= r && r != 3 && OnlyThreePassed(n, r)
  }

  lemma {:induction false} LeastFrom(n: nat, r: nat, bound: nat) returns (p: nat)
    requires n <= r <= bound && OnlyThreePassed(n, r) && Prime(bound) && bound != 3
    ensures IsNext(n, p)
    decreases bound - r
  {
    if Prime(r) && r != 3 {
      p := r;
    } else {
      p := LeastFrom(n, r + 1, bound);
    }
  }

  /** There is always one, and only one. */
  lemma NextExists(n: nat) returns (r: nat)
    ensures IsNext(n, r) && forall p: nat :: IsNext(n, p) ==> p == r
  {
    var bound := PrimeBeyond(n + 4);
    r := LeastFrom(n, n, bound);
  }

  /** The search returns the least prime at or above `n` if and only if `n` is not 3. */
  lemma LeastIffNotThree(n: nat, r: nat)
    requires IsNext(n, r)
    ensures (forall m: nat :: n <= m < r ==> !Prime(m)) <==> n != 3
    ensures n == 3 ==> r == 5
  {
    SmallPrimes();
    assert n < 3 ==> !(2 < r);
    if n == 3 {
      FiveIsPrime();
      EvenIsNotPrime(4);
      assert Prime(3);
    }
  }

  lemma FiveIsPrime()
    ensures Prime(5)
  {
  }

  // ---- In 64 bits -----------------------------------------------------------------------------

  const TWO64: nat := 0x1_0000_0000_0000_0000

  /** The largest divisor tested whose square fits in 64 bits. */
  const LAST_EXACT: nat := 4294967291

  /** A divisor of the wheel whose square wraps to 2^64 - 7. */
  const STOP: nat := 1852311383259529397

  /** size_t arithmetic. */
  function Add64(a: nat, b: nat): nat { (a + b) % TWO64 }
  function Mul64(a: nat, b: nat): nat { a * b % TWO64 }

  lemma ExactSquare(d: nat)
    requires d <= LAST_EXACT
    ensures Mul64(d, d) == d * d
  {
    MulGrows(d, LAST_EXACT, LAST_EXACT);
  }

  lemma WrappedSquare(d: nat)
    ensures Mul64(d, d) <= d * d
  {
    assert d * d >= 0;
  }

  lemma StopSquare()
    ensures Mul64(STOP, STOP) == TWO64 - 7 && STOP % 6 == 5
    ensures LAST_EXACT * LAST_EXACT > STOP + 2
  {
  }

  /** Above 2^64 - 8 every number has a factor that was tried long before. */
  lemma TopIsComposite(n: nat)
    requires TWO64 - 7 <= n < TWO64 && n % 2 == 1 && n % 3 != 0
    ensures !NoDivisorBelow(n, 14)
  {
    DividesIsMod(11, n);
    DividesIsMod(13, n);
  }

  /** What the inner loop knows before it tests by `d`. */
  ghost predicate Tried(n: nat, d: nat) {
    && 5 <= d <= STOP && d % 6 == 5 && NoDivisorBelow(n, d)
    && (d > LAST_EXACT ==> LAST_EXACT * LAST_EXACT <= n)
  }

  /** As long as the loop goes on, it tests proper divisors and stays below `STOP`. */
  lemma InsideLoop(n: nat, d: nat)
    requires n < TWO64 && n % 2 == 1 && n % 3 != 0 && Tried(n, d) && Mul64(d, d) <= n
    ensures d + 2 < n && d + 6 <= STOP && (d + 6 > LAST_EXACT ==> LAST_EXACT * LAST_EXACT <= n)
  {
    StopSquare();
    if d <= LAST_EXACT {
      ExactSquare(d);
      SmallerThanSquare(d, n);
    }
    if d == STOP {
      TopIsComposite(n);
    }
  }

  lemma LoopTurn(n: nat, d: nat)
    requires n < TWO64 && n % 2 == 1 && n % 3 != 0 && Tried(n, d) && Mul64(d, d) <= n
    ensures Add64(d, 2) == d + 2 && Add64(d, 6) == d + 6 <= STOP
    ensures if n % d == 0 || n % (d + 2) == 0 then n > 1 && !Prime(n) else Tried(n, d + 6)
  {
    InsideLoop(n, d);
    DividesIsMod(d, n);
    DividesIsMod(d + 2, n);
    if n % d != 0 && n % (d + 2) != 0 {
      NoDivisorBelowFive(n);
      WheelStep(n, d);
    }
  }

  lemma LoopExit(n: nat, d: nat)
    requires Tried(n, d) && Mul64(d, d) > n
    ensures n <= 1 || Prime(n)
  {
    WrappedSquare(d);
    if n > 1 { RootSuffices(n, d); }
  }

  /** The inner loop in size_t arithmetic decides primality of every 64-bit number it is given,
      although its squares wrap: a composite has a factor below 2^32, and for a prime the loop ends
      at the latest at a square that wraps to 2^64 - 7. The number 1 passes for a prime. */
  method TrialDivision(n: nat) returns (prime: bool)
    requires n < TWO64 && n % 2 == 1 && n % 3 != 0
    ensures prime <==> Prime(n) || n == 1
  {
    NoDivisorBelowFive(n);
    var d := 5;
    while Mul64(d, d) <= n
      invariant Tried(n, d)
      decreases STOP - d
    {
      LoopTurn(n, d);
      if n % d == 0 || n % Add64(d, 2) == 0 {
        return false;
      }
      d := Add64(d, 6);
    }
    LoopExit(n, d);
    return true;
  }

  /** What the outer loop knows at candidate `r`: nothing was passed over, or nothing was left to find
      and the candidate has wrapped to 1. */
  ghost predicate Searching(n: nat, r: nat) {
    && r < TWO64 && r % 2 == 1
    && if r == 1 then OnlyThreePassed(n, TWO64) else n <= r && r >= 3 && OnlyThreePassed(n, r)
  }

  lemma FirstCandidate(n: nat)
    requires 2 < n < TWO64
    ensures Searching(n, if n % 2 == 1 then n else n + 1)
  {
    if n % 2 == 0 { EvenIsNotPrime(n); }
  }

  lemma NextCandidate(n: nat, r: nat)
    requires Searching(n, r) && r != 1 && (r % 3 == 0 || !Prime(r))
    ensures Searching(n, Add64(r, 2)) && (Add64(r, 2) == 1 || Add64(r, 2) == r + 2)
  {
    if r % 3 == 0 && r > 3 { TripleIsNotPrime(r); }
    PassTwo(n, r);
  }

  /** The search is right to stop at a prime that is no multiple of 3, and at 1. */
  lemma RightAnswer(n: nat, r: nat)
    requires Searching(n, r) && r % 3 != 0 && (Prime(r) || r == 1)
    ensures r == 1 || IsNext(n, r)
    ensures forall p: nat :: IsNext(n, p) ==> r == if p < TWO64 then p else 1
  {
  }

  lemma TwoIsNext(n: nat)
    requires n <= 2
    ensures IsNext(n, 2) && forall p: nat :: IsNext(n, p) ==> p == 2
  {
    SmallPrimes();
  }

  /** `__next_prime` for every 64-bit argument: the number it is after if that has 64 bits, and
      otherwise 1, because the candidate wraps and 1 passes for a prime. */
  method NextPrimeFrom(n: nat) returns (r: nat)
    requires n < TWO64
    ensures r < TWO64 && (r == 1 || IsNext(n, r))
    ensures forall p: nat :: IsNext(n, p) ==> r == if p < TWO64 then p else 1
  {
    if n <= 2 {
      TwoIsNext(n);
      return 2;
    }
    FirstCandidate(n);
    r := if n % 2 == 1 then n else n + 1;
    while true
      invariant Searching(n, r)
      decreases if r == 1 then 0 else TWO64 - r
    {
      if r % 3 != 0 {
        var prime := TrialDivision(r);
        if prime {
          RightAnswer(n, r);
          return r;
        }
      }
      NextCandidate(n, r);
      r := Add64(r, 2);
    }
  }

  /** The last six arguments give 1. */
  lemma NoPrimeAtTheTop(n: nat)
    requires TWO64 - 6 <= n < TWO64
    ensures forall p: nat :: IsNext(n, p) ==> p > TWO64
  {
    EvenIsNotPrime(TWO64);
    forall m: nat | n <= m < TWO64 ensures !Prime(m) {
      if m % 2 == 0 { EvenIsNotPrime(m); }
      else if m % 3 == 0 { TripleIsNotPrime(m); }
      else { TopIsComposite(m); }
    }
  }
}
