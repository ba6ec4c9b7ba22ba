/** primeFactorize: trial-division factorisation of the quotient order into
    a prime -> exponent map. The floating-point bound p <= sqrt(n) of the
    source is the integer test p * p <= n here. */
module Factorization {
  import opened NumberTheory

  /** The number a factorisation map stands for: the product of p^e. */
  ghost function PowerProduct(m: map<nat, nat>): nat
    decreases |m|
  {
    if m == map[] then 1
    else
      var p :| p in m;
      assert |m - {p}| < |m| by {
        assert (m - {p}).Keys == m.Keys - {p};
      }
      Pow(p, m[p]) * PowerProduct(m - {p})
  }

  /** The product does not depend on which key is split off first. */
  lemma {:induction false} PowerProductRemove(m: map<nat, nat>, q: nat)
    requires q in m
    ensures PowerProduct(m) == Pow(q, m[q]) * PowerProduct(m - {q})
    decreases |m|
  {
    var p: nat :| p in m && PowerProduct(m) == Pow(p, m[p]) * PowerProduct(m - {p});
    if p != q {
      var rest := m - {p} - {q};
      assert |m - {p}| < |m| && |m - {q}| < |m| by {
        assert (m - {p}).Keys == m.Keys - {p};
        assert (m - {q}).Keys == m.Keys - {q};
      }
      PowerProductRemove(m - {p}, q);
      PowerProductRemove(m - {q}, p);
      assert m - {p} - {q} == m - {q} - {p};
      var a, b, r := Pow(p, m[p]), Pow(q, m[q]), PowerProduct(rest);
      assert (m - {p})[q] == m[q];
      assert (m - {q})[p] == m[p];
      MulSwap(a, b, r);
    }
  }

  lemma PowerProductInsert(m: map<nat, nat>, q: nat, e: nat)
    requires q !in m
    ensures PowerProduct(m[q := e]) == PowerProduct(m) * Pow(q, e)
  {
    var M := m[q := e];
    PowerProductRemove(M, q);
    UpdateRemove(m, q, e);
    var a, r := Pow(q, e), PowerProduct(m);
    assert PowerProduct(M) == a * r;
    assert a * r == r * a;
  }

  lemma UpdateRemove(m: map<nat, nat>, q: nat, e: nat)
    requires q !in m
    ensures m[q := e] - {q} == m && m[q := e][q] == e
  {
  }

  /** A prime dividing p^e is p. */
  lemma {:induction false} PrimeDividesPower(q: nat, p: nat, e: nat)
    requires IsPrime(q) && IsPrime(p) && Divides(q, Pow(p, e))
    ensures q == p
  {
    if e == 0 {
      DividesLe(q, 1);
    } else {
      PrimeDividesProduct(q, p, Pow(p, e - 1));
      if Divides(q, p) {
        DividesLe(q, p);
      } else {
        PrimeDividesPower(q, p, e - 1);
      }
    }
  }

  /** Every prime dividing the product of a prime-keyed map is one of its keys. */
  lemma {:induction false} PrimeDivisorIsKey(m: map<nat, nat>, q: nat)
    requires forall p :: p in m ==> IsPrime(p)
    requires IsPrime(q) && Divides(q, PowerProduct(m))
    ensures q in m
    decreases |m|
  {
    if m == map[] {
      DividesLe(q, 1);
    } else {
      var p :| p in m;
      PowerProductRemove(m, p);
      PrimeDividesProduct(q, Pow(p, m[p]), PowerProduct(m - {p}));
      if Divides(q, Pow(p, m[p])) {
        PrimeDividesPower(q, p, m[p]);
      } else {
        assert |m - {p}| < |m| by {
          assert (m - {p}).Keys == m.Keys - {p};
        }
        PrimeDivisorIsKey(m - {p}, q);
      }
    }
  }

  /** Every key with a positive exponent divides the product. */
  lemma KeyDividesPowerProduct(m: map<nat, nat>, q: nat)
    requires q in m && q >= 1 && m[q] >= 1
    ensures Divides(q, PowerProduct(m))
  {
    PowerProductRemove(m, q);
    var a, r := Pow(q, m[q] - 1), PowerProduct(m - {q});
    assert Pow(q, m[q]) == q * a;
    MulAssoc(q, a, r);
    MultipleMod(q, a * r);
  }

  /** The do-while loops of lines 119-123 and 129-133: divide every factor p
      out of n, counting them in primes[p]. */
  method DivideOut(n: nat, p: nat, primes: map<nat, nat>) returns (rest: nat, primes': map<nat, nat>)
    requires p >= 2 && n >= 1 && Divides(p, n)
    ensures p in primes' && primes' == primes[p := primes'[p]] && primes'[p] >= 1
    ensures rest >= 1 && !Divides(p, rest) && n == rest * Pow(p, primes'[p]) && rest < n
  {
    primes' := primes[p := 0];
    rest := n;
    assert Pow(p, 0) == 1;
    while true
      invariant p in primes' && primes' == primes[p := primes'[p]]
      invariant rest >= 1 && Divides(p, rest) && n == rest * Pow(p, primes'[p])
      invariant rest <= n
      decreases rest
    {
      var e := primes'[p];
      primes' := primes'[p := e + 1];
      DivideStep(n, rest, p, e);
      rest := rest / p;
      if rest % p != 0 {
        break;
      }
    }
  }

  /** One pass of the do-while: a factor p moves from rest into the power. */
  lemma DivideStep(n: nat, rest: nat, p: nat, e: nat)
    requires p >= 2 && rest >= 1 && Divides(p, rest) && n == rest * Pow(p, e)
    ensures 1 <= rest / p < rest && n == (rest / p) * Pow(p, e + 1)
  {
    var r := rest / p;
    DividesWitness(p, rest);
    MulStep(r, 1, p);
    MulAssoc(r, p, Pow(p, e));
    assert p * r == r * p;
  }

  /** primeFactorize (FiniteAbelianClassifier.cpp:110-146). */
  method PrimeFactorize(n0: nat) returns (primes: map<nat, nat>)
    requires n0 >= 1
    ensures PowerProduct(primes) == n0
    ensures forall q :: q in primes ==> IsPrime(q) && primes[q] >= 1 && Divides(q, n0)
    ensures forall q :: IsPrime(q) && Divides(q, n0) ==> q in primes
    ensures n0 == 1 ==> primes == map[]
  {
    var n := n0;
    primes := map[];
    if n % 2 == 0 {
      n, primes := DivideOut(n, 2, primes);
      TwosDone(n0, n, primes);
    } else {
      NoTwos(n0);
    }
    var p := 3;
    while p * p <= n
      invariant Trial(n0, n, p, primes)
      decreases n as int - p
    {
      SquareBound(p, n);
      n, primes := TrialStep(n0, n, p, primes);
      p := p + 2;
    }
    primes := RecordLeftover(n0, n, p, primes);
  }

  /** Lines 138-145: what is left of n above 1 is one more prime factor. */
  method RecordLeftover(n0: nat, n: nat, p: nat, primes: map<nat, nat>) returns (primes': map<nat, nat>)
    requires n0 >= 1 && Trial(n0, n, p, primes) && p * p > n
    ensures PowerProduct(primes') == n0
    ensures forall q :: q in primes' ==> IsPrime(q) && primes'[q] >= 1 && Divides(q, n0)
    ensures forall q :: IsPrime(q) && Divides(q, n0) ==> q in primes'
    ensures n0 == 1 ==> primes' == map[]
  {
    if n == 1 {
      primes' := primes;
      assert n0 == PowerProduct(primes') by {
        assert n0 == 1 * PowerProduct(primes);
      }
    } else {
      LeftoverIsPrime(n, p);
      if n in primes {
        // found->second++ (line 143) is unreachable: every recorded prime is below p <= n
        assert false;
      }
      primes' := primes[n := 1];
      assert Pow(n, 1) == n;
      RecordFactor(n0, n, 1, primes, n, 1);
    }
    FactorizationFacts(n0, primes');
  }

  /** Lines 124-134 for one odd trial divisor p: divide out every factor p. */
  method TrialStep(n0: nat, n: nat, p: nat, primes: map<nat, nat>) returns (n': nat, primes': map<nat, nat>)
    requires Trial(n0, n, p, primes) && p * p <= n
    ensures Trial(n0, n', p + 2, primes') && n' <= n
  {
    SquareBound(p, n);
    if n % p == 0 {
      n', primes' := DivideOut(n, p, primes);
      DividedStep(n0, n, n', primes, p, primes');
    } else {
      n', primes' := n, primes;
      OddStepKeepsDivisorFree(n, p);
    }
  }

  /** The invariant of the trial-division loop at odd divisor p: n0 is n
      times the primes found so far, all below p, and n has no divisor in [2, p). */
  ghost predicate Trial(n0: nat, n: nat, p: nat, primes: map<nat, nat>)
  {
    && p >= 3 && p % 2 == 1 && n >= 1 && n0 == n * PowerProduct(primes)
    && (forall q :: q in primes ==> IsPrime(q) && primes[q] >= 1 && q < p)
    && (forall d :: 2 <= d < p ==> n % d != 0)
  }

  lemma SquareBound(p: nat, n: nat)
    requires p >= 1 && p * p <= n
    ensures p <= n
  {
    MulMono(p, 1, p);
  }

  /** After the powers of two are divided out, trial division starts at 3. */
  lemma TwosDone(n0: nat, n: nat, primes: map<nat, nat>)
    requires n0 >= 1 && n0 % 2 == 0
    requires 2 in primes && primes == map[][2 := primes[2]] && primes[2] >= 1
    requires n >= 1 && !Divides(2, n) && n0 == n * Pow(2, primes[2])
    ensures Trial(n0, n, 3, primes)
  {
    RecordFactor(n0, n0, n, map[], 2, primes[2]);
    assert IsPrime(2);
  }

  lemma NoTwos(n0: nat)
    requires n0 >= 1 && n0 % 2 != 0
    ensures Trial(n0, n0, 3, map[])
  {
    assert PowerProduct(map[]) == 1;
  }

  /** Dividing every factor p out of n keeps the loop invariant for p + 2. */
  lemma DividedStep(n0: nat, before: nat, n: nat, known: map<nat, nat>, p: nat, primes: map<nat, nat>)
    requires Trial(n0, before, p, known) && before % p == 0
    requires p in primes && primes == known[p := primes[p]] && primes[p] >= 1
    requires n >= 1 && !Divides(p, n) && before == n * Pow(p, primes[p])
    ensures Trial(n0, n, p + 2, primes)
  {
    TrialDivisorIsPrime(before, p);
    assert p !in known;
    RecordFactor(n0, before, n, known, p, primes[p]);
    NoSmallDivisorsLeft(before, n, p, primes[p]);
    OddStepKeepsDivisorFree(n, p);
  }

  /** Moving p^e from the cofactor into the map keeps the product n0. */
  lemma RecordFactor(n0: nat, before: nat, n: nat, known: map<nat, nat>, p: nat, e: nat)
    requires p !in known && n0 == before * PowerProduct(known) && before == n * Pow(p, e)
    ensures n0 == n * PowerProduct(known[p := e])
  {
    PowerProductInsert(known, p, e);
    var a, r := Pow(p, e), PowerProduct(known);
    MulAssoc(n, a, r);
    assert a * r == r * a;
  }

  /** What a factorisation map of n0 >= 1 with prime keys and positive
      exponents tells: its keys are exactly the prime divisors of n0. */
  lemma FactorizationFacts(n0: nat, m: map<nat, nat>)
    requires n0 >= 1 && n0 == PowerProduct(m)
    requires forall q :: q in m ==> IsPrime(q) && m[q] >= 1
    ensures forall q :: q in m ==> q >= 2 && Divides(q, n0)
    ensures forall q :: IsPrime(q) && Divides(q, n0) ==> q in m
    ensures n0 == 1 ==> m == map[]
  {
    forall q | q in m ensures Divides(q, n0) {
      KeyDividesPowerProduct(m, q);
    }
    forall q | IsPrime(q) && Divides(q, n0) ensures q in m {
      PrimeDivisorIsKey(m, q);
    }
    if n0 == 1 && m != map[] {
      var q :| q in m;
      KeyDividesPowerProduct(m, q);
      DividesLe(q, 1);
    }
  }

  /** A divisor p of n with no smaller divisor of n above 1 is prime. */
  lemma TrialDivisorIsPrime(n: nat, p: nat)
    requires n >= 1 && p >= 2 && n % p == 0
    requires forall d :: 2 <= d < p ==> n % d != 0
    ensures IsPrime(p)
  {
    forall d | 2 <= d < p ensures p % d != 0 {
      if p % d == 0 {
        DividesTrans(d, p, n);
      }
    }
  }

  /** Dividing out p^e leaves n with no divisor in [2, p]. */
  lemma NoSmallDivisorsLeft(before: nat, n: nat, p: nat, e: nat)
    requires n >= 1 && p >= 2 && before == n * Pow(p, e) && n % p != 0
    requires forall d :: 2 <= d < p ==> before % d != 0
    ensures forall d :: 2 <= d <= p ==> n % d != 0
  {
    forall d | 2 <= d < p ensures n % d != 0 {
      if n % d == 0 {
        DividesMul(d, n, Pow(p, e));
      }
    }
  }

  /** Skipping the even number p + 1 loses nothing. */
  lemma OddStepKeepsDivisorFree(n: nat, p: nat)
    requires p >= 3 && p % 2 == 1
    requires forall d :: 2 <= d < p ==> n % d != 0
    requires n % p != 0
    ensures forall d :: 2 <= d < p + 2 ==> n % d != 0
  {
    if n % (p + 1) == 0 {
      assert (p + 1) % 2 == 0;
      DividesTrans(2, p + 1, n);
    }
  }

  /** What is left above 1 once p * p > n, with no divisor below p, is a prime at least p. */
  lemma LeftoverIsPrime(n: nat, p: nat)
    requires n >= 2 && p >= 2 && p * p > n
    requires forall d :: 2 <= d < p ==> n % d != 0
    ensures IsPrime(n) && n >= p
  {
    assert n % n == 0;
    forall d | 2 <= d < n ensures n % d != 0 {
      if n % d == 0 && p <= d {
        var k := SmallCofactor(n, d, p);
      }
    }
  }

  /** A divisor d >= p of n < p * p leaves a cofactor in [2, p). */
  lemma Cofactor(d: nat, n: nat) returns (k: nat)
    requires d > 0 && n % d == 0
    ensures n == d * k
  {
    k := n / d;
    DividesWitness(d, n);
  }

  lemma SmallCofactor(n: nat, d: nat, p: nat) returns (k: nat)
    requires n >= 2 && 2 <= d < n && n % d == 0 && 2 <= p <= d && p * p > n
    ensures 2 <= k < p && n % k == 0
  {
    k := Cofactor(d, n);
    MulStep(d, k, 2);
    MulMonoIf(d, p, k);
    MulMono(p, p, d);
    MultipleMod(k, d);
  }
}
