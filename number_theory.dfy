/** Natural-number arithmetic the classifier relies on: divisibility, the
    greatest common divisor and least common multiple as the C++ standard
    library computes them (std::gcd, std::lcm), powers and primality. */
module NumberTheory {

  /** d divides n; only positive divisors are ever asked about. */
  predicate Divides(d: nat, n: nat)
    requires d > 0
  {
    n % d == 0
  }

  function Pow(b: nat, e: nat): nat
  {
    if e == 0 then 1 else b * Pow(b, e - 1)
  }

  predicate IsPrime(p: nat)
  {
    p >= 2 && forall d :: 2 <= d < p ==> p % d != 0
  }

  /** Euclid's algorithm; Gcd(n, 0) == n as for std::gcd. */
  function Gcd(a: nat, b: nat): nat
    decreases b
  {
    if b == 0 then a else Gcd(b, a % b)
  }

  /** std::lcm: zero when either argument is zero. */
  function Lcm(a: nat, b: nat): nat
  {
    if a == 0 || b == 0 then 0
    else
      GcdDivides(a, b);
      a / Gcd(a, b) * b
  }

  // ---------------------------------------------------------------------
  // Division with remainder

  lemma MulMono(d: nat, x: nat, y: nat)
    requires x <= y
    ensures d * x <= d * y
  {
    assert d * y == d * x + d * (y - x);
  }

  /** Monotonicity stated as an implication, for case splits. */
  lemma MulMonoIf(d: nat, x: nat, y: nat)
    ensures x <= y ==> d * x <= d * y
  {
    if x <= y {
      MulMono(d, x, y);
    }
  }

  /** Strict monotonicity in the form used to rule out a second quotient. */
  lemma MulStep(d: nat, x: nat, y: nat)
    ensures x < y ==> d * x + d <= d * y
  {
    if x < y {
      MulMono(d, x + 1, y);
    }
  }

  lemma DivModUnique(a: nat, d: nat, q: nat, r: nat)
    requires d > 0 && a == d * q + r && r < d
    ensures a / d == q && a % d == r
  {
    MulStep(d, a / d, q);
    MulStep(d, q, a / d);
  }

  /** Quotient and remainder of a by n. */
  lemma QuotRem(a: nat, n: nat) returns (q: nat, r: nat)
    requires n > 0
    ensures a == n * q + r && r < n && a / n == q && a % n == r
  {
    q, r := a / n, a % n;
  }

  lemma MultipleMod(d: nat, q: nat)
    requires d > 0
    ensures (d * q) % d == 0 && (d * q) / d == q
  {
    DivModUnique(d * q, d, q, 0);
  }

  lemma DividesWitness(d: nat, n: nat)
    requires d > 0 && Divides(d, n)
    ensures n == d * (n / d)
  {
  }

  lemma DividesRefl(d: nat)
    requires d > 0
    ensures Divides(d, d) && Divides(d, 0)
  {
    MultipleMod(d, 1);
    MultipleMod(d, 0);
  }

  lemma DividesMul(d: nat, a: nat, c: nat)
    requires d > 0 && Divides(d, a)
    ensures Divides(d, a * c) && Divides(d, c * a)
  {
    var k := a / d;
    assert a * c == d * (k * c);
    MultipleMod(d, k * c);
  }

  lemma DividesAdd(d: nat, a: nat, b: nat)
    requires d > 0 && Divides(d, a) && Divides(d, b)
    ensures Divides(d, a + b)
  {
    assert a + b == d * (a / d + b / d);
    MultipleMod(d, a / d + b / d);
  }

  lemma DividesSub(d: nat, a: nat, b: nat)
    requires d > 0 && b <= a && Divides(d, a) && Divides(d, b)
    ensures Divides(d, a - b)
  {
    MulStep(d, a / d, b / d);
    assert a - b == d * (a / d - b / d);
    MultipleMod(d, a / d - b / d);
  }

  lemma DividesTrans(a: nat, b: nat, c: nat)
    requires a > 0 && b > 0 && Divides(a, b) && Divides(b, c)
    ensures Divides(a, c)
  {
    assert c == b * (c / b);
    DividesMul(a, b, c / b);
  }

  lemma DividesLe(d: nat, n: nat)
    requires d > 0 && n > 0 && Divides(d, n)
    ensures d <= n
  {
    assert n == d * (n / d);
    assert n / d >= 1;
  }

  /** Multiplying both sides by a positive c preserves and reflects divisibility. */
  lemma DividesCancel(c: nat, x: nat, y: nat)
    requires c > 0 && x > 0
    ensures Divides(c * x, c * y) <==> Divides(x, y)
  {
    if Divides(x, y) {
      var k := y / x;
      assert c * y == (c * x) * k;
      MultipleMod(c * x, k);
    }
    if Divides(c * x, c * y) {
      var k := (c * y) / (c * x);
      assert c * y == c * (x * k);
      assert y == x * k;
      MultipleMod(x, k);
    }
  }

  lemma ModOfMod(a: nat, n: nat)
    requires n > 0
    ensures (a % n) % n == a % n
  {
    DivModUnique(a % n, n, 0, a % n);
  }

  /** Reduction commutes with addition. */
  lemma ModAdd(a: nat, b: nat, n: nat)
    requires n > 0
    ensures (a % n + b % n) % n == (a + b) % n
  {
    var qa, ra := QuotRem(a, n);
    var qb, rb := QuotRem(b, n);
    var qs, rs := QuotRem(ra + rb, n);
    Distribute3(n, qa, qb, qs);
    DivModUnique(a + b, n, qa + qb + qs, rs);
  }

  /** Reduction commutes with multiplication by a constant. */
  lemma ModMul(k: nat, a: nat, n: nat)
    requires n > 0
    ensures (k * (a % n)) % n == (k * a) % n
  {
    var q, m := QuotRem(a, n);
    var q2, m2 := QuotRem(k * m, n);
    Distribute(k, n * q, m);
    MulSwap(k, n, q);
    Distribute(n, k * q, q2);
    DivModUnique(k * a, n, k * q + q2, m2);
  }

  lemma Distribute3(n: nat, x: nat, y: nat, z: nat)
    ensures n * (x + y + z) == n * x + n * y + n * z
  {
  }

  lemma MulSwap(a: nat, b: nat, c: nat)
    ensures a * (b * c) == b * (a * c)
  {
  }

  lemma Distribute(k: nat, x: nat, y: nat)
    ensures k * (x + y) == k * x + k * y
  {
  }

  lemma ModAddAssoc(a: nat, b: nat, c: nat, n: nat)
    requires a < n && c < n
    ensures ((a + b) % n + c) % n == (a + (b + c) % n) % n
  {
    var s := a + b + c;
    SmallMod(a, n);
    SmallMod(c, n);
    ModAdd(a + b, c, n);
    assert ((a + b) % n + c) % n == s % n;
    ModAdd(a, b + c, n);
    assert (a + (b + c) % n) % n == s % n;
  }

  lemma SmallMod(a: nat, n: nat)
    requires a < n
    ensures a % n == a
  {
    DivModUnique(a, n, 0, a);
  }

  /** Adding a common residue is injective on residues. */
  lemma ModAddCancel(a: nat, b: nat, c: nat, n: nat)
    requires a < n && b < n && (a + c) % n == (b + c) % n
    ensures a == b
  {
    var qa, r := QuotRem(a + c, n);
    var qb, _ := QuotRem(b + c, n);
    if a <= b {
      SameRemainderClose(a + c, b + c, n, qa, qb, r);
    } else {
      SameRemainderClose(b + c, a + c, n, qb, qa, r);
    }
  }

  /** Two numbers less than n apart with the same remainder are equal. */
  lemma SameRemainderClose(x: nat, y: nat, n: nat, qx: nat, qy: nat, r: nat)
    requires x == n * qx + r && y == n * qy + r && x <= y < x + n
    ensures x == y
  {
    MulStep(n, qx, qy);
    MulStep(n, qy, qx);
  }

  // ---------------------------------------------------------------------
  // Greatest common divisor

  lemma {:induction false} GcdDivides(a: nat, b: nat)
    requires a > 0 || b > 0
    ensures Gcd(a, b) > 0 && Divides(Gcd(a, b), a) && Divides(Gcd(a, b), b)
    decreases b
  {
    if b == 0 {
      DividesRefl(a);
    } else {
      GcdDivides(b, a % b);
      var g := Gcd(a, b);
      assert a == b * (a / b) + a % b;
      DividesMul(g, b, a / b);
      DividesAdd(g, b * (a / b), a % b);
    }
  }

  /** Every common divisor divides the gcd. */
  lemma {:induction false} GcdGreatest(a: nat, b: nat, d: nat)
    requires d > 0 && Divides(d, a) && Divides(d, b)
    ensures Divides(d, Gcd(a, b))
    decreases b
  {
    if b != 0 {
      assert a == b * (a / b) + a % b;
      DividesMul(d, b, a / b);
      DividesSub(d, a, b * (a / b));
      GcdGreatest(b, a % b, d);
    }
  }

  lemma {:induction false} GcdScale(a: nat, b: nat, c: nat)
    requires c > 0
    ensures Gcd(c * a, c * b) == c * Gcd(a, b)
    decreases b
  {
    if b != 0 {
      var q, r := a / b, a % b;
      Distribute(c, b * q, r);
      MulAssoc(c, b, q);
      MulStep(c, r, b);
      DivModUnique(c * a, c * b, q, c * r);
      GcdScale(b, r, c);
    }
  }

  /** Euclid's lemma: b | a*c and gcd(a, b) == 1 give b | c. */
  lemma Euclid(a: nat, b: nat, c: nat)
    requires b > 0 && Gcd(a, b) == 1 && Divides(b, a * c)
    ensures Divides(b, c)
  {
    if c == 0 {
      DividesRefl(b);
    } else {
      GcdScale(a, b, c);
      assert c * a == a * c;
      DividesMul(b, b, c);
      DividesRefl(b);
      GcdGreatest(c * a, c * b, b);
    }
  }

  /** A prime dividing a product divides one of its factors. */
  lemma PrimeDividesProduct(p: nat, a: nat, b: nat)
    requires IsPrime(p) && Divides(p, a * b)
    ensures Divides(p, a) || Divides(p, b)
  {
    var g := Gcd(a, p);
    GcdDivides(a, p);
    DividesLe(g, p);
    if g == 1 {
      Euclid(a, p, b);
    } else if g != p {
      assert false;
    }
  }

  /** The coprime cofactors left after dividing out the gcd. */
  lemma GcdCofactors(a: nat, b: nat)
    requires a > 0
    ensures var g := Gcd(a, b);
      g > 0 && a == g * (a / g) && b == g * (b / g) && Gcd(a / g, b / g) == 1
  {
    var g := Gcd(a, b);
    GcdDivides(a, b);
    var a', b' := a / g, b / g;
    DividesWitness(g, a);
    DividesWitness(g, b);
    GcdScale(a', b', g);
    assert g * Gcd(a', b') == g * 1;
    MulCancel(g, Gcd(a', b'), 1);
  }

  lemma MulCancel(c: nat, x: nat, y: nat)
    requires c > 0 && c * x == c * y
    ensures x == y
  {
    MulStep(c, x, y);
    MulStep(c, y, x);
  }

  // ---------------------------------------------------------------------
  // Least common multiple

  /** The lcm written through the cofactors a', b' of the gcd g. */
  lemma LcmShape(a: nat, b: nat, g: nat, a': nat, b': nat)
    requires a > 0 && b > 0 && g == Gcd(a, b) && g > 0 && a == g * a' && b == g * b'
    ensures Lcm(a, b) == a' * b && Lcm(a, b) == a * b' && Lcm(a, b) == g * a' * b'
  {
    DivModUnique(a, g, a', 0);
    assert Lcm(a, b) == a' * b;
    MulAssoc(a', g, b');
    assert a' * g == g * a';
    MulAssoc(g, a', b');
  }

  lemma MulAssoc(x: nat, y: nat, z: nat)
    ensures x * (y * z) == x * y * z
  {
  }

  lemma LcmMultiple(a: nat, b: nat)
    requires a > 0 && b > 0
    ensures Lcm(a, b) > 0 && Divides(a, Lcm(a, b)) && Divides(b, Lcm(a, b))
  {
    var g := Gcd(a, b);
    GcdCofactors(a, b);
    var a', b' := a / g, b / g;
    LcmShape(a, b, g, a', b');
    assert a' > 0 && b' > 0;
    assert Lcm(a, b) == b * a';
    MultipleMod(b, a');
    MultipleMod(a, b');
  }

  /** The lcm divides every common multiple. */
  lemma LcmLeast(a: nat, b: nat, m: nat)
    requires a > 0 && b > 0 && Divides(a, m) && Divides(b, m)
    ensures Lcm(a, b) > 0 && Divides(Lcm(a, b), m)
  {
    LcmMultiple(a, b);
    var g := Gcd(a, b);
    GcdCofactors(a, b);
    var a', b' := a / g, b / g;
    LcmShape(a, b, g, a', b');
    var k := m / a;
    DividesWitness(a, m);
    MulAssoc(g, a', k);
    DividesCancel(g, b', a' * k);
    Euclid(a', b', k);
    var j := k / b';
    DividesWitness(b', k);
    var l := Lcm(a, b);
    MulAssoc4(g, a', b', j);
    MultipleMod(l, j);
  }

  lemma MulAssoc4(w: nat, x: nat, y: nat, z: nat)
    ensures w * (x * (y * z)) == (w * x * y) * z
  {
    MulAssoc(x, y, z);
    MulAssoc(w, x * y, z);
    MulAssoc(w, x, y);
  }

  /** The lcm divides the product. */
  lemma LcmDividesProduct(a: nat, b: nat)
    requires a > 0 && b > 0
    ensures Lcm(a, b) > 0 && Divides(Lcm(a, b), a * b)
  {
    LcmMultiple(a, b);
    DividesMul(a, a, b);
    assert a * b == b * a;
    DividesMul(b, b, a);
    LcmLeast(a, b, a * b);
  }

  /** Divisibility of m by the lcm is divisibility by both arguments. */
  lemma LcmDividesIff(a: nat, b: nat, m: nat)
    requires a > 0 && b > 0
    ensures Lcm(a, b) > 0
    ensures Divides(Lcm(a, b), m) <==> Divides(a, m) && Divides(b, m)
  {
    LcmMultiple(a, b);
    if Divides(Lcm(a, b), m) {
      DividesTrans(a, Lcm(a, b), m);
      DividesTrans(b, Lcm(a, b), m);
    }
    if Divides(a, m) && Divides(b, m) {
      LcmLeast(a, b, m);
    }
  }

  /** n | k*x exactly when the order n / gcd(n, x) of x in Z_n divides k. */
  lemma ComponentOrderDivides(n: nat, x: nat, k: nat)
    requires n > 0
    ensures Gcd(n, x) > 0 && n / Gcd(n, x) > 0
    ensures Divides(n, k * x) <==> Divides(n / Gcd(n, x), k)
  {
    var g := Gcd(n, x);
    GcdCofactors(n, x);
    var n', x' := n / g, x / g;
    MulSwap(k, g, x');
    DividesCancel(g, n', k * x');
    CoprimeFactor(n', x', k);
  }

  /** For coprime n and x, n | k*x exactly when n | k. */
  lemma CoprimeFactor(n: nat, x: nat, k: nat)
    requires n > 0 && Gcd(n, x) == 1
    ensures Divides(n, k * x) <==> Divides(n, k)
  {
    if Divides(n, k * x) {
      GcdSwap(n, x);
      assert k * x == x * k;
      Euclid(x, n, k);
    }
    if Divides(n, k) {
      DividesMul(n, k, x);
    }
  }

  lemma GcdSwap(a: nat, b: nat)
    requires a > 0 || b > 0
    ensures Gcd(a, b) == Gcd(b, a)
  {
    GcdDivides(a, b);
    GcdDivides(b, a);
    GcdGreatest(a, b, Gcd(b, a));
    GcdGreatest(b, a, Gcd(a, b));
    var g, h := Gcd(a, b), Gcd(b, a);
    if a > 0 {
      DividesLe(g, h);
      DividesLe(h, g);
    } else {
      DividesLe(g, h);
      DividesLe(h, g);
    }
  }

  lemma PowPositive(b: nat, e: nat)
    requires b > 0
    ensures Pow(b, e) > 0
  {
    if e > 0 {
      PowPositive(b, e - 1);
    }
  }

  lemma {:induction false} PowAdd(b: nat, e1: nat, e2: nat)
    ensures Pow(b, e1 + e2) == Pow(b, e1) * Pow(b, e2)
    decreases e1
  {
    if e1 > 0 {
      PowAdd(b, e1 - 1, e2);
      MulAssoc(b, Pow(b, e1 - 1), Pow(b, e2));
    }
  }
}
