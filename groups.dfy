/** Tuples and groups: the element type and the direct sum
    Z_{n1} x ... x Z_{nk} that every other part of the classifier works on.
    The C++ declarations live in a header that is not part of this model;
    the operations here are the ones the classifier uses (component-wise
    addition, reduction, the identity, element enumeration, the largest
    element order). */
module Groups {
  import opened NumberTheory

  /** An element of a direct sum: one integer per cyclic factor. */
  type Tuple = seq<nat>

  /** Tuple's operator+: component-wise integer addition, no reduction. */
  function Plus(a: Tuple, b: Tuple): (r: Tuple)
    requires |a| == |b|
    ensures |r| == |a| && forall i :: 0 <= i < |r| ==> r[i] == a[i] + b[i]
  {
    seq(|a|, i requires 0 <= i < |a| => a[i] + b[i])
  }

  /** Product of a list of factors. */
  function Product(ps: seq<nat>): nat
  {
    if ps == [] then 1 else ps[0] * Product(ps[1..])
  }

  /** Left fold of std::lcm over a list, starting from 1. */
  function LcmAll(xs: seq<nat>): nat
  {
    if xs == [] then 1 else Lcm(LcmAll(xs[..|xs| - 1]), xs[|xs| - 1])
  }

  predicate AllPositive(xs: seq<nat>)
  {
    forall i :: 0 <= i < |xs| ==> xs[i] >= 1
  }

  /** The direct sum Z_{products[0]} x ... x Z_{products[k-1]}. */
  datatype Group = Group(products: seq<nat>)
  {
    /** Every cyclic factor has positive order. */
    predicate Valid()
    {
      AllPositive(products)
    }

    function Arity(): nat
    {
      |products|
    }

    /** The group's order: the product of its factors. */
    function Order(): nat
    {
      Product(products)
    }

    /** findLargestOrderElement: the lcm of the factors. */
    function LargestOrderElement(): nat
    {
      LcmAll(products)
    }

    /** t is an element: right arity, every component below its modulus. */
    predicate Contains(t: Tuple)
    {
      |t| == |products| && forall i :: 0 <= i < |t| ==> t[i] < products[i]
    }

    /** The all-zero tuple. */
    function Identity(): (r: Tuple)
      ensures |r| == |products| && forall i :: 0 <= i < |r| ==> r[i] == 0
    {
      seq(|products|, _ => 0)
    }

    /** Component-wise reduction modulo each factor. */
    function Mod(t: Tuple): (r: Tuple)
      requires Valid() && |t| == |products|
      ensures Contains(r) && forall i :: 0 <= i < |r| ==> r[i] == t[i] % products[i]
    {
      seq(|t|, i requires 0 <= i < |t| => t[i] % products[i])
    }

    /** The group operation, G.mod(a + b). */
    function Add(a: Tuple, b: Tuple): (r: Tuple)
      requires Valid() && |a| == |products| && |b| == |products|
      ensures Contains(r)
    {
      Mod(Plus(a, b))
    }

    /** k-fold sum of t, reduced: (k * t[i]) mod products[i] in every component. */
    function Scale(k: nat, t: Tuple): (r: Tuple)
      requires Valid() && |t| == |products|
      ensures Contains(r) && forall i :: 0 <= i < |r| ==> r[i] == (k * t[i]) % products[i]
    {
      seq(|t|, i requires 0 <= i < |t| => (k * t[i]) % products[i])
    }

    /** generateElements: every element of the group, each listed once. */
    function Elements(): seq<Tuple>
    {
      Enumerate(products)
    }
  }

  /** The Cartesian product of [0, ps[0]) x ... x [0, ps[k-1]). */
  function Enumerate(ps: seq<nat>): seq<Tuple>
  {
    if ps == [] then [[]] else WithHeads(ps[0], Enumerate(ps[1..]))
  }

  /** Every tail in rest prefixed by every head below n. */
  function WithHeads(n: nat, rest: seq<Tuple>): seq<Tuple>
  {
    if n == 0 then []
    else WithHeads(n - 1, rest) + Block(n - 1, rest)
  }

  predicate Distinct<T(==)>(s: seq<T>)
  {
    forall i, j :: 0 <= i < j < |s| ==> s[i] != s[j]
  }

  // ---------------------------------------------------------------------
  // Element enumeration

  function Block(h: nat, rest: seq<Tuple>): (r: seq<Tuple>)
    ensures |r| == |rest| && forall j :: 0 <= j < |rest| ==> r[j] == [h] + rest[j]
  {
    seq(|rest|, j requires 0 <= j < |rest| => [h] + rest[j])
  }

  lemma {:induction false} WithHeadsLength(n: nat, rest: seq<Tuple>)
    ensures |WithHeads(n, rest)| == n * |rest|
  {
    if n > 0 {
      WithHeadsLength(n - 1, rest);
      assert WithHeads(n, rest) == WithHeads(n - 1, rest) + Block(n - 1, rest);
      Distribute(|rest|, n - 1, 1);
    }
  }

  lemma BlockMember(h: nat, rest: seq<Tuple>, t: Tuple)
    ensures t in Block(h, rest) <==> |t| >= 1 && t[0] == h && t[1..] in rest
  {
    var block := Block(h, rest);
    if t in block {
      var j :| 0 <= j < |rest| && block[j] == t;
      assert t[1..] == rest[j];
    }
    if |t| >= 1 && t[0] == h && t[1..] in rest {
      var j :| 0 <= j < |rest| && rest[j] == t[1..];
      assert block[j] == t;
    }
  }

  lemma {:induction false} WithHeadsMember(n: nat, rest: seq<Tuple>, t: Tuple)
    ensures t in WithHeads(n, rest) <==> |t| >= 1 && t[0] < n && t[1..] in rest
  {
    if n > 0 {
      WithHeadsMember(n - 1, rest, t);
      BlockMember(n - 1, rest, t);
      assert WithHeads(n, rest) == WithHeads(n - 1, rest) + Block(n - 1, rest);
    }
  }

  lemma {:induction false} WithHeadsDistinct(n: nat, rest: seq<Tuple>)
    requires Distinct(rest)
    ensures Distinct(WithHeads(n, rest))
  {
    if n > 0 {
      WithHeadsDistinct(n - 1, rest);
      var front, block := WithHeads(n - 1, rest), Block(n - 1, rest);
      var all := front + block;
      assert WithHeads(n, rest) == all;
      forall i, j | 0 <= i < j < |all| ensures all[i] != all[j] {
        if j < |front| {
          assert all[i] == front[i] && all[j] == front[j];
        } else if i < |front| {
          WithHeadsMember(n - 1, rest, all[i]);
          assert all[i] in front;
          assert all[j] == block[j - |front|];
        } else {
          assert all[i] == block[i - |front|] && all[j] == block[j - |front|];
          assert all[i][1..] == rest[i - |front|];
          assert all[j][1..] == rest[j - |front|];
        }
      }
    }
  }

  lemma ContainsCons(ps: seq<nat>, t: Tuple)
    requires ps != [] && |t| >= 1
    ensures Group(ps).Contains(t) <==> t[0] < ps[0] && Group(ps[1..]).Contains(t[1..])
  {
    if t[0] < ps[0] && Group(ps[1..]).Contains(t[1..]) {
      forall i | 0 <= i < |t| ensures t[i] < ps[i] {
        if i > 0 { assert t[1..][i - 1] < ps[1..][i - 1]; }
      }
    }
  }

  lemma {:induction false} EnumerateMember(ps: seq<nat>, t: Tuple)
    ensures t in Enumerate(ps) <==> Group(ps).Contains(t)
  {
    if ps != [] {
      WithHeadsMember(ps[0], Enumerate(ps[1..]), t);
      if |t| >= 1 {
        EnumerateMember(ps[1..], t[1..]);
        ContainsCons(ps, t);
      }
    }
  }

  lemma {:induction false} EnumerateFacts(ps: seq<nat>)
    ensures |Enumerate(ps)| == Product(ps)
    ensures Distinct(Enumerate(ps))
    ensures forall t :: t in Enumerate(ps) <==> Group(ps).Contains(t)
  {
    forall t ensures t in Enumerate(ps) <==> Group(ps).Contains(t) {
      EnumerateMember(ps, t);
    }
    if ps != [] {
      EnumerateFacts(ps[1..]);
      WithHeadsLength(ps[0], Enumerate(ps[1..]));
      WithHeadsDistinct(ps[0], Enumerate(ps[1..]));
    }
  }

  lemma {:induction false} DistinctCard<T>(s: seq<T>)
    requires Distinct(s)
    ensures |set x | x in s| == |s|
  {
    if s != [] {
      DistinctCard(s[1..]);
      assert (set x | x in s) == {s[0]} + (set x | x in s[1..]);
      assert s[0] !in (set x | x in s[1..]);
    }
  }

  /** The elements of a group are exactly its tuples, and there are Order() of them. */
  lemma ElementsFacts(G: Group)
    ensures Distinct(G.Elements())
    ensures forall t :: t in G.Elements() <==> G.Contains(t)
    ensures |set t | t in G.Elements()| == G.Order()
  {
    EnumerateFacts(G.products);
    DistinctCard(G.Elements());
  }

  // ---------------------------------------------------------------------
  // Orders of factors

  lemma {:induction false} ProductPositive(ps: seq<nat>)
    requires AllPositive(ps)
    ensures Product(ps) >= 1
  {
    if ps != [] {
      ProductPositive(ps[1..]);
      MulMono(ps[0], 1, Product(ps[1..]));
    }
  }

  /** Every factor divides the product. */
  lemma {:induction false} FactorDividesProduct(ps: seq<nat>, i: nat)
    requires AllPositive(ps) && i < |ps|
    ensures Divides(ps[i], Product(ps))
  {
    if i == 0 {
      DividesRefl(ps[0]);
      DividesMul(ps[0], ps[0], Product(ps[1..]));
    } else {
      FactorDividesProduct(ps[1..], i - 1);
      DividesMul(ps[i], Product(ps[1..]), ps[0]);
    }
  }

  lemma {:induction false} LcmAllPositive(xs: seq<nat>)
    requires AllPositive(xs)
    ensures LcmAll(xs) >= 1
  {
    if xs != [] {
      LcmAllPositive(xs[..|xs| - 1]);
      LcmMultiple(LcmAll(xs[..|xs| - 1]), xs[|xs| - 1]);
    }
  }

  /** m is a multiple of the lcm of a list exactly when it is a multiple of every entry. */
  lemma {:induction false} LcmAllDivides(xs: seq<nat>, m: nat)
    requires AllPositive(xs)
    ensures LcmAll(xs) >= 1
    ensures Divides(LcmAll(xs), m) <==> forall i :: 0 <= i < |xs| ==> Divides(xs[i], m)
  {
    LcmAllPositive(xs);
    if xs != [] {
      var init, last := xs[..|xs| - 1], xs[|xs| - 1];
      LcmAllPositive(init);
      LcmAllDivides(init, m);
      LcmDividesIff(LcmAll(init), last, m);
      assert LcmAll(xs) == Lcm(LcmAll(init), last);
      assert (forall i :: 0 <= i < |xs| ==> Divides(xs[i], m)) <==>
             (forall i :: 0 <= i < |init| ==> Divides(init[i], m)) && Divides(last, m) by {
        assert forall i :: 0 <= i < |init| ==> init[i] == xs[i];
      }
    }
  }

  /** The largest element order is a positive multiple of every factor and
      divides the group order. */
  lemma LargestOrderElementFacts(G: Group)
    requires G.Valid()
    ensures G.LargestOrderElement() >= 1
    ensures forall i :: 0 <= i < |G.products| ==> Divides(G.products[i], G.LargestOrderElement())
    ensures Divides(G.LargestOrderElement(), G.Order())
  {
    LcmAllDivides(G.products, G.LargestOrderElement());
    DividesRefl(G.LargestOrderElement());
    forall i | 0 <= i < |G.products| ensures Divides(G.products[i], G.Order()) {
      FactorDividesProduct(G.products, i);
    }
    LcmAllDivides(G.products, G.Order());
  }

  // ---------------------------------------------------------------------
  // Group laws of Add and Scale on elements

  lemma AddComm(G: Group, a: Tuple, b: Tuple)
    requires G.Valid() && G.Contains(a) && G.Contains(b)
    ensures G.Add(a, b) == G.Add(b, a)
  {
  }

  lemma AddIdentity(G: Group, a: Tuple)
    requires G.Valid() && G.Contains(a)
    ensures G.Add(a, G.Identity()) == a && G.Add(G.Identity(), a) == a
  {
    forall i | 0 <= i < |a| ensures a[i] % G.products[i] == a[i] {
      DivModUnique(a[i], G.products[i], 0, a[i]);
    }
  }

  lemma AddAssoc(G: Group, a: Tuple, b: Tuple, c: Tuple)
    requires G.Valid() && G.Contains(a) && G.Contains(b) && G.Contains(c)
    ensures G.Add(G.Add(a, b), c) == G.Add(a, G.Add(b, c))
  {
    forall i | 0 <= i < |a|
      ensures G.Add(G.Add(a, b), c)[i] == G.Add(a, G.Add(b, c))[i]
    {
      AddAssocAt(G, a, b, c, i);
    }
  }

  lemma AddAssocAt(G: Group, a: Tuple, b: Tuple, c: Tuple, i: nat)
    requires G.Valid() && G.Contains(a) && G.Contains(b) && G.Contains(c) && i < |a|
    ensures G.Add(G.Add(a, b), c)[i] == G.Add(a, G.Add(b, c))[i]
  {
    var n := G.products[i];
    var x, y, z := a[i], b[i], c[i];
    var ab, bc := G.Add(a, b), G.Add(b, c);
    assert ab[i] == (x + y) % n;
    assert bc[i] == (y + z) % n;
    var l := G.Add(ab, c)[i];
    var r := G.Add(a, bc)[i];
    assert l == (ab[i] + z) % n;
    assert r == (x + bc[i]) % n;
    ModAddAssoc(x, y, z, n);
  }

  /** Equal sums with a common summand have equal other summands. */
  lemma AddCancel(G: Group, a: Tuple, b: Tuple, c: Tuple)
    requires G.Valid() && G.Contains(a) && G.Contains(b) && G.Contains(c)
    requires G.Add(a, c) == G.Add(b, c)
    ensures a == b
  {
    forall i | 0 <= i < |a| ensures a[i] == b[i] {
      assert G.Add(a, c)[i] == G.Add(b, c)[i];
      ModAddCancel(a[i], b[i], c[i], G.products[i]);
    }
  }

  lemma ScaleZeroOne(G: Group, t: Tuple)
    requires G.Valid() && G.Contains(t)
    ensures G.Scale(0, t) == G.Identity() && G.Scale(1, t) == t
  {
    forall i | 0 <= i < |t| ensures (1 * t[i]) % G.products[i] == t[i] {
      DivModUnique(t[i], G.products[i], 0, t[i]);
    }
  }

  /** Scale(i) + Scale(j) == Scale(i + j). */
  lemma ScaleAdd(G: Group, t: Tuple, i: nat, j: nat)
    requires G.Valid() && |t| == |G.products|
    ensures G.Add(G.Scale(i, t), G.Scale(j, t)) == G.Scale(i + j, t)
  {
    forall c | 0 <= c < |t|
      ensures G.Add(G.Scale(i, t), G.Scale(j, t))[c] == G.Scale(i + j, t)[c]
    {
      ModAdd(i * t[c], j * t[c], G.products[c]);
      assert i * t[c] + j * t[c] == (i + j) * t[c];
    }
  }

  /** Scaling distributes over the group operation. */
  lemma ScaleOfAdd(G: Group, k: nat, a: Tuple, b: Tuple)
    requires G.Valid() && |a| == |G.products| && |b| == |G.products|
    ensures G.Scale(k, G.Add(a, b)) == G.Add(G.Scale(k, a), G.Scale(k, b))
  {
    forall c | 0 <= c < |a|
      ensures G.Scale(k, G.Add(a, b))[c] == G.Add(G.Scale(k, a), G.Scale(k, b))[c]
    {
      ScaleOfAddComponent(k, a[c], b[c], G.products[c]);
    }
  }

  lemma ScaleOfAddComponent(k: nat, x: nat, y: nat, n: nat)
    requires n > 0
    ensures (k * ((x + y) % n)) % n == ((k * x) % n + (k * y) % n) % n
  {
    ModMul(k, x + y, n);
    ModAdd(k * x, k * y, n);
    Distribute(k, x, y);
  }

  /** Scaling twice multiplies the factors. */
  lemma ScaleScale(G: Group, k: nat, m: nat, t: Tuple)
    requires G.Valid() && |t| == |G.products|
    ensures G.Scale(k, G.Scale(m, t)) == G.Scale(k * m, t)
  {
    forall c | 0 <= c < |t|
      ensures G.Scale(k, G.Scale(m, t))[c] == G.Scale(k * m, t)[c]
    {
      ModMul(k, m * t[c], G.products[c]);
      MulAssoc(k, m, t[c]);
    }
  }

  /** Adding t to its k-fold sum gives the (k+1)-fold sum: the step that
      builds a cyclic subgroup by repeated addition. */
  lemma ScaleStep(G: Group, t: Tuple, k: nat)
    requires G.Valid() && G.Contains(t)
    ensures G.Add(G.Scale(k, t), t) == G.Scale(k + 1, t)
  {
    ScaleZeroOne(G, t);
    ScaleAdd(G, t, k, 1);
  }

  /** Scale(k, t) is the identity exactly when every component n_i divides k * t[i]. */
  lemma ScaleIdentityIff(G: Group, k: nat, t: Tuple)
    requires G.Valid() && |t| == |G.products|
    ensures G.Scale(k, t) == G.Identity() <==>
            forall i :: 0 <= i < |t| ==> Divides(G.products[i], k * t[i])
  {
    if forall i :: 0 <= i < |t| ==> Divides(G.products[i], k * t[i]) {
      assert forall i :: 0 <= i < |t| ==> G.Scale(k, t)[i] == G.Identity()[i];
    }
    if G.Scale(k, t) == G.Identity() {
      forall i | 0 <= i < |t| ensures Divides(G.products[i], k * t[i]) {
        assert G.Scale(k, t)[i] == 0;
      }
    }
  }

  /** Every element times the group order is the identity. */
  lemma ScaleOrderIsIdentity(G: Group, t: Tuple)
    requires G.Valid() && |t| == |G.products|
    ensures G.Scale(G.Order(), t) == G.Identity()
  {
    forall i | 0 <= i < |t| ensures Divides(G.products[i], G.Order() * t[i]) {
      FactorDividesProduct(G.products, i);
      DividesMul(G.products[i], G.Order(), t[i]);
    }
    ScaleIdentityIff(G, G.Order(), t);
  }
}
