/** orderOfGenerator: the order of the cyclic subgroup <g> of
    Z_{n1} x ... x Z_{nk}, computed without enumerating it as the lcm over
    the components of n_i / gcd(n_i, g_i). */
module CyclicSubgroup {
  import opened NumberTheory
  import opened Groups

  /** The std::logic_error thrown on an arity mismatch. */
  datatype Error = ArityMismatch

  datatype Result<T> = Ok(value: T) | Err(error: Error)

  /** The order of x in Z_n. */
  function ComponentOrder(n: nat, x: nat): (r: nat)
    requires n > 0
    ensures r >= 1
  {
    ComponentOrderDivides(n, x, 0);
    n / Gcd(n, x)
  }

  /** The per-component orders of t in G. */
  function ComponentOrders(G: Group, t: Tuple): (r: seq<nat>)
    requires G.Valid() && |t| == |G.products|
    ensures |r| == |t| && AllPositive(r)
  {
    seq(|t|, i requires 0 <= i < |t| => ComponentOrder(G.products[i], t[i]))
  }

  /** The value orderOfGenerator computes: the lcm of the component orders. */
  function GeneratorOrder(G: Group, t: Tuple): nat
    requires G.Valid() && |t| == |G.products|
  {
    LcmAll(ComponentOrders(G, t))
  }

  /** orderOfGenerator (FiniteAbelianClassifier.cpp:148-158). */
  method OrderOfGenerator(G: Group, generator: Tuple) returns (r: Result<nat>)
    requires G.Valid()
    ensures r.Err? <==> |generator| != |G.products|
    ensures r.Err? ==> r.error == ArityMismatch
    ensures r.Ok? ==> r.value == GeneratorOrder(G, generator)
  {
    if |G.products| != |generator| {
      return Err(ArityMismatch);
    }
    ghost var orders := ComponentOrders(G, generator);
    var currentOrder: nat := 1;
    var i := 0;
    while i < |G.products|
      invariant 0 <= i <= |G.products|
      invariant currentOrder == LcmAll(orders[..i])
    {
      assert orders[..i + 1][..i] == orders[..i];
      GcdDivides(G.products[i], generator[i]);
      currentOrder := Lcm(currentOrder, G.products[i] / Gcd(G.products[i], generator[i]));
      i := i + 1;
    }
    assert orders[..i] == orders;
    return Ok(currentOrder);
  }

  // ---------------------------------------------------------------------
  // What the computed value means

  /** k * t is the identity exactly when the generator order divides k: the
      lcm of the component orders is the order of t. */
  lemma ScaleIdentityIffOrderDivides(G: Group, t: Tuple, k: nat)
    requires G.Valid() && |t| == |G.products|
    ensures GeneratorOrder(G, t) >= 1
    ensures G.Scale(k, t) == G.Identity() <==> Divides(GeneratorOrder(G, t), k)
  {
    LcmAllDivides(ComponentOrders(G, t), k);
    ScaleIdentityIff(G, k, t);
    ComponentOrdersDivide(G, t, k);
  }

  /** Component i of k * t is zero exactly when the order of t[i] divides k. */
  lemma ComponentOrdersDivide(G: Group, t: Tuple, k: nat)
    requires G.Valid() && |t| == |G.products|
    ensures forall i :: 0 <= i < |t| ==>
      (Divides(G.products[i], k * t[i]) <==> Divides(ComponentOrders(G, t)[i], k))
  {
    forall i | 0 <= i < |t|
      ensures Divides(G.products[i], k * t[i]) <==> Divides(ComponentOrders(G, t)[i], k)
    {
      ComponentOrderDivides(G.products[i], t[i], k);
    }
  }

  /** The generator order is the least k >= 1 whose multiple of t is the identity. */
  lemma GeneratorOrderIsLeast(G: Group, t: Tuple)
    requires G.Valid() && |t| == |G.products|
    ensures GeneratorOrder(G, t) >= 1
    ensures G.Scale(GeneratorOrder(G, t), t) == G.Identity()
    ensures forall k :: 1 <= k < GeneratorOrder(G, t) ==> G.Scale(k, t) != G.Identity()
  {
    var m := GeneratorOrder(G, t);
    ScaleIdentityIffOrderDivides(G, t, m);
    DividesRefl(m);
    forall k | 1 <= k < m ensures G.Scale(k, t) != G.Identity() {
      ScaleIdentityIffOrderDivides(G, t, k);
      if Divides(m, k) {
        DividesLe(m, k);
      }
    }
  }

  /** The identity generates the trivial subgroup. */
  lemma IdentityHasOrderOne(G: Group)
    requires G.Valid()
    ensures GeneratorOrder(G, G.Identity()) == 1
  {
    var m := GeneratorOrder(G, G.Identity());
    ScaleIdentityIffOrderDivides(G, G.Identity(), 1);
    assert G.Scale(1, G.Identity()) == G.Identity();
    DividesLe(m, 1);
  }

  /** The order of <t> divides the group order and the largest element order. */
  lemma GeneratorOrderDivides(G: Group, t: Tuple)
    requires G.Valid() && |t| == |G.products|
    ensures GeneratorOrder(G, t) >= 1
    ensures Divides(GeneratorOrder(G, t), G.Order())
    ensures Divides(GeneratorOrder(G, t), G.LargestOrderElement())
  {
    var L := G.LargestOrderElement();
    ScaleOrderIsIdentity(G, t);
    ScaleIdentityIffOrderDivides(G, t, G.Order());
    LargestOrderElementFacts(G);
    forall i | 0 <= i < |t| ensures Divides(G.products[i], L * t[i]) {
      DividesMul(G.products[i], L, t[i]);
    }
    ScaleIdentityIff(G, L, t);
    ScaleIdentityIffOrderDivides(G, t, L);
  }
}
