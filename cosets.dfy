/** calcElementOrders and orderOfCoset: the quotient G/<g> is enumerated
    coset by coset, and every coset's order in the quotient is tallied. */
module Cosets {
  import opened NumberTheory
  import opened Groups
  import opened CyclicSubgroup

  /** Coset (declared in the header): its elements and its order in G/H. */
  datatype Coset = Coset(elements: seq<Tuple>, order: nat)

  /** g, 2g, ..., n * g. */
  function Multiples(G: Group, g: Tuple, n: nat): (r: seq<Tuple>)
    requires G.Valid() && |g| == |G.products|
    ensures |r| == n && forall i :: 0 <= i < n ==> |r[i]| == |G.products| && r[i] == G.Scale(i + 1, g)
  {
    seq(n, i requires 0 <= i < n => G.Scale(i + 1, g))
  }

  /** The cyclic subgroup <g> in the order lines 274-282 list it. */
  function Subgroup(G: Group, g: Tuple): seq<Tuple>
    requires G.Valid() && G.Contains(g)
  {
    Multiples(G, g, GeneratorOrder(G, g))
  }

  /** The order of the coset x + H in G/H: the least k >= 1 with k * x in H. */
  function CosetOrder(G: Group, H: seq<Tuple>, x: Tuple): (r: nat)
    requires G.Valid() && G.Contains(x) && G.Identity() in H
    ensures r >= 1 && G.Scale(r, x) in H
    ensures forall k :: 1 <= k < r ==> G.Scale(k, x) !in H
  {
    GeneratorOrderIsLeast(G, x);
    SearchFrom(G, H, x, 1)
  }

  /** The least k' >= k with k' * x in H, given that none below k is. */
  function SearchFrom(G: Group, H: seq<Tuple>, x: Tuple, k: nat): (r: nat)
    requires G.Valid() && G.Contains(x) && G.Identity() in H
    requires 1 <= k <= GeneratorOrder(G, x)
    requires forall j :: 1 <= j < k ==> G.Scale(j, x) !in H
    ensures k <= r && G.Scale(r, x) in H
    ensures forall j :: 1 <= j < r ==> G.Scale(j, x) !in H
    decreases GeneratorOrder(G, x) - k
  {
    GeneratorOrderIsLeast(G, x);
    if G.Scale(k, x) in H then k else SearchFrom(G, H, x, k + 1)
  }

  // ---------------------------------------------------------------------
  // orderOfCoset

  /** orderOfCoset (FiniteAbelianClassifier.cpp:98-108): add the
      representative to itself until the sum lands in H, counting the steps. */
  method OrderOfCoset(gh: Coset, H: Coset, G: Group) returns (gh': Coset)
    requires G.Valid() && |gh.elements| >= 1 && G.Contains(gh.elements[0])
    requires G.Identity() in H.elements
    ensures gh'.elements == gh.elements
    ensures gh'.order >= 1 && G.Scale(gh'.order, gh.elements[0]) in H.elements
    ensures forall k :: 1 <= k < gh'.order ==> G.Scale(k, gh.elements[0]) !in H.elements
  {
    var conductor := gh.elements[0];
    var rep := gh.elements[0];
    var order := 1;
    ScaleZeroOne(G, rep);
    GeneratorOrderIsLeast(G, rep);
    while conductor !in H.elements
      invariant 1 <= order <= GeneratorOrder(G, rep)
      invariant conductor == G.Scale(order, rep)
      invariant forall k :: 1 <= k < order ==> G.Scale(k, rep) !in H.elements
      decreases GeneratorOrder(G, rep) - order
    {
      ScaleStep(G, rep, order);
      order := order + 1;
      conductor := G.Add(conductor, rep);
    }
    gh' := gh.(order := order);
  }

  /** A coset has order 1 exactly when its representative lies in H. */
  lemma CosetOrderOneIff(G: Group, H: seq<Tuple>, x: Tuple)
    requires G.Valid() && G.Contains(x) && G.Identity() in H
    ensures CosetOrder(G, H, x) == 1 <==> x in H
  {
    ScaleZeroOne(G, x);
  }

  // ---------------------------------------------------------------------
  // <g> is a subgroup

  /** Multiples of g repeat with period ord(g). */
  lemma ScaleReduce(G: Group, g: Tuple, n: nat)
    requires G.Valid() && G.Contains(g)
    ensures GeneratorOrder(G, g) >= 1
    ensures G.Scale(n, g) == G.Scale(n % GeneratorOrder(G, g), g)
  {
    var m := GeneratorOrder(G, g);
    GeneratorOrderIsLeast(G, g);
    var q, r := QuotRem(n, m);
    MultipleMod(m, q);
    ScaleIdentityIffOrderDivides(G, g, m * q);
    ScaleAdd(G, g, m * q, r);
    AddIdentity(G, G.Scale(r, g));
  }

  /** The last multiple listed is the identity. */
  lemma IdentityInSubgroup(G: Group, g: Tuple)
    requires G.Valid() && G.Contains(g)
    ensures |Subgroup(G, g)| >= 1 && Subgroup(G, g)[|Subgroup(G, g)| - 1] == G.Identity()
    ensures G.Identity() in Subgroup(G, g)
  {
    GeneratorOrderIsLeast(G, g);
  }

  /** Every multiple of g is listed. */
  lemma ScaleInSubgroup(G: Group, g: Tuple, n: nat)
    requires G.Valid() && G.Contains(g)
    ensures G.Scale(n, g) in Subgroup(G, g)
  {
    var m := GeneratorOrder(G, g);
    ScaleReduce(G, g, n);
    var r := n % m;
    if r == 0 {
      ScaleZeroOne(G, g);
      IdentityInSubgroup(G, g);
    } else {
      assert Subgroup(G, g)[r - 1] == G.Scale(r, g);
    }
  }

  /** Every listed element is a multiple k * g with 1 <= k <= ord(g). */
  lemma SubgroupIndex(G: Group, g: Tuple, h: Tuple) returns (i: nat)
    requires G.Valid() && G.Contains(g) && h in Subgroup(G, g)
    ensures 1 <= i <= GeneratorOrder(G, g) && h == G.Scale(i, g) && G.Contains(h)
  {
    var k :| 0 <= k < |Subgroup(G, g)| && Subgroup(G, g)[k] == h;
    i := k + 1;
  }

  lemma AddClosed(G: Group, g: Tuple, a: Tuple, b: Tuple)
    requires G.Valid() && G.Contains(g) && a in Subgroup(G, g) && b in Subgroup(G, g)
    ensures G.Add(a, b) in Subgroup(G, g)
  {
    var i := SubgroupIndex(G, g, a);
    var j := SubgroupIndex(G, g, b);
    ScaleAdd(G, g, i, j);
    ScaleInSubgroup(G, g, i + j);
  }

  lemma Inverse(G: Group, g: Tuple, a: Tuple) returns (a': Tuple)
    requires G.Valid() && G.Contains(g) && a in Subgroup(G, g)
    ensures a' in Subgroup(G, g) && G.Add(a', a) == G.Identity()
  {
    var i := SubgroupIndex(G, g, a);
    var m := GeneratorOrder(G, g);
    a' := G.Scale(m - i, g);
    ScaleAdd(G, g, m - i, i);
    GeneratorOrderIsLeast(G, g);
    ScaleInSubgroup(G, g, m - i);
  }

  /** Translating by a member of <g> neither enters nor leaves <g>. */
  lemma ShiftIn(G: Group, g: Tuple, h: Tuple, y: Tuple)
    requires G.Valid() && G.Contains(g) && h in Subgroup(G, g) && G.Contains(y)
    ensures G.Add(h, y) in Subgroup(G, g) <==> y in Subgroup(G, g)
  {
    if y in Subgroup(G, g) {
      AddClosed(G, g, h, y);
    }
    if G.Add(h, y) in Subgroup(G, g) {
      var h' := Inverse(G, g, h);
      var _ := SubgroupIndex(G, g, h);
      var _ := SubgroupIndex(G, g, h');
      AddAssoc(G, h', h, y);
      AddIdentity(G, y);
      AddClosed(G, g, h', G.Add(h, y));
    }
  }

  lemma ScaleOfMember(G: Group, g: Tuple, k: nat, h: Tuple)
    requires G.Valid() && G.Contains(g) && h in Subgroup(G, g)
    ensures G.Scale(k, h) in Subgroup(G, g)
  {
    var i := SubgroupIndex(G, g, h);
    ScaleScale(G, k, i, g);
    ScaleInSubgroup(G, g, k * i);
  }

  /** k * (h + x) is in <g> exactly when k * x is, for h in <g>. */
  lemma ScaleShiftIn(G: Group, g: Tuple, h: Tuple, x: Tuple, k: nat)
    requires G.Valid() && G.Contains(g) && h in Subgroup(G, g) && G.Contains(x)
    ensures G.Scale(k, G.Add(h, x)) in Subgroup(G, g) <==> G.Scale(k, x) in Subgroup(G, g)
  {
    var _ := SubgroupIndex(G, g, h);
    ScaleOfAdd(G, k, h, x);
    ScaleOfMember(G, g, k, h);
    ShiftIn(G, g, G.Scale(k, h), G.Scale(k, x));
  }

  /** All elements of a coset have the same order in G/<g>. */
  lemma CosetOrderShift(G: Group, g: Tuple, h: Tuple, x: Tuple)
    requires G.Valid() && G.Contains(g) && h in Subgroup(G, g) && G.Contains(x)
    ensures G.Identity() in Subgroup(G, g)
    ensures CosetOrder(G, Subgroup(G, g), G.Add(h, x)) == CosetOrder(G, Subgroup(G, g), x)
  {
    IdentityInSubgroup(G, g);
    var H := Subgroup(G, g);
    var a, b := CosetOrder(G, H, G.Add(h, x)), CosetOrder(G, H, x);
    ScaleShiftIn(G, g, h, x, a);
    ScaleShiftIn(G, g, h, x, b);
  }
}
