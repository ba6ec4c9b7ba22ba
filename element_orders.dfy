/** calcElementOrders (FiniteAbelianClassifier.cpp:260-313): the elements
    of G are swept coset by coset of H = <g>; the order of every coset in
    G/H is tallied in orderTracker. The pool of elements not yet reached is
    a set here: which element elements[0] names is left open. */
module ElementOrders {
  import opened NumberTheory
  import opened Groups
  import opened CyclicSubgroup
  import opened Cosets

  /** std::map::operator[] read: a missing key counts as 0. */
  function Get(m: map<nat, nat>, k: nat): nat
  {
    if k in m then m[k] else 0
  }

  function Members(s: seq<Tuple>): set<Tuple>
  {
    set x | x in s
  }

  /** Every element of G, as generateElements lists them. */
  function AllElements(G: Group): set<Tuple>
  {
    Members(G.Elements())
  }

  /** The translate H + x, in the order lines 296-300 build it. */
  function Shifted(G: Group, H: seq<Tuple>, x: Tuple): (r: seq<Tuple>)
    requires G.Valid() && G.Contains(x) && forall i :: 0 <= i < |H| ==> |H[i]| == |G.products|
    ensures |r| == |H| && forall i :: 0 <= i < |H| ==> r[i] == G.Add(H[i], x)
  {
    seq(|H|, i requires 0 <= i < |H| => G.Add(H[i], x))
  }

  /** The number of elements in a cosets of n elements each: a * n, built
      up one coset at a time as the tally grows. */
  function Mul(a: nat, n: nat): nat
  {
    if a == 0 then 0 else Mul(a - 1, n) + n
  }

  lemma {:induction false} MulIsProduct(a: nat, n: nat)
    ensures Mul(a, n) == a * n
  {
    if a > 0 {
      MulIsProduct(a - 1, n);
    }
  }

  /** The elements of S whose coset has order k. */
  ghost function OfOrder(G: Group, H: seq<Tuple>, S: set<Tuple>, k: nat): set<Tuple>
    requires G.Valid() && G.Identity() in H
  {
    set x | x in S && G.Contains(x) && CosetOrder(G, H, x) == k
  }

  /** The elements of G whose coset x + <g> has order k in G/<g>. */
  ghost function ElementsOfOrder(G: Group, g: Tuple, k: nat): set<Tuple>
    requires G.Valid() && G.Contains(g)
  {
    IdentityInSubgroup(G, g);
    OfOrder(G, Subgroup(G, g), AllElements(G), k)
  }

  /** Removing an element the pool does not hold is undefined in the
      source (erase of end()); here it is a precondition. */
  function Erase(pool: set<Tuple>, x: Tuple): (r: set<Tuple>)
    requires x in pool
    ensures |r| == |pool| - 1
  {
    pool - {x}
  }

  // ---------------------------------------------------------------------
  // The procedure

  /** calcElementOrders (FiniteAbelianClassifier.cpp:260-313). For every
      order k other than 1, k is tallied once per coset of that order:
      |H| times the added count is the number of elements of G whose coset
      has order k. The entry for 1 is overwritten with 1, H's own. */
  method CalcElementOrders(G: Group, generator: Tuple, orderTracker: map<nat, nat>)
    returns (tracker: map<nat, nat>)
    requires G.Valid() && G.Contains(generator)
    ensures 1 in tracker && tracker[1] == 1
    ensures forall k :: k != 1 ==>
      Get(tracker, k) * GeneratorOrder(G, generator) ==
      Get(orderTracker, k) * GeneratorOrder(G, generator) + |ElementsOfOrder(G, generator, k)|
    ensures forall k :: k in tracker <==> k in orderTracker || k == 1 || ElementsOfOrder(G, generator, k) != {}
  {
    var elements := set x | x in G.Elements();
    ElementsFacts(G);
    var H, pool := IdentityCoset(G, generator, elements);
    tracker := orderTracker[1 := 1];
    ghost var done: set<Tuple> := {};
    SweepStart(G, generator, H, pool, orderTracker);
    while |pool| > 0
      invariant Sweeping(G, generator, H, pool, done, orderTracker, tracker)
      decreases |pool|
    {
      pool, done, tracker := NextCoset(G, generator, H, pool, done, orderTracker, tracker);
    }
    SweepDone(G, generator, H, done, orderTracker, tracker);
  }

  /** Lines 274-282: H collects g, 2g, ... up to the identity, and each is
      erased from the pool of elements. */
  method IdentityCoset(G: Group, generator: Tuple, elements: set<Tuple>)
    returns (H: seq<Tuple>, elements': set<Tuple>)
    requires G.Valid() && G.Contains(generator)
    requires forall x :: G.Contains(x) ==> x in elements
    ensures H == Subgroup(G, generator)
    ensures forall x :: x in elements' <==> x in elements && x !in H
  {
    var element := generator;
    ScaleZeroOne(G, generator);
    GeneratorOrderIsLeast(G, generator);
    H := [element];
    elements' := Erase(elements, element);
    while element != G.Identity()
      invariant Listing(G, generator, elements, H, element, elements')
      decreases GeneratorOrder(G, generator) - |H|
    {
      H, element, elements' := ListNext(G, generator, elements, H, element, elements');
    }
    AtOrder(G, generator, |H|);
  }

  /** The loop invariant of lines 276-282: H lists g, 2g, ..., |H| * g, the
      last of them is the current element, and the pool has lost exactly H. */
  ghost predicate Listing(G: Group, g: Tuple, elements: set<Tuple>, H: seq<Tuple>, element: Tuple, pool: set<Tuple>)
  {
    && G.Valid() && G.Contains(g) && (forall x :: G.Contains(x) ==> x in elements)
    && 1 <= |H| <= GeneratorOrder(G, g)
    && H == Multiples(G, g, |H|) && element == H[|H| - 1]
    && (forall x :: x in pool <==> x in elements && x !in H)
  }

  /** Lines 278-281: the next multiple is appended to H and erased from the pool. */
  method ListNext(G: Group, generator: Tuple, ghost elements: set<Tuple>, H: seq<Tuple>, element: Tuple,
                  pool: set<Tuple>)
    returns (H': seq<Tuple>, element': Tuple, pool': set<Tuple>)
    requires Listing(G, generator, elements, H, element, pool) && element != G.Identity()
    ensures Listing(G, generator, elements, H', element', pool') && |H'| == |H| + 1
  {
    BelowOrder(G, generator, |H|);
    ScaleStep(G, generator, |H|);
    element' := G.Add(element, generator);
    NotYetListed(G, generator, |H|);
    MultiplesSnoc(G, generator, |H|);
    H' := H + [element'];
    pool' := Erase(pool, element');
  }

  /** The first multiple that is the identity is ord(g) * g. */
  lemma AtOrder(G: Group, g: Tuple, n: nat)
    requires G.Valid() && G.Contains(g) && 1 <= n <= GeneratorOrder(G, g) && G.Scale(n, g) == G.Identity()
    ensures n == GeneratorOrder(G, g)
  {
    GeneratorOrderIsLeast(G, g);
  }

  /** A multiple n * g short of the identity comes before ord(g). */
  lemma BelowOrder(G: Group, g: Tuple, n: nat)
    requires G.Valid() && G.Contains(g) && 1 <= n <= GeneratorOrder(G, g) && G.Scale(n, g) != G.Identity()
    ensures n < GeneratorOrder(G, g)
  {
    GeneratorOrderIsLeast(G, g);
  }

  lemma MultiplesSnoc(G: Group, g: Tuple, n: nat)
    requires G.Valid() && |g| == |G.products|
    ensures Multiples(G, g, n + 1) == Multiples(G, g, n) + [G.Scale(n + 1, g)]
  {
    assert forall i :: 0 <= i < n ==> Multiples(G, g, n + 1)[i] == Multiples(G, g, n)[i];
  }

  /** The next multiple is not among those listed before it. */
  lemma NotYetListed(G: Group, g: Tuple, n: nat)
    requires G.Valid() && G.Contains(g) && 1 <= n < GeneratorOrder(G, g)
    ensures G.Scale(n + 1, g) !in Multiples(G, g, n)
  {
    forall i | 0 <= i < n ensures Multiples(G, g, n)[i] != G.Scale(n + 1, g) {
      MultiplesDistinct(G, g, i + 1, n + 1);
    }
  }

  /** No two of g, 2g, ..., ord(g) * g coincide. */
  lemma MultiplesDistinct(G: Group, g: Tuple, i: nat, j: nat)
    requires G.Valid() && G.Contains(g) && 1 <= i < j <= GeneratorOrder(G, g)
    ensures G.Scale(i, g) != G.Scale(j, g)
  {
    GeneratorOrderIsLeast(G, g);
    ScaleAdd(G, g, j - i, i);
    AddIdentity(G, G.Scale(i, g));
    AddCancelIff(G, G.Scale(j - i, g), G.Identity(), G.Scale(i, g));
  }

  lemma AddCancelIff(G: Group, a: Tuple, b: Tuple, c: Tuple)
    requires G.Valid() && G.Contains(a) && G.Contains(b) && G.Contains(c)
    ensures G.Add(a, c) == G.Add(b, c) <==> a == b
  {
    if G.Add(a, c) == G.Add(b, c) {
      AddCancel(G, a, b, c);
    }
  }

  /** <g> lists no element twice. */
  lemma SubgroupDistinct(G: Group, g: Tuple)
    requires G.Valid() && G.Contains(g)
    ensures Distinct(Subgroup(G, g))
  {
    var H := Subgroup(G, g);
    forall i, j | 0 <= i < j < |H| ensures H[i] != H[j] {
      MultiplesDistinct(G, g, i + 1, j + 1);
    }
  }

  /** The loop invariant of lines 290-312: the pool holds the elements
      outside H not yet swept; the swept ones are closed under adding H;
      the tally so far counts the swept elements of each coset order. */
  ghost predicate Sweeping(G: Group, g: Tuple, H: seq<Tuple>, pool: set<Tuple>, done: set<Tuple>,
                           t0: map<nat, nat>, t: map<nat, nat>)
  {
    && G.Valid() && G.Contains(g) && H == Subgroup(G, g) && G.Identity() in H
    && (forall x :: x in pool <==> G.Contains(x) && x !in H && x !in done)
    && (forall x :: x in done ==> G.Contains(x) && x !in H)
    && Closed(G, H, done)
    && 1 in t && t[1] == 1
    && (forall k :: k != 1 ==> Mul(Get(t, k), |H|) == Mul(Get(t0, k), |H|) + |OfOrder(G, H, done, k)|)
    && (forall k :: k in t <==> k in t0 || k == 1 || OfOrder(G, H, done, k) != {})
  }

  /** Adding any member of H to a member of S stays in S. */
  ghost predicate Closed(G: Group, H: seq<Tuple>, S: set<Tuple>)
    requires G.Valid()
  {
    forall i, d :: 0 <= i < |H| && d in S && |H[i]| == |G.products| && |d| == |G.products| ==> G.Add(H[i], d) in S
  }

  lemma SweepStart(G: Group, g: Tuple, H: seq<Tuple>, pool: set<Tuple>, t0: map<nat, nat>)
    requires G.Valid() && G.Contains(g) && H == Subgroup(G, g)
    requires forall x :: x in pool <==> G.Contains(x) && x !in H
    ensures Sweeping(G, g, H, pool, {}, t0, t0[1 := 1])
  {
    IdentityInSubgroup(G, g);
    forall k ensures OfOrder(G, H, {}, k) == {} {
    }
  }

  /** Lines 292-311: one coset x + H is swept out of the pool and its order tallied. */
  method NextCoset(G: Group, ghost g: Tuple, H: seq<Tuple>, pool: set<Tuple>, ghost done: set<Tuple>,
                   ghost t0: map<nat, nat>, tracker: map<nat, nat>)
    returns (pool': set<Tuple>, ghost done': set<Tuple>, tracker': map<nat, nat>)
    requires Sweeping(G, g, H, pool, done, t0, tracker) && pool != {}
    ensures Sweeping(G, g, H, pool', done', t0, tracker') && |pool'| < |pool|
  {
    var element := Pick(pool);
    CosetInPool(G, g, H, pool, done, element);
    var gH;
    gH, pool' := Translate(G, H, element, pool);
    var order := TranslateOrder(G, g, H, element, gH);
    // Lines 307-311: a new order is entered with count 1, a known one is incremented.
    tracker' := tracker[order := Get(tracker, order) + 1];
    done' := done + Members(gH);
    SweepStep(G, g, H, pool, done, t0, tracker, element);
  }

  /** Lines 302-305: the order of gH in G/H, computed by orderOfCoset from
      its first element, is the coset order of x. */
  method TranslateOrder(G: Group, ghost g: Tuple, H: seq<Tuple>, x: Tuple, gH: seq<Tuple>) returns (order: nat)
    requires G.Valid() && G.Contains(g) && H == Subgroup(G, g) && G.Contains(x) && gH == Shifted(G, H, x)
    ensures G.Identity() in H && order == CosetOrder(G, H, x)
  {
    IdentityInSubgroup(G, g);
    var coset := OrderOfCoset(Coset(gH, 0), Coset(H, 1), G);
    CosetOrderOfRep(G, g, H, x, coset.order);
    order := coset.order;
  }

  /** elements[0] (line 292): some element still in the pool. */
  method Pick(pool: set<Tuple>) returns (x: Tuple)
    requires pool != {}
    ensures x in pool
  {
    x :| x in pool;
  }

  /** Lines 295-300: gH is the translate H + x; every element of it is
      erased from the pool. */
  method Translate(G: Group, H: seq<Tuple>, x: Tuple, pool: set<Tuple>)
    returns (gH: seq<Tuple>, pool': set<Tuple>)
    requires G.Valid() && G.Contains(x) && (forall i :: 0 <= i < |H| ==> |H[i]| == |G.products| && G.Contains(H[i])) && Distinct(H)
    requires forall i :: 0 <= i < |H| ==> G.Add(H[i], x) in pool
    ensures gH == Shifted(G, H, x)
    ensures pool' == pool - Members(gH)
  {
    ShiftedDistinct(G, H, x);
    gH := [];
    pool' := pool;
    var i := 0;
    while i < |H|
      invariant 0 <= i <= |H|
      invariant gH == Shifted(G, H, x)[..i]
      invariant pool' == pool - Members(gH)
    {
      var temp := G.Add(H[i], x);
      TranslateStep(G, H, x, pool, i);
      gH := gH + [temp];
      pool' := Erase(pool', temp);
      i := i + 1;
    }
  }

  /** The i-th element of H + x extends the prefix built so far, is not in
      it, and is still in the pool. */
  lemma TranslateStep(G: Group, H: seq<Tuple>, x: Tuple, pool: set<Tuple>, i: nat)
    requires G.Valid() && G.Contains(x) && (forall i :: 0 <= i < |H| ==> |H[i]| == |G.products| && G.Contains(H[i]))
    requires Distinct(Shifted(G, H, x)) && i < |H|
    requires forall i :: 0 <= i < |H| ==> G.Add(H[i], x) in pool
    ensures Shifted(G, H, x)[..i + 1] == Shifted(G, H, x)[..i] + [G.Add(H[i], x)]
    ensures G.Add(H[i], x) !in Members(Shifted(G, H, x)[..i])
    ensures G.Add(H[i], x) in pool - Members(Shifted(G, H, x)[..i])
  {
    assert Shifted(G, H, x)[i] == G.Add(H[i], x);
  }

  lemma ShiftedDistinct(G: Group, H: seq<Tuple>, x: Tuple)
    requires G.Valid() && G.Contains(x) && (forall i :: 0 <= i < |H| ==> |H[i]| == |G.products| && G.Contains(H[i])) && Distinct(H)
    ensures Distinct(Shifted(G, H, x))
  {
    forall i, j | 0 <= i < j < |H| ensures G.Add(H[i], x) != G.Add(H[j], x) {
      AddCancelIff(G, H[i], H[j], x);
    }
  }

  // ---------------------------------------------------------------------
  // One coset

  /** Every element of x + H is still in the pool: it is outside H because
      x is, and it is not swept because the swept elements are closed under
      adding H and x is not swept. */
  lemma CosetInPool(G: Group, g: Tuple, H: seq<Tuple>, pool: set<Tuple>, done: set<Tuple>, x: Tuple)
    requires G.Valid() && G.Contains(g) && H == Subgroup(G, g)
    requires forall y :: y in pool <==> G.Contains(y) && y !in H && y !in done
    requires Closed(G, H, done)
    requires x in pool && G.Contains(x)
    ensures Distinct(H) && forall i :: 0 <= i < |H| ==> |H[i]| == |G.products| && G.Contains(H[i])
    ensures forall i :: 0 <= i < |H| ==> G.Add(H[i], x) in pool
  {
    SubgroupDistinct(G, g);
    forall i | 0 <= i < |H| ensures G.Add(H[i], x) in pool {
      CosetMemberInPool(G, g, H, pool, done, x, i);
    }
  }

  lemma CosetMemberInPool(G: Group, g: Tuple, H: seq<Tuple>, pool: set<Tuple>, done: set<Tuple>, x: Tuple, i: nat)
    requires G.Valid() && G.Contains(g) && H == Subgroup(G, g) && i < |H|
    requires forall y :: y in pool <==> G.Contains(y) && y !in H && y !in done
    requires Closed(G, H, done)
    requires x in pool && G.Contains(x)
    ensures G.Add(H[i], x) in pool
  {
    var y := G.Add(H[i], x);
    ShiftIn(G, g, H[i], x);
    var j := InverseIndex(G, g, H, i);
    AddAssoc(G, H[j], H[i], x);
    AddIdentity(G, x);
    assert G.Add(H[j], y) == x;
  }

  /** The position in H of the inverse of H[i]. */
  lemma InverseIndex(G: Group, g: Tuple, H: seq<Tuple>, i: nat) returns (j: nat)
    requires G.Valid() && G.Contains(g) && H == Subgroup(G, g) && i < |H|
    ensures j < |H| && G.Add(H[j], H[i]) == G.Identity()
  {
    var h' := Inverse(G, g, H[i]);
    j :| 0 <= j < |H| && H[j] == h';
  }

  /** The order of gH computed from its first element is the coset order of x. */
  lemma CosetOrderOfRep(G: Group, g: Tuple, H: seq<Tuple>, x: Tuple, r: nat)
    requires G.Valid() && G.Contains(g) && H == Subgroup(G, g) && G.Contains(x)
    requires G.Identity() in H && |H| >= 1
    requires r >= 1 && G.Scale(r, G.Add(H[0], x)) in H
    requires forall k :: 1 <= k < r ==> G.Scale(k, G.Add(H[0], x)) !in H
    ensures r == CosetOrder(G, H, x)
  {
    CosetOrderShift(G, g, H[0], x);
  }

  /** Sweeping x + H out of the pool keeps the invariant of lines 290-312. */
  lemma SweepStep(G: Group, g: Tuple, H: seq<Tuple>, pool: set<Tuple>, done: set<Tuple>,
                  t0: map<nat, nat>, t: map<nat, nat>, x: Tuple)
    requires Sweeping(G, g, H, pool, done, t0, t) && x in pool
    ensures Sweeping(G, g, H, pool - Members(Shifted(G, H, x)), done + Members(Shifted(G, H, x)), t0,
                     t[CosetOrder(G, H, x) := Get(t, CosetOrder(G, H, x)) + 1])
    ensures |pool - Members(Shifted(G, H, x))| < |pool|
  {
    SweepSets(G, g, H, pool, done, t0, t, x);
    ClosureStep(G, g, H, done, x);
    CosetSummary(G, g, H, x);
    var C := Members(Shifted(G, H, x));
    var k := CosetOrder(G, H, x);
    SweepTally(G, H, done, C, t0, t, k);
    SweepingIntro(G, g, H, pool - C, done + C, t0, t[k := Get(t, k) + 1]);
  }

  /** The coset leaves the pool, which shrinks, and joins the swept elements. */
  lemma SweepSets(G: Group, g: Tuple, H: seq<Tuple>, pool: set<Tuple>, done: set<Tuple>,
                  t0: map<nat, nat>, t: map<nat, nat>, x: Tuple)
    requires Sweeping(G, g, H, pool, done, t0, t) && x in pool
    ensures forall y :: y in pool - Members(Shifted(G, H, x)) <==>
      G.Contains(y) && y !in H && y !in done + Members(Shifted(G, H, x))
    ensures forall y :: y in done + Members(Shifted(G, H, x)) ==> G.Contains(y) && y !in H
    ensures done !! Members(Shifted(G, H, x))
    ensures |pool - Members(Shifted(G, H, x))| < |pool|
  {
    CosetInPool(G, g, H, pool, done, x);
    var C := Members(Shifted(G, H, x));
    assert C <= pool;
    PoolStep(G, H, pool, done, C);
    assert G.Add(H[0], x) in C;
    assert G.Add(H[0], x) !in pool - C;
  }

  /** The tally of k grows by one when a coset C of order k joins the swept
      elements, and keeps pace with the swept elements of every order. */
  lemma SweepTally(G: Group, H: seq<Tuple>, done: set<Tuple>, C: set<Tuple>,
                   t0: map<nat, nat>, t: map<nat, nat>, k: nat)
    requires G.Valid() && G.Identity() in H && done !! C && C != {} && |C| == |H| && k != 1
    requires forall y :: y in C ==> G.Contains(y) && CosetOrder(G, H, y) == k
    requires 1 in t && t[1] == 1
    requires forall k :: k != 1 ==> Mul(Get(t, k), |H|) == Mul(Get(t0, k), |H|) + |OfOrder(G, H, done, k)|
    requires forall k :: k in t <==> k in t0 || k == 1 || OfOrder(G, H, done, k) != {}
    ensures 1 in t[k := Get(t, k) + 1] && t[k := Get(t, k) + 1][1] == 1
    ensures forall k' :: k' != 1 ==>
      Mul(Get(t[k := Get(t, k) + 1], k'), |H|) == Mul(Get(t0, k'), |H|) + |OfOrder(G, H, done + C, k')|
    ensures forall k' :: k' in t[k := Get(t, k) + 1] <==> k' in t0 || k' == 1 || OfOrder(G, H, done + C, k') != {}
  {
    OfOrderGrow(G, H, done, C, k);
    CountsStep(G, H, done, C, t0, t, k);
    KeysStep(G, H, done, C, t0, t, k);
  }

  /** x + H is a nonempty set of |H| elements, all of the coset order of x. */
  lemma CosetSummary(G: Group, g: Tuple, H: seq<Tuple>, x: Tuple)
    requires G.Valid() && G.Contains(g) && H == Subgroup(G, g) && G.Contains(x) && x !in H
    ensures G.Identity() in H && CosetOrder(G, H, x) != 1
    ensures Members(Shifted(G, H, x)) != {} && |Members(Shifted(G, H, x))| == |H|
    ensures forall y :: y in Members(Shifted(G, H, x)) ==> G.Contains(y) && CosetOrder(G, H, y) == CosetOrder(G, H, x)
  {
    CosetMembers(G, g, H, x);
    CosetCard(G, g, H, x);
    CosetOrderOneIff(G, H, x);
    IdentityInSubgroup(G, g);
    assert G.Add(H[0], x) in Members(Shifted(G, H, x));
  }

  lemma SweepingIntro(G: Group, g: Tuple, H: seq<Tuple>, pool: set<Tuple>, done: set<Tuple>,
                      t0: map<nat, nat>, t: map<nat, nat>)
    requires G.Valid() && G.Contains(g) && H == Subgroup(G, g) && G.Identity() in H
    requires forall x :: x in pool <==> G.Contains(x) && x !in H && x !in done
    requires forall x :: x in done ==> G.Contains(x) && x !in H
    requires Closed(G, H, done)
    requires 1 in t && t[1] == 1
    requires forall k :: k != 1 ==> Mul(Get(t, k), |H|) == Mul(Get(t0, k), |H|) + |OfOrder(G, H, done, k)|
    requires forall k :: k in t <==> k in t0 || k == 1 || OfOrder(G, H, done, k) != {}
    ensures Sweeping(G, g, H, pool, done, t0, t)
  {
  }

  /** The coset leaves the pool and joins the swept elements. */
  lemma PoolStep(G: Group, H: seq<Tuple>, pool: set<Tuple>, done: set<Tuple>, C: set<Tuple>)
    requires forall x :: x in pool <==> G.Contains(x) && x !in H && x !in done
    requires forall x :: x in done ==> G.Contains(x) && x !in H
    requires C <= pool
    ensures forall x :: x in pool - C <==> G.Contains(x) && x !in H && x !in done + C
    ensures forall x :: x in done + C ==> G.Contains(x) && x !in H
    ensures done !! C
  {
  }

  /** The tally for k grows by one and the swept elements of order k by |H|. */
  lemma CountsStep(G: Group, H: seq<Tuple>, done: set<Tuple>, C: set<Tuple>,
                   t0: map<nat, nat>, t: map<nat, nat>, k: nat)
    requires G.Valid() && G.Identity() in H && k != 1 && |C| == |H|
    requires forall k' :: k' != 1 ==> Mul(Get(t, k'), |H|) == Mul(Get(t0, k'), |H|) + |OfOrder(G, H, done, k')|
    requires |OfOrder(G, H, done + C, k)| == |OfOrder(G, H, done, k)| + |C|
    requires forall k' :: k' != k ==> OfOrder(G, H, done + C, k') == OfOrder(G, H, done, k')
    ensures forall k' :: k' != 1 ==>
      Mul(Get(t[k := Get(t, k) + 1], k'), |H|) == Mul(Get(t0, k'), |H|) + |OfOrder(G, H, done + C, k')|
  {
    forall k' | k' != 1
      ensures Mul(Get(t[k := Get(t, k) + 1], k'), |H|) == Mul(Get(t0, k'), |H|) + |OfOrder(G, H, done + C, k')|
    {
      if k' == k {
        CountingStep(t0, t, k, |H|, |C|, |OfOrder(G, H, done, k)|, |OfOrder(G, H, done + C, k)|);
      }
    }
  }

  /** The tally gains the key k, which now has swept elements. */
  lemma KeysStep(G: Group, H: seq<Tuple>, done: set<Tuple>, C: set<Tuple>,
                 t0: map<nat, nat>, t: map<nat, nat>, k: nat)
    requires G.Valid() && G.Identity() in H && C != {}
    requires forall k' :: k' in t <==> k' in t0 || k' == 1 || OfOrder(G, H, done, k') != {}
    requires OfOrder(G, H, done + C, k) == OfOrder(G, H, done, k) + C
    requires forall k' :: k' != k ==> OfOrder(G, H, done + C, k') == OfOrder(G, H, done, k')
    ensures forall k' :: k' in t[k := Get(t, k) + 1] <==> k' in t0 || k' == 1 || OfOrder(G, H, done + C, k') != {}
  {
  }

  /** The elements of x + H all have the coset order of x. */
  lemma CosetMembers(G: Group, g: Tuple, H: seq<Tuple>, x: Tuple)
    requires G.Valid() && G.Contains(g) && H == Subgroup(G, g) && G.Contains(x)
    ensures G.Identity() in H
    ensures forall y :: y in Members(Shifted(G, H, x)) ==> G.Contains(y) && CosetOrder(G, H, y) == CosetOrder(G, H, x)
  {
    IdentityInSubgroup(G, g);
    forall y | y in Members(Shifted(G, H, x)) ensures G.Contains(y) && CosetOrder(G, H, y) == CosetOrder(G, H, x) {
      CosetMember(G, g, H, x, y);
    }
  }

  lemma CosetMember(G: Group, g: Tuple, H: seq<Tuple>, x: Tuple, y: Tuple)
    requires G.Valid() && G.Contains(g) && H == Subgroup(G, g) && G.Contains(x)
    requires y in Members(Shifted(G, H, x))
    ensures G.Identity() in H && G.Contains(y) && CosetOrder(G, H, y) == CosetOrder(G, H, x)
  {
    var i :| 0 <= i < |H| && Shifted(G, H, x)[i] == y;
    CosetOrderShift(G, g, H[i], x);
  }

  /** x + H has exactly |H| elements. */
  lemma CosetCard(G: Group, g: Tuple, H: seq<Tuple>, x: Tuple)
    requires G.Valid() && G.Contains(g) && H == Subgroup(G, g) && G.Contains(x)
    ensures |Members(Shifted(G, H, x))| == |H|
  {
    SubgroupDistinct(G, g);
    ShiftedDistinct(G, H, x);
    DistinctCard(Shifted(G, H, x));
  }

  /** The swept elements stay closed under adding H when a whole coset joins them. */
  lemma ClosureStep(G: Group, g: Tuple, H: seq<Tuple>, done: set<Tuple>, x: Tuple)
    requires G.Valid() && G.Contains(g) && H == Subgroup(G, g) && G.Contains(x)
    requires Closed(G, H, done)
    ensures Closed(G, H, done + Members(Shifted(G, H, x)))
  {
    var C := Members(Shifted(G, H, x));
    forall i, d | 0 <= i < |H| && d in done + C && |H[i]| == |G.products| && |d| == |G.products|
      ensures G.Add(H[i], d) in done + C
    {
      if d in C {
        TranslateClosed(G, g, H, x, i, d);
      }
    }
  }

  lemma TranslateClosed(G: Group, g: Tuple, H: seq<Tuple>, x: Tuple, i: nat, d: Tuple)
    requires G.Valid() && G.Contains(g) && H == Subgroup(G, g) && G.Contains(x) && i < |H|
    requires d in Members(Shifted(G, H, x))
    ensures G.Add(H[i], d) in Members(Shifted(G, H, x))
  {
    var j :| 0 <= j < |H| && Shifted(G, H, x)[j] == d;
    AddAssoc(G, H[i], H[j], x);
    AddClosed(G, g, H[i], H[j]);
    var m :| 0 <= m < |H| && H[m] == G.Add(H[i], H[j]);
    assert Shifted(G, H, x)[m] == G.Add(H[i], d);
  }

  /** Adding a coset of order k to the swept elements adds it to those of
      order k and to no others. */
  lemma OfOrderGrow(G: Group, H: seq<Tuple>, done: set<Tuple>, C: set<Tuple>, k: nat)
    requires G.Valid() && G.Identity() in H && done !! C
    requires forall y :: y in C ==> G.Contains(y) && CosetOrder(G, H, y) == k
    ensures OfOrder(G, H, done + C, k) == OfOrder(G, H, done, k) + C
    ensures |OfOrder(G, H, done + C, k)| == |OfOrder(G, H, done, k)| + |C|
    ensures forall k' :: k' != k ==> OfOrder(G, H, done + C, k') == OfOrder(G, H, done, k')
  {
    assert OfOrder(G, H, done, k) !! C;
  }

  /** The tally and the swept count of order k grow together. */
  lemma CountingStep(t0: map<nat, nat>, t: map<nat, nat>, k: nat, n: nat, c: nat, before: nat, after: nat)
    requires Mul(Get(t, k), n) == Mul(Get(t0, k), n) + before && after == before + c && c == n
    ensures Mul(Get(t[k := Get(t, k) + 1], k), n) == Mul(Get(t0, k), n) + after
  {
  }

  /** With the pool empty, the swept elements are all of G outside H. */
  lemma SweepDone(G: Group, g: Tuple, H: seq<Tuple>, done: set<Tuple>, t0: map<nat, nat>, t: map<nat, nat>)
    requires Sweeping(G, g, H, {}, done, t0, t)
    ensures 1 in t && t[1] == 1
    ensures forall k :: k != 1 ==>
      Get(t, k) * GeneratorOrder(G, g) == Get(t0, k) * GeneratorOrder(G, g) + |ElementsOfOrder(G, g, k)|
    ensures forall k :: k in t <==> k in t0 || k == 1 || ElementsOfOrder(G, g, k) != {}
  {
    forall k | k != 1
      ensures Get(t, k) * |H| == Get(t0, k) * |H| + |ElementsOfOrder(G, g, k)|
    {
      SweptOfOrder(G, g, H, done, k);
      MulIsProduct(Get(t, k), |H|);
      MulIsProduct(Get(t0, k), |H|);
    }
    SweptKeys(G, g, H, done);
  }

  lemma SweptKeys(G: Group, g: Tuple, H: seq<Tuple>, done: set<Tuple>)
    requires G.Valid() && G.Contains(g) && H == Subgroup(G, g) && G.Identity() in H
    requires forall y :: G.Contains(y) && y !in H ==> y in done
    requires forall y :: y in done ==> G.Contains(y) && y !in H
    ensures forall k :: k != 1 ==> OfOrder(G, H, done, k) == ElementsOfOrder(G, g, k)
  {
    forall k | k != 1 ensures OfOrder(G, H, done, k) == ElementsOfOrder(G, g, k) {
      SweptOfOrder(G, g, H, done, k);
    }
  }

  lemma SweptOfOrder(G: Group, g: Tuple, H: seq<Tuple>, done: set<Tuple>, k: nat)
    requires G.Valid() && G.Contains(g) && H == Subgroup(G, g) && G.Identity() in H && k != 1
    requires forall y :: G.Contains(y) && y !in H ==> y in done
    requires forall y :: y in done ==> G.Contains(y) && y !in H
    ensures OfOrder(G, H, done, k) == ElementsOfOrder(G, g, k)
  {
    ElementsFacts(G);
    forall y | G.Contains(y) && y in H ensures CosetOrder(G, H, y) == 1 {
      CosetOrderOneIff(G, H, y);
    }
  }

  // ---------------------------------------------------------------------
  // The tally counts every coset once

  /** The sum of a tally's counts. */
  ghost function Total(m: map<nat, nat>): nat
    decreases |m|
  {
    if m == map[] then 0
    else
      var k :| k in m;
      assert |m - {k}| < |m| by {
        assert (m - {k}).Keys == m.Keys - {k};
      }
      m[k] + Total(m - {k})
  }

  /** The sum does not depend on which key is split off first. */
  lemma {:induction false} TotalRemove(m: map<nat, nat>, q: nat)
    requires q in m
    ensures Total(m) == m[q] + Total(m - {q})
    decreases |m|
  {
    var p: nat :| p in m && Total(m) == m[p] + Total(m - {p});
    if p != q {
      assert |m - {p}| < |m| && |m - {q}| < |m| by {
        assert (m - {p}).Keys == m.Keys - {p};
        assert (m - {q}).Keys == m.Keys - {q};
      }
      TotalRemove(m - {p}, q);
      TotalRemove(m - {q}, p);
      assert m - {p} - {q} == m - {q} - {p};
      assert (m - {p})[q] == m[q];
      assert (m - {q})[p] == m[p];
    }
  }

  /** Lines 292-311 as a lemma: sweeping x + H keeps the invariant and
      shrinks the pool. */
  lemma SweepOne(G: Group, g: Tuple, H: seq<Tuple>, pool: set<Tuple>, done: set<Tuple>,
                 t0: map<nat, nat>, t: map<nat, nat>, x: Tuple)
    returns (pool': set<Tuple>, done': set<Tuple>, t': map<nat, nat>)
    requires Sweeping(G, g, H, pool, done, t0, t) && x in pool
    ensures Sweeping(G, g, H, pool', done', t0, t') && |pool'| < |pool|
  {
    SweepStep(G, g, H, pool, done, t0, t, x);
    pool', done', t' := NextState(G, H, pool, done, t, x);
  }

  /** The state after sweeping x + H, as lines 292-311 leave it. */
  lemma NextState(G: Group, H: seq<Tuple>, pool: set<Tuple>, done: set<Tuple>, t: map<nat, nat>, x: Tuple)
    returns (pool': set<Tuple>, done': set<Tuple>, t': map<nat, nat>)
    requires G.Valid() && G.Contains(x) && G.Identity() in H
    requires forall i :: 0 <= i < |H| ==> |H[i]| == |G.products|
    ensures pool' == pool - Members(Shifted(G, H, x)) && done' == done + Members(Shifted(G, H, x))
    ensures t' == t[CosetOrder(G, H, x) := Get(t, CosetOrder(G, H, x)) + 1]
  {
    pool', done' := pool - Members(Shifted(G, H, x)), done + Members(Shifted(G, H, x));
    t' := t[CosetOrder(G, H, x) := Get(t, CosetOrder(G, H, x)) + 1];
  }

  lemma Member(pool: set<Tuple>) returns (x: Tuple)
    requires pool != {}
    ensures x in pool
  {
    x :| x in pool;
  }

  /** Lines 274-312 as a lemma: from the pool left by the identity coset,
      sweeping every coset gives the tally CalcElementOrders promises. */
  lemma SweptTally(G: Group, g: Tuple, orderTracker: map<nat, nat>) returns (t: map<nat, nat>)
    requires G.Valid() && G.Contains(g)
    ensures 1 in t && t[1] == 1
    ensures forall k :: k != 1 ==>
      Get(t, k) * GeneratorOrder(G, g) ==
      Get(orderTracker, k) * GeneratorOrder(G, g) + |ElementsOfOrder(G, g, k)|
    ensures forall k :: k in t <==> k in orderTracker || k == 1 || ElementsOfOrder(G, g, k) != {}
  {
    var H := Subgroup(G, g);
    var pool := OutsideSubgroup(G, g);
    SweepStart(G, g, H, pool, orderTracker);
    var done := {};
    t := orderTracker[1 := 1];
    while pool != {}
      invariant Sweeping(G, g, H, pool, done, orderTracker, t)
      decreases |pool|
    {
      var x := Member(pool);
      pool, done, t := SweepOne(G, g, H, pool, done, orderTracker, t, x);
    }
    SweepDone(G, g, H, done, orderTracker, t);
  }

  /** The elements of G outside <g>, the pool after lines 274-282. */
  lemma OutsideSubgroup(G: Group, g: Tuple) returns (pool: set<Tuple>)
    requires G.Valid() && G.Contains(g)
    ensures forall x :: x in pool <==> G.Contains(x) && x !in Subgroup(G, g)
  {
    ElementsFacts(G);
    pool := AllElements(G) - Members(Subgroup(G, g));
  }
}
