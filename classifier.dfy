/** The last two steps of main: the candidates are narrowed by the largest
    order in G/<g> and then compared, histogram of element orders against
    histogram of coset orders, until one matches. */
module Classifier {
  import opened NumberTheory
  import opened Groups
  import opened CyclicSubgroup
  import opened Cosets
  import opened ElementOrders
  import opened Candidates

  datatype Option<T> = None | Some(value: T)

  // ---------------------------------------------------------------------
  // The statistics calcElementOrders collects

  /** The orders that the cosets x + <g> have in G/<g>. */
  ghost function CosetOrders(G: Group, g: Tuple): set<nat>
    requires G.Valid() && G.Contains(g)
  {
    IdentityInSubgroup(G, g);
    set x | x in AllElements(G) && G.Contains(x) :: CosetOrder(G, Subgroup(G, g), x)
  }

  /** How many cosets of <g> there are of each order: each coset of order k
      holds ord(g) of the elements whose coset has order k. */
  ghost function QuotientHistogram(G: Group, g: Tuple): map<nat, nat>
    requires G.Valid() && G.Contains(g)
  {
    map k | k in CosetOrders(G, g) :: CosetsOfOrder(G, g, k)
  }

  /** The number of cosets of order k. */
  ghost function CosetsOfOrder(G: Group, g: Tuple, k: nat): nat
    requires G.Valid() && G.Contains(g)
  {
    LcmAllPositive(ComponentOrders(G, g));
    |ElementsOfOrder(G, g, k)| / GeneratorOrder(G, g)
  }

  /** The statistics of a candidate: calcElementOrders with the identity as
      generator (line 85), a quotient by the trivial subgroup. */
  ghost function Histogram(G: Group): map<nat, nat>
    requires G.Valid()
  {
    IdentityIsElement(G);
    QuotientHistogram(G, G.Identity())
  }

  /** The elements of G of order k. */
  ghost function WithOrder(G: Group, k: nat): set<Tuple>
    requires G.Valid()
  {
    set x | x in AllElements(G) && G.Contains(x) && GeneratorOrder(G, x) == k
  }

  lemma IdentityIsElement(G: Group)
    requires G.Valid()
    ensures G.Contains(G.Identity()) && G.Identity() in AllElements(G)
  {
    ElementsFacts(G);
  }

  /** What calcElementOrders(G, g, {}) leaves in its map is the histogram of
      coset orders of G/<g>, the identity coset included. */
  lemma TalliedHistogram(G: Group, g: Tuple, orderTracker: map<nat, nat>, tracker: map<nat, nat>)
    requires G.Valid() && G.Contains(g) && orderTracker == map[]
    requires 1 in tracker && tracker[1] == 1
    requires forall k :: k != 1 ==>
      Get(tracker, k) * GeneratorOrder(G, g) ==
      Get(orderTracker, k) * GeneratorOrder(G, g) + |ElementsOfOrder(G, g, k)|
    requires forall k :: k in tracker <==> k in orderTracker || k == 1 || ElementsOfOrder(G, g, k) != {}
    ensures tracker == QuotientHistogram(G, g)
  {
    HistogramKeys(G, g, tracker);
    FreshTally(G, g, orderTracker, tracker);
    HistogramValues(G, g, tracker);
  }

  /** Starting from an empty map, the tally counts the elements of each order alone. */
  lemma FreshTally(G: Group, g: Tuple, orderTracker: map<nat, nat>, tracker: map<nat, nat>)
    requires G.Valid() && G.Contains(g) && orderTracker == map[]
    requires forall k :: k != 1 ==>
      Get(tracker, k) * GeneratorOrder(G, g) ==
      Get(orderTracker, k) * GeneratorOrder(G, g) + |ElementsOfOrder(G, g, k)|
    ensures forall k :: k != 1 ==> Get(tracker, k) * GeneratorOrder(G, g) == |ElementsOfOrder(G, g, k)|
  {
    var n := GeneratorOrder(G, g);
    forall k | k != 1 ensures Get(tracker, k) * n == |ElementsOfOrder(G, g, k)| {
      assert Get(orderTracker, k) * n == 0;
    }
  }

  lemma HistogramKeys(G: Group, g: Tuple, tracker: map<nat, nat>)
    requires G.Valid() && G.Contains(g)
    requires forall k :: k in tracker <==> k == 1 || ElementsOfOrder(G, g, k) != {}
    ensures tracker.Keys == QuotientHistogram(G, g).Keys
  {
    forall k ensures k in tracker <==> k in CosetOrders(G, g) {
      CosetOrdersIff(G, g, k);
    }
  }

  lemma HistogramValues(G: Group, g: Tuple, tracker: map<nat, nat>)
    requires G.Valid() && G.Contains(g)
    requires 1 in tracker && tracker[1] == 1
    requires forall k :: k != 1 ==> Get(tracker, k) * GeneratorOrder(G, g) == |ElementsOfOrder(G, g, k)|
    ensures forall k :: k in tracker ==> tracker[k] == CosetsOfOrder(G, g, k)
  {
    forall k | k in tracker ensures tracker[k] == CosetsOfOrder(G, g, k) {
      LcmAllPositive(ComponentOrders(G, g));
      if k == 1 {
        IdentityCosetCount(G, g);
      } else {
        ExactQuotient(tracker[k], GeneratorOrder(G, g), |ElementsOfOrder(G, g, k)|);
      }
    }
  }

  /** An order occurs exactly when some element has it; the identity coset has order 1. */
  lemma CosetOrdersIff(G: Group, g: Tuple, k: nat)
    requires G.Valid() && G.Contains(g)
    ensures k in CosetOrders(G, g) <==> k == 1 || ElementsOfOrder(G, g, k) != {}
  {
    IdentityInSubgroup(G, g);
    IdentityIsElement(G);
    var H := Subgroup(G, g);
    CosetOrderOneIff(G, H, G.Identity());
    if k in CosetOrders(G, g) {
      var x :| x in AllElements(G) && G.Contains(x) && CosetOrder(G, H, x) == k;
      assert x in ElementsOfOrder(G, g, k);
    }
    if ElementsOfOrder(G, g, k) != {} {
      var x :| x in ElementsOfOrder(G, g, k);
      assert CosetOrder(G, H, x) in CosetOrders(G, g);
    }
    assert CosetOrder(G, H, G.Identity()) in CosetOrders(G, g);
  }

  /** The elements whose coset has order 1 are those of <g>: ord(g) of them. */
  lemma IdentityCosetCount(G: Group, g: Tuple)
    requires G.Valid() && G.Contains(g)
    ensures GeneratorOrder(G, g) >= 1
    ensures |ElementsOfOrder(G, g, 1)| == GeneratorOrder(G, g)
    ensures |ElementsOfOrder(G, g, 1)| / GeneratorOrder(G, g) == 1
  {
    GeneratorOrderIsLeast(G, g);
    IdentityInSubgroup(G, g);
    ElementsFacts(G);
    var H := Subgroup(G, g);
    forall x | x in ElementsOfOrder(G, g, 1) ensures x in Members(H) {
      CosetOrderOneIff(G, H, x);
    }
    forall x | x in Members(H) ensures x in ElementsOfOrder(G, g, 1) {
      var _ := SubgroupIndex(G, g, x);
      CosetOrderOneIff(G, H, x);
    }
    assert ElementsOfOrder(G, g, 1) == Members(H);
    SubgroupDistinct(G, g);
    DistinctCard(H);
  }

  lemma ExactQuotient(q: nat, n: nat, m: nat)
    requires n >= 1 && q * n == m
    ensures q == m / n
  {
    DivModUnique(m, n, q, 0);
  }

  // ---------------------------------------------------------------------
  // The counts add up to the number of cosets

  /** The elements of G whose coset x + <g> has one of the orders ks. */
  ghost function WithCosetOrderIn(G: Group, g: Tuple, ks: set<nat>): set<Tuple>
    requires G.Valid() && G.Contains(g)
  {
    IdentityInSubgroup(G, g);
    set x | x in AllElements(G) && G.Contains(x) && CosetOrder(G, Subgroup(G, g), x) in ks
  }

  /** The histogram of G/<g> has one count per coset: its counts add up to
      |G| / ord(g), the order of the quotient. */
  lemma HistogramSum(G: Group, g: Tuple)
    requires G.Valid() && G.Contains(g)
    ensures GeneratorOrder(G, g) >= 1
    ensures Total(QuotientHistogram(G, g)) * GeneratorOrder(G, g) == G.Order()
    ensures Total(QuotientHistogram(G, g)) == G.Order() / GeneratorOrder(G, g)
  {
    var n := GeneratorOrder(G, g);
    var empty: map<nat, nat> := map[];
    var t := SweptTally(G, g, empty);
    TalliedHistogram(G, g, empty, t);
    ExactCounts(G, g, empty, t);
    TotalCounts(G, g, t);
    EveryCosetOrder(G, g);
    ExactQuotient(Total(t), n, G.Order());
  }

  /** Every count of a fresh tally is exact: ord(g) times it is the number
      of elements whose coset has that order. */
  lemma ExactCounts(G: Group, g: Tuple, orderTracker: map<nat, nat>, t: map<nat, nat>)
    requires G.Valid() && G.Contains(g) && orderTracker == map[]
    requires 1 in t && t[1] == 1
    requires forall k :: k != 1 ==>
      Get(t, k) * GeneratorOrder(G, g) ==
      Get(orderTracker, k) * GeneratorOrder(G, g) + |ElementsOfOrder(G, g, k)|
    ensures forall k :: k in t ==> t[k] * GeneratorOrder(G, g) == |ElementsOfOrder(G, g, k)|
  {
    FreshTally(G, g, orderTracker, t);
    IdentityCosetCount(G, g);
  }

  /** The elements are split by coset order, so exact counts add up to the
      number of elements whose coset order is a key. */
  lemma {:induction false} TotalCounts(G: Group, g: Tuple, m: map<nat, nat>)
    requires G.Valid() && G.Contains(g)
    requires forall k :: k in m ==> m[k] * GeneratorOrder(G, g) == |ElementsOfOrder(G, g, k)|
    ensures Total(m) * GeneratorOrder(G, g) == |WithCosetOrderIn(G, g, m.Keys)|
    decreases |m|
  {
    if m == map[] {
      NoOrders(G, g, m.Keys);
    } else {
      var q, rest := SplitKey(m);
      RestExact(G, g, m, q, rest);
      TotalCounts(G, g, rest);
      SplitOff(G, g, m.Keys, q);
      Combine(Total(m), m[q], Total(rest), GeneratorOrder(G, g), |ElementsOfOrder(G, g, q)|,
              |WithCosetOrderIn(G, g, rest.Keys)|, |WithCosetOrderIn(G, g, m.Keys)|);
    }
  }

  /** Some key q of m, and m without it. */
  lemma SplitKey(m: map<nat, nat>) returns (q: nat, rest: map<nat, nat>)
    requires m != map[]
    ensures q in m && rest == m - {q} && rest.Keys == m.Keys - {q} && |rest| < |m|
    ensures Total(m) == m[q] + Total(rest)
    ensures forall k :: k in rest ==> rest[k] == m[k]
  {
    q :| q in m;
    rest := m - {q};
    assert rest.Keys == m.Keys - {q};
    TotalRemove(m, q);
  }

  lemma NoOrders(G: Group, g: Tuple, ks: set<nat>)
    requires G.Valid() && G.Contains(g) && ks == {}
    ensures |WithCosetOrderIn(G, g, ks)| == 0
  {
    assert WithCosetOrderIn(G, g, ks) == {};
  }

  lemma RestExact(G: Group, g: Tuple, m: map<nat, nat>, q: nat, rest: map<nat, nat>)
    requires G.Valid() && G.Contains(g) && rest == m - {q}
    requires forall k :: k in m ==> m[k] * GeneratorOrder(G, g) == |ElementsOfOrder(G, g, k)|
    ensures forall k :: k in rest ==> rest[k] * GeneratorOrder(G, g) == |ElementsOfOrder(G, g, k)|
  {
  }

  lemma Combine(t: nat, a: nat, b: nat, n: nat, A: nat, B: nat, W: nat)
    requires t == a + b && a * n == A && b * n == B && W == B + A
    ensures t * n == W
  {
    assert (a + b) * n == a * n + b * n;
  }

  /** Taking the order q out of ks takes exactly its elements away. */
  lemma SplitOff(G: Group, g: Tuple, ks: set<nat>, q: nat)
    requires G.Valid() && G.Contains(g) && q in ks
    ensures |WithCosetOrderIn(G, g, ks)| == |WithCosetOrderIn(G, g, ks - {q})| + |ElementsOfOrder(G, g, q)|
  {
    var A, B := WithCosetOrderIn(G, g, ks - {q}), ElementsOfOrder(G, g, q);
    assert WithCosetOrderIn(G, g, ks) == A + B;
    assert A !! B;
  }

  /** Every element's coset order is a key of the histogram. */
  lemma EveryCosetOrder(G: Group, g: Tuple)
    requires G.Valid() && G.Contains(g)
    ensures |WithCosetOrderIn(G, g, QuotientHistogram(G, g).Keys)| == G.Order()
  {
    ElementsFacts(G);
    assert WithCosetOrderIn(G, g, QuotientHistogram(G, g).Keys) == AllElements(G);
  }

  /** A candidate's counts add up to its order. */
  lemma CandidateHistogramSum(H: Group)
    requires H.Valid()
    ensures Total(Histogram(H)) == H.Order()
  {
    IdentityIsElement(H);
    IdentityHasOrderOne(H);
    HistogramSum(H, H.Identity());
  }

  // ---------------------------------------------------------------------
  // A candidate's histogram counts its elements by order

  /** Modulo the trivial subgroup, a coset's order is its element's order. */
  lemma TrivialCosetOrder(G: Group, x: Tuple)
    requires G.Valid() && G.Contains(x)
    ensures G.Contains(G.Identity()) && G.Identity() in Subgroup(G, G.Identity())
    ensures CosetOrder(G, Subgroup(G, G.Identity()), x) == GeneratorOrder(G, x)
  {
    IdentityIsElement(G);
    IdentityHasOrderOne(G);
    ScaleZeroOne(G, G.Identity());
    var H := Subgroup(G, G.Identity());
    assert H == [G.Identity()];
    GeneratorOrderIsLeast(G, x);
  }

  lemma TrivialElementsOfOrder(G: Group, k: nat)
    requires G.Valid()
    ensures G.Contains(G.Identity())
    ensures ElementsOfOrder(G, G.Identity(), k) == WithOrder(G, k)
  {
    IdentityIsElement(G);
    forall x | x in AllElements(G) && G.Contains(x)
      ensures x in ElementsOfOrder(G, G.Identity(), k) <==> x in WithOrder(G, k)
    {
      TrivialCosetOrder(G, x);
    }
  }

  /** calcElementOrders(H, H.identity(), {}) counts the elements of H by
      order: a key for every order that occurs, with its number of elements. */
  lemma HistogramCountsOrders(G: Group, k: nat)
    requires G.Valid()
    ensures k in Histogram(G) <==> WithOrder(G, k) != {}
    ensures k in Histogram(G) ==> Histogram(G)[k] == |WithOrder(G, k)|
  {
    IdentityIsElement(G);
    IdentityHasOrderOne(G);
    TrivialElementsOfOrder(G, k);
    CosetOrdersIff(G, G.Identity(), k);
    if k == 1 {
      ScaleZeroOne(G, G.Identity());
      assert G.Identity() in WithOrder(G, 1);
    }
  }

  /** The largest order in a candidate's histogram is its largestOrderElement:
      no element's order exceeds it, and (1, ..., 1) attains it. */
  lemma HistogramLargest(G: Group)
    requires G.Valid()
    ensures G.LargestOrderElement() in Histogram(G)
    ensures forall k :: k in Histogram(G) ==> k <= G.LargestOrderElement()
  {
    var L := G.LargestOrderElement();
    LargestOrderElementFacts(G);
    var one := MaxOrderWitness(G);
    ElementsFacts(G);
    assert one in WithOrder(G, L);
    HistogramCountsOrders(G, L);
    forall k | k in Histogram(G) ensures k <= L {
      HistogramCountsOrders(G, k);
      var x :| x in WithOrder(G, k);
      GeneratorOrderDivides(G, x);
      DividesLe(k, L);
    }
  }

  /** The element (1, ..., 1) reduced, whose order is the lcm of the factors. */
  lemma MaxOrderWitness(G: Group) returns (one: Tuple)
    requires G.Valid()
    ensures G.Contains(one) && GeneratorOrder(G, one) == G.LargestOrderElement()
  {
    one := G.Mod(seq(|G.products|, _ => 1));
    forall i | 0 <= i < |one| ensures ComponentOrders(G, one)[i] == G.products[i] {
      FullComponentOrder(G.products[i]);
    }
    assert ComponentOrders(G, one) == G.products;
  }

  lemma FullComponentOrder(n: nat)
    requires n >= 1
    ensures ComponentOrder(n, 1 % n) == n
  {
    if n == 1 {
      assert Gcd(1, 0) == 1;
    } else {
      assert Gcd(n, 1) == Gcd(1, 0) == 1;
    }
  }

  // ---------------------------------------------------------------------
  // The largest order in GStats (line 63)

  /** GStats.rbegin()->first: the largest key of a non-empty map. */
  method LargestKey(m: map<nat, nat>) returns (r: nat)
    requires m != map[]
    ensures r in m && forall k :: k in m ==> k <= r
  {
    LargestExists(m.Keys);
    r :| r in m && forall k :: k in m ==> k <= r;
  }

  lemma LargestExists(s: set<nat>)
    requires s != {}
    ensures exists r :: r in s && forall k :: k in s ==> k <= r
    decreases |s|
  {
    var x :| x in s;
    var rest := s - {x};
    if rest == {} {
      assert forall k :: k in s && k != x ==> k in rest;
    } else {
      LargestExists(rest);
      var y :| y in rest && forall k :: k in rest ==> k <= y;
      var top := if x < y then y else x;
      assert forall k :: k in s ==> k == x || k in rest;
      assert top in s && forall k :: k in s ==> k <= top;
    }
  }

  // ---------------------------------------------------------------------
  // Narrowing (lines 63-70)

  /** The candidates the narrowing loop keeps: those whose largest element
      order reaches maxOrder. */
  function Kept(cs: seq<Group>, maxOrder: nat): (r: seq<Group>)
    ensures |r| <= |cs|
  {
    if |cs| == 0 then []
    else (if cs[0].LargestOrderElement() < maxOrder then [] else [cs[0]]) + Kept(cs[1..], maxOrder)
  }

  /** A candidate survives exactly when its largestOrderElement reaches maxOrder. */
  lemma {:induction false} KeptMembers(cs: seq<Group>, maxOrder: nat, H: Group)
    ensures H in Kept(cs, maxOrder) <==> H in cs && H.LargestOrderElement() >= maxOrder
  {
    if |cs| != 0 {
      KeptMembers(cs[1..], maxOrder, H);
      assert H in cs <==> H == cs[0] || H in cs[1..];
    }
  }

  /** Kept distributes over concatenation, so survivors keep their relative order. */
  lemma {:induction false} KeptConcat(a: seq<Group>, b: seq<Group>, maxOrder: nat)
    ensures Kept(a + b, maxOrder) == Kept(a, maxOrder) + Kept(b, maxOrder)
  {
    if |a| == 0 {
      assert a + b == b;
    } else {
      var head := if a[0].LargestOrderElement() < maxOrder then [] else [a[0]];
      assert (a + b)[0] == a[0] && (a + b)[1..] == a[1..] + b;
      calc {
        Kept(a + b, maxOrder);
        head + Kept(a[1..] + b, maxOrder);
        { KeptConcat(a[1..], b, maxOrder); }
        head + (Kept(a[1..], maxOrder) + Kept(b, maxOrder));
        Kept(a, maxOrder) + Kept(b, maxOrder);
      }
    }
  }

  /** Lines 63-70: erase every candidate whose largestOrderElement is below
      maxOrder. After an erase the index is decremented and the loop's
      increment brings it back, so the element that moved into slot i is
      tested next; with unsigned i the pair wraps around at 0 to the same
      effect. */
  method Narrow(candidates: seq<Group>, maxOrder: nat) returns (narrowed: seq<Group>)
    ensures narrowed == Kept(candidates, maxOrder)
  {
    narrowed := candidates;
    var i := 0;
    ghost var seen := 0;
    while i < |narrowed|
      invariant i <= |narrowed| && seen <= |candidates|
      invariant narrowed[..i] == Kept(candidates[..seen], maxOrder)
      invariant narrowed[i..] == candidates[seen..]
      decreases |narrowed| - i
    {
      NarrowStep(candidates, seen, maxOrder);
      if narrowed[i].LargestOrderElement() < maxOrder {
        narrowed := narrowed[..i] + narrowed[i + 1..];
      } else {
        i := i + 1;
      }
      seen := seen + 1;
    }
    assert candidates[..seen] == candidates;
  }

  lemma NarrowStep(cs: seq<Group>, seen: nat, maxOrder: nat)
    requires seen < |cs|
    ensures Kept(cs[..seen + 1], maxOrder) ==
      Kept(cs[..seen], maxOrder) + (if cs[seen].LargestOrderElement() < maxOrder then [] else [cs[seen]])
  {
    assert cs[..seen + 1] == cs[..seen] + [cs[seen]];
    KeptConcat(cs[..seen], [cs[seen]], maxOrder);
    assert [cs[seen]][1..] == [];
  }

  // ---------------------------------------------------------------------
  // Matching (lines 83-91)

  /** H is a group whose histogram is stats: the test of line 87. */
  ghost predicate Matches(H: Group, stats: map<nat, nat>)
  {
    H.Valid() && Histogram(H) == stats
  }

  /** The first candidate whose histogram equals stats. */
  ghost function FirstMatch(cs: seq<Group>, stats: map<nat, nat>): Option<Group>
  {
    if |cs| == 0 then None
    else if Matches(cs[0], stats) then Some(cs[0])
    else FirstMatch(cs[1..], stats)
  }

  /** FirstMatch finds nothing exactly when no candidate matches. */
  lemma {:induction false} FirstMatchNone(cs: seq<Group>, stats: map<nat, nat>)
    ensures FirstMatch(cs, stats).None? <==> forall i :: 0 <= i < |cs| ==> !Matches(cs[i], stats)
  {
    if |cs| != 0 && !Matches(cs[0], stats) {
      FirstMatchNone(cs[1..], stats);
      assert forall i :: 1 <= i < |cs| ==> cs[i] == cs[1..][i - 1];
    }
  }

  /** The candidate FirstMatch finds matches and comes before every other match. */
  lemma {:induction false} FirstMatchFirst(cs: seq<Group>, stats: map<nat, nat>)
    requires FirstMatch(cs, stats).Some?
    ensures exists i :: 0 <= i < |cs| && cs[i] == FirstMatch(cs, stats).value &&
                        Matches(cs[i], stats) && forall j :: 0 <= j < i ==> !Matches(cs[j], stats)
  {
    if !Matches(cs[0], stats) {
      var rest := cs[1..];
      FirstMatchFirst(rest, stats);
      var i :| 0 <= i < |rest| && rest[i] == FirstMatch(cs, stats).value &&
        Matches(rest[i], stats) && forall j :: 0 <= j < i ==> !Matches(rest[j], stats);
      FirstMatchShift(cs, stats, i);
    }
  }

  lemma FirstMatchShift(cs: seq<Group>, stats: map<nat, nat>, i: nat)
    requires 0 < |cs| && !Matches(cs[0], stats) && i < |cs| - 1
    requires forall j :: 0 <= j < i ==> !Matches(cs[1..][j], stats)
    ensures forall j :: 0 <= j < i + 1 ==> !Matches(cs[j], stats)
  {
    assert forall j :: 1 <= j < i + 1 ==> cs[j] == cs[1..][j - 1];
  }

  /** What FirstMatch finds is one of the candidates, and it matches. */
  lemma {:induction false} FirstMatchMember(cs: seq<Group>, stats: map<nat, nat>)
    requires FirstMatch(cs, stats).Some?
    ensures FirstMatch(cs, stats).value in cs && Matches(FirstMatch(cs, stats).value, stats)
  {
    if !Matches(cs[0], stats) {
      FirstMatchMember(cs[1..], stats);
    }
  }

  /** Lines 83-91: compute each candidate's histogram and stop at the first
      that equals GStats. */
  method FindMatch(candidates: seq<Group>, GStats: map<nat, nat>) returns (r: Option<Group>)
    requires forall H :: H in candidates ==> H.Valid()
    ensures r == FirstMatch(candidates, GStats)
  {
    var i := 0;
    while i < |candidates|
      invariant i <= |candidates|
      invariant FirstMatch(candidates, GStats) == FirstMatch(candidates[i..], GStats)
    {
      var g := candidates[i];
      IdentityIsElement(g);
      var possibleStats := CalcElementOrders(g, g.Identity(), map[]);
      TalliedHistogram(g, g.Identity(), map[], possibleStats);
      assert candidates[i..][1..] == candidates[i + 1..];
      if possibleStats == GStats {
        return Some(g);
      }
      i := i + 1;
    }
    return None;
  }

  /** Narrowing by the largest key of the statistics never removes a match:
      a candidate whose histogram equals stats has stats' largest key as its
      largestOrderElement. */
  lemma {:induction false} NarrowKeepsMatch(cs: seq<Group>, stats: map<nat, nat>, maxOrder: nat)
    requires maxOrder in stats && forall k :: k in stats ==> k <= maxOrder
    ensures FirstMatch(Kept(cs, maxOrder), stats) == FirstMatch(cs, stats)
  {
    if |cs| != 0 {
      var rest := Kept(cs[1..], maxOrder);
      NarrowKeepsMatch(cs[1..], stats, maxOrder);
      if Matches(cs[0], stats) {
        HistogramLargest(cs[0]);
        assert Kept(cs, maxOrder) == [cs[0]] + rest;
      } else if cs[0].LargestOrderElement() >= maxOrder {
        assert Kept(cs, maxOrder) == [cs[0]] + rest;
        assert ([cs[0]] + rest)[1..] == rest;
      } else {
        assert Kept(cs, maxOrder) == rest;
      }
    }
  }

  lemma KeptValid(cs: seq<Group>, maxOrder: nat)
    requires forall H :: H in cs ==> H.Valid()
    ensures forall H :: H in Kept(cs, maxOrder) ==> H.Valid()
  {
    forall H | H in Kept(cs, maxOrder) ensures H.Valid() {
      KeptMembers(cs, maxOrder, H);
    }
  }

  // ---------------------------------------------------------------------
  // main after its arguments are parsed (lines 48-91)

  /** Classifies G/<generator>: the candidates, GStats, the narrowing and
      the match. The result is the first candidate, in the order the
      odometer lists them, whose element-order histogram equals the
      coset-order histogram of G/<generator>; narrowing does not change it. */
  method Classify(G: Group, generator: Tuple) returns (r: Result<Option<Group>>)
    requires G.Valid()
    requires |generator| == |G.products| ==> G.Contains(generator)
    ensures r.Err? <==> |generator| != |G.products|
    ensures r.Err? ==> r.error == ArityMismatch
    ensures r.Ok? ==> G.Contains(generator) && exists m, nodes ::
      IsFactorization(m, QuotientOrder(G, generator)) && TableFor(nodes, m) &&
      r.value == FirstMatch(Survivors(G, AllCandidates(nodes)), QuotientHistogram(G, generator))
    ensures r.Ok? && r.value.Some? ==>
      (G.Contains(generator) && r.value.value.Valid() && r.value.value.Order() == QuotientOrder(G, generator) &&
       Histogram(r.value.value) == QuotientHistogram(G, generator))
  {
    var possible := FindPossibleIsoGroup(G, generator);
    if possible.Err? {
      return Err(possible.error);
    }
    var candidates := possible.value;
    var GStats := CalcElementOrders(G, generator, map[]);
    TalliedHistogram(G, generator, map[], GStats);
    var maxOrder := LargestKey(GStats);
    var narrowed := Narrow(candidates, maxOrder);
    KeptValid(candidates, maxOrder);
    var found := FindMatch(narrowed, GStats);
    NarrowKeepsMatch(candidates, GStats, maxOrder);
    if found.Some? {
      FirstMatchMember(candidates, GStats);
    }
    r := Ok(found);
  }
}
