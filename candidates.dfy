/** findPossibleIsoGroup: by the fundamental theorem of finitely generated
    abelian groups, every group of order |G/<g>| is a direct sum of cyclic
    groups of prime-power order, one partition of each prime's exponent.
    The candidates are enumerated with an odometer over the partition
    lists and pruned by their largest element order. */
module Candidates {
  import opened NumberTheory
  import opened Groups
  import opened CyclicSubgroup
  import opened Factorization
  import opened Partitions
  import opened MixedRadix

  /** partitionNode (lines 163-166) together with the prime it is stored under. */
  datatype PartitionNode = PartitionNode(prime: nat, partitions: seq<seq<nat>>, iter: nat)

  /** The order of G/<g> (line 177). */
  function QuotientOrder(G: Group, g: Tuple): nat
    requires G.Valid() && |g| == |G.products|
  {
    GeneratorOrderDivides(G, g);
    G.Order() / GeneratorOrder(G, g)
  }

  /** m is a prime factorisation of n. */
  ghost predicate IsFactorization(m: map<nat, nat>, n: nat)
  {
    PowerProduct(m) == n && forall p :: p in m ==> IsPrime(p) && m[p] >= 1
  }

  function Primes(nodes: seq<PartitionNode>): (ps: seq<nat>)
    ensures |ps| == |nodes| && forall i :: 0 <= i < |nodes| ==> ps[i] == nodes[i].prime
  {
    seq(|nodes|, i requires 0 <= i < |nodes| => nodes[i].prime)
  }

  function Radices(nodes: seq<PartitionNode>): (rs: seq<nat>)
    ensures |rs| == |nodes| && forall i :: 0 <= i < |nodes| ==> rs[i] == |nodes[i].partitions|
  {
    seq(|nodes|, i requires 0 <= i < |nodes| => |nodes[i].partitions|)
  }

  /** Every node has at least one partition, so the odometer has positive radices. */
  predicate Ready(nodes: seq<PartitionNode>)
  {
    forall i :: 0 <= i < |nodes| ==> |nodes[i].partitions| >= 1
  }

  /** The map partitions of lines 169 and 184-224: one node per prime of m,
      in increasing order of the primes, each holding the partition list of
      the prime's exponent and an iterator at 0. */
  ghost predicate TableFor(nodes: seq<PartitionNode>, m: map<nat, nat>)
  {
    && Ready(nodes)
    && (forall i, k :: 0 <= i < k < |nodes| ==> nodes[i].prime < nodes[k].prime)
    && (forall p :: p in m <==> p in Primes(nodes))
    && (forall i :: 0 <= i < |nodes| ==> nodes[i].prime in m && nodes[i].iter == 0)
    && (forall i :: 0 <= i < |nodes| ==> PartitionList(nodes[i].partitions, m[nodes[i].prime]))
  }

  /** The cyclic factors p^k for the parts k of one partition (line 238). */
  function Expand(p: nat, part: seq<nat>): (r: seq<nat>)
    ensures |r| == |part|
  {
    seq(|part|, k requires 0 <= k < |part| => Pow(p, part[k]))
  }

  /** The cyclic factors of the group that takes partition choice[i] for prime ps[i]. */
  function Assemble(ps: seq<nat>, choice: seq<seq<nat>>): seq<nat>
    requires |ps| == |choice|
    decreases |ps|
  {
    if |ps| == 0 then []
    else
      var n := |ps| - 1;
      Assemble(ps[..n], choice[..n]) + Expand(ps[n], choice[n])
  }

  /** The partitions the iterators d point at. */
  function Chosen(nodes: seq<PartitionNode>, d: seq<nat>): (ch: seq<seq<nat>>)
    requires InRange(Radices(nodes), d)
    ensures |ch| == |nodes|
  {
    seq(|nodes|, i requires 0 <= i < |nodes| => nodes[i].partitions[d[i]])
  }

  /** The group the odometer builds at count c. */
  function Candidate(nodes: seq<PartitionNode>, c: nat): Group
    requires Ready(nodes)
  {
    Group(Assemble(Primes(nodes), Chosen(nodes, Digits(Radices(nodes), c))))
  }

  function Combinations(nodes: seq<PartitionNode>): nat
    requires Ready(nodes)
  {
    Product(Radices(nodes))
  }

  /** Every group the odometer builds, in order, before pruning. */
  function AllCandidates(nodes: seq<PartitionNode>): (cs: seq<Group>)
    requires Ready(nodes)
    ensures |cs| == Combinations(nodes)
  {
    seq(Combinations(nodes), c requires 0 <= c < Combinations(nodes) => Candidate(nodes, c))
  }

  /** The pruning test of line 253, negated: H is kept. */
  predicate Fits(G: Group, H: Group)
  {
    H.LargestOrderElement() <= G.LargestOrderElement()
  }

  /** The candidates that survive pruning, in their original order. */
  function Survivors(G: Group, cs: seq<Group>): seq<Group>
  {
    if |cs| == 0 then []
    else
      var last := cs[|cs| - 1];
      Survivors(G, cs[..|cs| - 1]) + (if Fits(G, last) then [last] else [])
  }

  // ---------------------------------------------------------------------
  // The procedure

  /** findPossibleIsoGroup (FiniteAbelianClassifier.cpp:160-257). */
  method FindPossibleIsoGroup(G: Group, generator: Tuple) returns (r: Result<seq<Group>>)
    requires G.Valid()
    ensures r.Err? <==> |generator| != |G.products|
    ensures r.Err? ==> r.error == ArityMismatch
    ensures r.Ok? ==>
      exists m, nodes ::
        IsFactorization(m, QuotientOrder(G, generator)) && TableFor(nodes, m) &&
        r.value == Survivors(G, AllCandidates(nodes))
    ensures r.Ok? ==> forall H :: H in r.value ==>
      H.Valid() && H.Order() == QuotientOrder(G, generator) && Fits(G, H)
    ensures r.Ok? && QuotientOrder(G, generator) == 1 ==> r.value == [Group([])]
  {
    var orderOfGen := OrderOfGenerator(G, generator);
    if orderOfGen.Err? {
      return Err(orderOfGen.error);
    }
    GeneratorOrderDivides(G, generator);
    ProductPositive(G.products);
    var orderOfQgroup := G.Order() / orderOfGen.value;
    DividesWitness(orderOfGen.value, G.Order());
    assert orderOfQgroup == QuotientOrder(G, generator);
    var factors := PrimeFactorize(orderOfQgroup);
    var nodes := BuildNodes(factors);
    var groups, _ := Odometer(G, nodes);
    assert IsFactorization(factors, orderOfQgroup) && TableFor(nodes, factors);
    SurvivorFacts(G, nodes, factors, orderOfQgroup);
    if orderOfQgroup == 1 {
      TrivialQuotient(G, nodes, factors);
    }
    return Ok(groups);
  }

  /** Lines 184-224: one partition node per prime of factors, visited in
      increasing key order as std::map iterates. */
  method BuildNodes(factors: map<nat, nat>) returns (nodes: seq<PartitionNode>)
    requires forall p :: p in factors ==> factors[p] >= 1
    ensures TableFor(nodes, factors)
  {
    nodes := [];
    var rest := factors;
    while rest != map[]
      invariant Building(nodes, rest, factors)
      decreases |rest|
    {
      nodes, rest := AddNode(nodes, rest, factors);
    }
    BuildDone(nodes, rest, factors);
  }

  /** Lines 186-223 for the least key p left: the partition list of its
      exponent becomes the node for p. */
  method AddNode(nodes: seq<PartitionNode>, rest: map<nat, nat>, ghost factors: map<nat, nat>)
    returns (nodes': seq<PartitionNode>, rest': map<nat, nat>)
    requires Building(nodes, rest, factors) && rest != map[]
    ensures Building(nodes', rest', factors) && |rest'| < |rest|
  {
    var p := LeastKey(rest);
    var parts := PartitionsOf(rest[p]);
    BuildStep(nodes, rest, factors, p, parts);
    nodes' := nodes + [PartitionNode(p, parts, 0)];
    rest' := rest - {p};
  }

  /** The first key of a std::map: its least key. */
  method LeastKey(m: map<nat, nat>) returns (p: nat)
    requires m != map[]
    ensures p in m && forall k :: k in m ==> p <= k
  {
    SmallestRestKey(m);
    p :| p in m && forall k :: k in m ==> p <= k;
  }

  /** The loop invariant of BuildNodes: the nodes so far are the table of
      the keys of factors not in rest, all of which are below rest's keys. */
  ghost predicate Building(nodes: seq<PartitionNode>, rest: map<nat, nat>, factors: map<nat, nat>)
  {
    && (forall p :: p in rest ==> p in factors && rest[p] == factors[p] && rest[p] >= 1)
    && (forall p :: p in factors <==> p in rest || p in Primes(nodes))
    && (forall p, i :: p in rest && 0 <= i < |nodes| ==> nodes[i].prime < p)
    && Ready(nodes)
    && (forall i, k :: 0 <= i < k < |nodes| ==> nodes[i].prime < nodes[k].prime)
    && (forall i :: 0 <= i < |nodes| ==> nodes[i].prime in factors && nodes[i].iter == 0)
    && (forall i :: 0 <= i < |nodes| ==> PartitionList(nodes[i].partitions, factors[nodes[i].prime]))
  }

  lemma BuildStep(nodes: seq<PartitionNode>, rest: map<nat, nat>, factors: map<nat, nat>,
                  p: nat, parts: seq<seq<nat>>)
    requires Building(nodes, rest, factors)
    requires p in rest && (forall k :: k in rest ==> p <= k) && PartitionList(parts, rest[p])
    ensures Building(nodes + [PartitionNode(p, parts, 0)], rest - {p}, factors)
    ensures |rest - {p}| < |rest|
  {
    var node := PartitionNode(p, parts, 0);
    PrimesSnoc(nodes, node);
    KeysStep(Primes(nodes), rest, factors, p);
    SortedStep(nodes, rest, node);
    NodesStep(nodes, factors, node);
    assert (rest - {p}).Keys == rest.Keys - {p};
  }

  /** Moving key p from rest to the listed primes keeps the keys of factors covered. */
  lemma KeysStep(ps: seq<nat>, rest: map<nat, nat>, factors: map<nat, nat>, p: nat)
    requires p in rest && forall q :: q in factors <==> q in rest || q in ps
    ensures forall q :: q in factors <==> q in rest - {p} || q in ps + [p]
  {
    forall q ensures q in factors <==> q in rest - {p} || q in ps + [p] {
      assert q in ps + [p] <==> q in ps || q == p;
    }
  }

  /** Appending the least key of rest keeps the nodes sorted and below rest. */
  lemma SortedStep(nodes: seq<PartitionNode>, rest: map<nat, nat>, node: PartitionNode)
    requires node.prime in rest && forall k :: k in rest ==> node.prime <= k
    requires forall q, i :: q in rest && 0 <= i < |nodes| ==> nodes[i].prime < q
    requires forall i, k :: 0 <= i < k < |nodes| ==> nodes[i].prime < nodes[k].prime
    ensures forall q, i :: q in rest - {node.prime} && 0 <= i < |nodes + [node]| ==> (nodes + [node])[i].prime < q
    ensures forall i, k :: 0 <= i < k < |nodes + [node]| ==> (nodes + [node])[i].prime < (nodes + [node])[k].prime
  {
  }

  /** A node for a key of factors with its partition list and iterator 0 keeps the table well formed. */
  lemma NodesStep(nodes: seq<PartitionNode>, factors: map<nat, nat>, node: PartitionNode)
    requires node.prime in factors && node.iter == 0 && PartitionList(node.partitions, factors[node.prime])
    requires Ready(nodes)
    requires forall i :: 0 <= i < |nodes| ==> nodes[i].prime in factors && nodes[i].iter == 0
    requires forall i :: 0 <= i < |nodes| ==> PartitionList(nodes[i].partitions, factors[nodes[i].prime])
    ensures Ready(nodes + [node])
    ensures forall i :: 0 <= i < |nodes + [node]| ==> (nodes + [node])[i].prime in factors && (nodes + [node])[i].iter == 0
    ensures forall i :: 0 <= i < |nodes + [node]| ==>
      PartitionList((nodes + [node])[i].partitions, factors[(nodes + [node])[i].prime])
  {
  }

  lemma PrimesSnoc(nodes: seq<PartitionNode>, node: PartitionNode)
    ensures Primes(nodes + [node]) == Primes(nodes) + [node.prime]
  {
  }

  /** With nothing left in rest, the nodes are the whole table. */
  lemma BuildDone(nodes: seq<PartitionNode>, rest: map<nat, nat>, factors: map<nat, nat>)
    requires Building(nodes, rest, factors) && rest == map[]
    ensures TableFor(nodes, factors)
  {
  }

  /** The odometer of lines 228-256. Each pass builds the group the
      iterators point at, advances the iterators with a carry, and drops the
      group again if its largest element order exceeds G's. */
  method Odometer(G: Group, nodes: seq<PartitionNode>) returns (groups: seq<Group>, nodes': seq<PartitionNode>)
    requires Ready(nodes) && forall i :: 0 <= i < |nodes| ==> nodes[i].iter == 0
    ensures nodes' == nodes
    ensures groups == Survivors(G, AllCandidates(nodes))
  {
    ghost var N := Combinations(nodes);
    OdometerStart(G, nodes);
    nodes' := nodes;
    groups := [];
    var allDone := false;
    ghost var count := 0;
    while !allDone
      invariant Counting(G, nodes, nodes', groups, count)
      invariant allDone <==> count == N
      decreases N - count
    {
      ghost var D := Digits(Radices(nodes), count);
      var products;
      nodes', products, allDone := Pass(nodes, nodes', D);
      ghost var before := groups;
      groups := groups + [Group(products)];
      if G.LargestOrderElement() < groups[|groups| - 1].LargestOrderElement() {
        groups := groups[..|groups| - 1];
      }
      assert groups == if G.LargestOrderElement() < Group(products).LargestOrderElement()
        then before else before + [Group(products)];
      CountStep(G, nodes, count, nodes', products, allDone, before, groups);
      count := count + 1;
    }
    OdometerDone(G, nodes, nodes', groups, count);
  }

  /** The loop invariant of Odometer: count combinations are done, the
      iterators are the digits of count and groups holds their survivors. */
  ghost predicate Counting(G: Group, nodes: seq<PartitionNode>, cur: seq<PartitionNode>, groups: seq<Group>, count: nat)
  {
    && Ready(nodes) && |cur| == |nodes| && count <= Combinations(nodes)
    && (forall i :: 0 <= i < |nodes| ==> cur[i] == nodes[i].(iter := Digits(Radices(nodes), count)[i]))
    && groups == Survivors(G, AllCandidates(nodes)[..count])
  }

  lemma OdometerStart(G: Group, nodes: seq<PartitionNode>)
    requires Ready(nodes) && forall i :: 0 <= i < |nodes| ==> nodes[i].iter == 0
    ensures Counting(G, nodes, nodes, [], 0) && Combinations(nodes) >= 1
  {
    ProductPositive(Radices(nodes));
    DigitsZero(Radices(nodes));
    forall i | 0 <= i < |nodes| ensures nodes[i] == nodes[i].(iter := 0) {
    }
  }

  /** One pass of the odometer moves the invariant from count to count + 1. */
  lemma CountStep(G: Group, nodes: seq<PartitionNode>, count: nat, cur: seq<PartitionNode>,
                  products: seq<nat>, allDone: bool, groups: seq<Group>, groups': seq<Group>)
    requires Ready(nodes) && count < Combinations(nodes)
    requires |cur| == |nodes|
    requires forall i :: 0 <= i < |nodes| ==>
      cur[i] == nodes[i].(iter := Increment(Radices(nodes), Digits(Radices(nodes), count))[i])
    requires products == Assemble(Primes(nodes), Chosen(nodes, Digits(Radices(nodes), count)))
    requires allDone <==> CarryInto(Radices(nodes), Digits(Radices(nodes), count), |nodes|)
    requires groups == Survivors(G, AllCandidates(nodes)[..count])
    requires groups' == if G.LargestOrderElement() < Group(products).LargestOrderElement()
      then groups else groups + [Group(products)]
    ensures Counting(G, nodes, cur, groups', count + 1)
    ensures allDone <==> count + 1 == Combinations(nodes)
  {
    IterStep(nodes, count, cur, allDone);
    NextSurvivors(G, nodes, count, products, groups, groups');
  }

  /** After one pass the iterators are the digits of the next count, and
      the carry ran off the top exactly at the last count. */
  lemma IterStep(nodes: seq<PartitionNode>, count: nat, cur: seq<PartitionNode>, allDone: bool)
    requires Ready(nodes) && count < Combinations(nodes) && |cur| == |nodes|
    requires forall i :: 0 <= i < |nodes| ==>
      cur[i] == nodes[i].(iter := Increment(Radices(nodes), Digits(Radices(nodes), count))[i])
    requires allDone <==> CarryInto(Radices(nodes), Digits(Radices(nodes), count), |nodes|)
    ensures forall i :: 0 <= i < |nodes| ==> cur[i] == nodes[i].(iter := Digits(Radices(nodes), count + 1)[i])
    ensures allDone <==> count + 1 == Combinations(nodes)
  {
    NextIters(nodes, count, cur);
    CarryOutAtEnd(Radices(nodes), count);
  }

  /** After a pass the iterators are the digits of the next count. */
  lemma NextIters(nodes: seq<PartitionNode>, count: nat, cur: seq<PartitionNode>)
    requires Ready(nodes) && count < Combinations(nodes) && |cur| == |nodes|
    requires forall i :: 0 <= i < |nodes| ==>
      cur[i] == nodes[i].(iter := Increment(Radices(nodes), Digits(Radices(nodes), count))[i])
    ensures forall i :: 0 <= i < |nodes| ==> cur[i] == nodes[i].(iter := Digits(Radices(nodes), count + 1)[i])
  {
    IncrementDigits(Radices(nodes), count);
  }

  lemma OdometerDone(G: Group, nodes: seq<PartitionNode>, cur: seq<PartitionNode>, groups: seq<Group>, count: nat)
    requires Counting(G, nodes, cur, groups, count) && count == Combinations(nodes)
    requires forall i :: 0 <= i < |nodes| ==> nodes[i].iter == 0
    ensures cur == nodes && groups == Survivors(G, AllCandidates(nodes))
  {
    DigitsZero(Radices(nodes));
    forall i | 0 <= i < |nodes| ensures cur[i] == nodes[i] {
    }
    assert AllCandidates(nodes)[..count] == AllCandidates(nodes);
  }

  /** Keeping or dropping the group built at count c extends the survivors of the counts before it. */
  lemma NextSurvivors(G: Group, nodes: seq<PartitionNode>, c: nat, products: seq<nat>,
                      groups: seq<Group>, groups': seq<Group>)
    requires Ready(nodes) && c < Combinations(nodes)
    requires products == Assemble(Primes(nodes), Chosen(nodes, Digits(Radices(nodes), c)))
    requires groups == Survivors(G, AllCandidates(nodes)[..c])
    requires groups' == if G.LargestOrderElement() < Group(products).LargestOrderElement()
      then groups else groups + [Group(products)]
    ensures groups' == Survivors(G, AllCandidates(nodes)[..c + 1])
  {
    NextCandidate(nodes, c, products);
    var cs := AllCandidates(nodes)[..c + 1];
    assert cs[..|cs| - 1] == AllCandidates(nodes)[..c];
  }

  /** The group built at count c extends the list of candidates so far by one. */
  lemma NextCandidate(nodes: seq<PartitionNode>, c: nat, products: seq<nat>)
    requires Ready(nodes) && c < Combinations(nodes)
    requires products == Assemble(Primes(nodes), Chosen(nodes, Digits(Radices(nodes), c)))
    ensures AllCandidates(nodes)[..c + 1] == AllCandidates(nodes)[..c] + [Group(products)]
  {
    TakeSnoc(AllCandidates(nodes), c);
  }

  lemma TakeSnoc<T>(s: seq<T>, c: nat)
    requires c < |s|
    ensures s[..c + 1] == s[..c] + [s[c]]
  {
  }

  /** Lines 230-248: one pass of the odometer over the nodes in key order.
      It appends the factors of every node's current partition and advances
      the iterators as an odometer does. allDone ends true exactly when
      every iter wrapped around. */
  method Pass(nodes: seq<PartitionNode>, cur: seq<PartitionNode>, ghost D: seq<nat>)
    returns (nodes': seq<PartitionNode>, products: seq<nat>, allDone: bool)
    requires Ready(nodes) && InRange(Radices(nodes), D) && |cur| == |nodes|
    requires forall i :: 0 <= i < |nodes| ==> cur[i] == nodes[i].(iter := D[i])
    ensures |nodes'| == |nodes|
    ensures forall i :: 0 <= i < |nodes| ==> nodes'[i] == nodes[i].(iter := Increment(Radices(nodes), D)[i])
    ensures products == Assemble(Primes(nodes), Chosen(nodes, D))
    ensures allDone <==> CarryInto(Radices(nodes), D, |nodes|)
  {
    nodes' := cur;
    allDone := true;
    products := [];
    var i := 0;
    while i < |nodes'|
      invariant Passing(nodes, D, nodes', products, allDone, i)
      decreases |nodes| - i
    {
      nodes', products, allDone := Wheel(nodes, D, nodes', products, allDone, i);
      i := i + 1;
    }
    assert Primes(nodes)[..i] == Primes(nodes) && Chosen(nodes, D)[..i] == Chosen(nodes, D);
  }

  /** The invariant of the loop of lines 235-248 after i wheels. */
  ghost predicate Passing(nodes: seq<PartitionNode>, D: seq<nat>, cur: seq<PartitionNode>,
                          products: seq<nat>, allDone: bool, i: nat)
    requires Ready(nodes) && InRange(Radices(nodes), D)
  {
    && i <= |nodes| && |cur| == |nodes|
    && (allDone <==> CarryInto(Radices(nodes), D, i))
    && (forall k :: 0 <= k < i ==> cur[k] == nodes[k].(iter := Increment(Radices(nodes), D)[k]))
    && (forall k :: i <= k < |nodes| ==> cur[k] == nodes[k].(iter := D[k]))
    && products == Assemble(Primes(nodes)[..i], Chosen(nodes, D)[..i])
  }

  /** The body of the loop of lines 235-248 for wheel i. */
  method Wheel(nodes: seq<PartitionNode>, ghost D: seq<nat>, cur: seq<PartitionNode>,
               products: seq<nat>, allDone: bool, i: nat)
    returns (cur': seq<PartitionNode>, products': seq<nat>, allDone': bool)
    requires Ready(nodes) && InRange(Radices(nodes), D) && i < |nodes|
    requires Passing(nodes, D, cur, products, allDone, i)
    ensures Passing(nodes, D, cur', products', allDone', i + 1)
  {
    ghost var rs := Radices(nodes);
    var partition := cur[i].partitions[cur[i].iter];
    AssembleSnoc(Primes(nodes), Chosen(nodes, D), i);
    products' := AppendFactors(products, cur[i].prime, partition);
    IncrementAt(rs, D, i);
    CarryIntoNext(rs, D, i);
    var node, carry := Advance(cur[i], allDone);
    cur' := cur[i := node];
    allDone' := carry;
  }

  /** Lines 237-239: push p^k for every part k of the partition. */
  method AppendFactors(products: seq<nat>, p: nat, partition: seq<nat>) returns (products': seq<nat>)
    ensures products' == products + Expand(p, partition)
  {
    products' := products;
    var j := 0;
    while j < |partition|
      invariant 0 <= j <= |partition|
      invariant products' == products + Expand(p, partition)[..j]
    {
      assert Expand(p, partition)[..j + 1] == Expand(p, partition)[..j] + [Pow(p, partition[j])];
      products' := products' + [Pow(p, partition[j])];
      j := j + 1;
    }
    assert Expand(p, partition)[..j] == Expand(p, partition);
  }

  /** Lines 241-247: one wheel of the odometer. A carry moves the iterator
      on; an iterator that reaches the end wraps to the first partition and
      passes the carry on, any other stops it. */
  method Advance(node: PartitionNode, allDone: bool) returns (node': PartitionNode, allDone': bool)
    requires node.iter < |node.partitions|
    ensures node'.prime == node.prime && node'.partitions == node.partitions
    ensures node'.iter == if allDone then (if node.iter + 1 == |node.partitions| then 0 else node.iter + 1) else node.iter
    ensures allDone' <==> allDone && node.iter + 1 == |node.partitions|
  {
    node' := node;
    allDone' := allDone;
    if allDone' {
      node' := node'.(iter := node'.iter + 1);
    }
    if node'.iter == |node'.partitions| {
      node' := node'.(iter := 0);
    } else {
      allDone' := false;
    }
  }

  /** Assembling one more prime appends the factors of its partition. */
  lemma AssembleSnoc(ps: seq<nat>, ch: seq<seq<nat>>, i: nat)
    requires |ps| == |ch| && i < |ps|
    ensures Assemble(ps[..i + 1], ch[..i + 1]) == Assemble(ps[..i], ch[..i]) + Expand(ps[i], ch[i])
  {
    assert ps[..i + 1][..i] == ps[..i] && ch[..i + 1][..i] == ch[..i];
  }

  // ---------------------------------------------------------------------
  // What the candidates are

  lemma SmallestRestKey(m: map<nat, nat>)
    requires m != map[]
    ensures exists p :: p in m && forall k :: k in m ==> p <= k
  {
    var x :| x in m;
    assert x in m.Keys;
    SmallestKey(m.Keys);
    var p :| p in m.Keys && forall k :: k in m.Keys ==> p <= k;
    assert p in m && forall k :: k in m ==> p <= k;
  }

  /** A finite nonempty set of naturals has a least element. */
  lemma SmallestKey(s: set<nat>)
    requires s != {}
    ensures exists p :: p in s && forall k :: k in s ==> p <= k
    decreases |s|
  {
    var x :| x in s;
    var s' := s - {x};
    if s' == {} {
      assert s == {x} by {
        assert forall k :: k in s && k != x ==> k in s';
      }
    } else {
      SmallestKey(s');
      var y :| y in s' && forall k :: k in s' ==> y <= k;
      LeastOfTwo(s, x, y);
    }
  }

  /** The smaller of x and the least element of s - {x} is the least element of s. */
  lemma LeastOfTwo(s: set<nat>, x: nat, y: nat)
    requires x in s && y in s - {x} && forall k :: k in s - {x} ==> y <= k
    ensures exists p :: p in s && forall k :: k in s ==> p <= k
  {
    var least := if x < y then x else y;
    forall k | k in s ensures least <= k {
      if k != x {
        assert k in s - {x};
      }
    }
    assert least in s;
  }

  lemma {:induction false} ProductConcat(a: seq<nat>, b: seq<nat>)
    ensures Product(a + b) == Product(a) * Product(b)
  {
    if a == [] {
      assert a + b == b;
    } else {
      assert (a + b)[1..] == a[1..] + b;
      ProductConcat(a[1..], b);
      MulAssoc(a[0], Product(a[1..]), Product(b));
    }
  }

  /** The factors of one partition multiply to p to the partitioned exponent. */
  lemma {:induction false} ProductExpand(p: nat, part: seq<nat>)
    ensures Product(Expand(p, part)) == Pow(p, Sum(part))
  {
    if part != [] {
      assert Expand(p, part)[1..] == Expand(p, part[1..]);
      ProductExpand(p, part[1..]);
      PowAdd(p, part[0], Sum(part[1..]));
    }
  }

  lemma {:induction false} AssemblePositive(ps: seq<nat>, choice: seq<seq<nat>>)
    requires |ps| == |choice| && forall i :: 0 <= i < |ps| ==> ps[i] >= 1
    ensures AllPositive(Assemble(ps, choice))
    decreases |ps|
  {
    if |ps| > 0 {
      var n := |ps| - 1;
      AssemblePositive(ps[..n], choice[..n]);
      var e := Expand(ps[n], choice[n]);
      forall k | 0 <= k < |e| ensures e[k] >= 1 {
        PowPositive(ps[n], choice[n][k]);
      }
    }
  }

  /** Taking for each prime of m one partition of its exponent gives a group of order PowerProduct(m). */
  lemma {:induction false} AssembleOrder(ps: seq<nat>, choice: seq<seq<nat>>, m: map<nat, nat>)
    requires |ps| == |choice|
    requires forall i, k :: 0 <= i < k < |ps| ==> ps[i] < ps[k]
    requires forall p :: p in m <==> p in ps
    requires forall i :: 0 <= i < |ps| ==> ps[i] in m && Sum(choice[i]) == m[ps[i]]
    ensures Product(Assemble(ps, choice)) == PowerProduct(m)
    decreases |ps|
  {
    if |ps| == 0 {
      assert m == map[];
    } else {
      var n := |ps| - 1;
      var p := ps[n];
      DropLastPrime(ps, choice, m);
      AssembleOrder(ps[..n], choice[..n], m - {p});
      var A, E := Assemble(ps[..n], choice[..n]), Expand(p, choice[n]);
      ProductConcat(A, E);
      ProductExpand(p, choice[n]);
      PowerProductRemove(m, p);
      assert Product(A) * Product(E) == Product(E) * Product(A);
    }
  }

  /** Without its largest prime, the choice is one for the map without that prime. */
  lemma DropLastPrime(ps: seq<nat>, choice: seq<seq<nat>>, m: map<nat, nat>)
    requires |ps| == |choice| && |ps| > 0
    requires forall i, k :: 0 <= i < k < |ps| ==> ps[i] < ps[k]
    requires forall p :: p in m <==> p in ps
    requires forall i :: 0 <= i < |ps| ==> ps[i] in m && Sum(choice[i]) == m[ps[i]]
    ensures var n := |ps| - 1; var m' := m - {ps[n]};
      && (forall p :: p in m' <==> p in ps[..n])
      && (forall i :: 0 <= i < n ==> ps[..n][i] in m' && Sum(choice[..n][i]) == m'[ps[..n][i]])
      && Assemble(ps, choice) == Assemble(ps[..n], choice[..n]) + Expand(ps[n], choice[n])
  {
    DropLastKey(ps, m, m - {ps[|ps| - 1]});
    DropLastChoice(ps, choice, m);
  }

  lemma DropLastKey(ps: seq<nat>, m: map<nat, nat>, m': map<nat, nat>)
    requires |ps| > 0 && m' == m - {ps[|ps| - 1]}
    requires forall i, k :: 0 <= i < k < |ps| ==> ps[i] < ps[k]
    requires forall p :: p in m <==> p in ps
    ensures forall p :: p in m' <==> p in ps[..|ps| - 1]
  {
    var n := |ps| - 1;
    forall q ensures q in m' <==> q in ps[..n] {
      if q in ps[..n] {
        var i :| 0 <= i < n && ps[..n][i] == q;
        assert ps[i] == q;
      }
      assert q in ps <==> q in ps[..n] || q == ps[n] by {
        assert ps == ps[..n] + [ps[n]];
      }
    }
  }

  lemma DropLastChoice(ps: seq<nat>, choice: seq<seq<nat>>, m: map<nat, nat>)
    requires |ps| == |choice| && |ps| > 0
    requires forall i, k :: 0 <= i < k < |ps| ==> ps[i] < ps[k]
    requires forall i :: 0 <= i < |ps| ==> ps[i] in m && Sum(choice[i]) == m[ps[i]]
    ensures var n := |ps| - 1;
      forall i :: 0 <= i < n ==> ps[..n][i] in m - {ps[n]} && Sum(choice[..n][i]) == (m - {ps[n]})[ps[..n][i]]
  {
    var n := |ps| - 1;
    forall i | 0 <= i < n ensures ps[..n][i] in m - {ps[n]} && Sum(choice[..n][i]) == (m - {ps[n]})[ps[..n][i]] {
      assert ps[..n][i] == ps[i] && ps[i] < ps[n];
    }
  }

  /** Every candidate is a valid group of order n. */
  lemma CandidateOrder(nodes: seq<PartitionNode>, m: map<nat, nat>, n: nat, c: nat)
    requires IsFactorization(m, n) && TableFor(nodes, m)
    ensures Candidate(nodes, c).Valid() && Candidate(nodes, c).Order() == n
  {
    ChosenFit(nodes, m, n, Digits(Radices(nodes), c));
    ChoiceGroup(Primes(nodes), Chosen(nodes, Digits(Radices(nodes), c)), m);
  }

  /** ps are the primes of m in increasing order and choice[i] partitions the exponent of ps[i]. */
  ghost predicate ChoiceFor(ps: seq<nat>, choice: seq<seq<nat>>, m: map<nat, nat>)
  {
    && |ps| == |choice|
    && (forall i, k :: 0 <= i < k < |ps| ==> ps[i] < ps[k])
    && (forall p :: p in m <==> p in ps)
    && (forall i :: 0 <= i < |ps| ==> ps[i] >= 1 && ps[i] in m && Sum(choice[i]) == m[ps[i]])
  }

  /** The direct sum for such a choice is a valid group of order PowerProduct(m). */
  lemma ChoiceGroup(ps: seq<nat>, choice: seq<seq<nat>>, m: map<nat, nat>)
    requires ChoiceFor(ps, choice, m)
    ensures Group(Assemble(ps, choice)).Valid() && Group(Assemble(ps, choice)).Order() == PowerProduct(m)
  {
    AssemblePositive(ps, choice);
    AssembleOrder(ps, choice, m);
  }

  /** The partitions the iterators point at partition the exponents of their primes. */
  lemma ChosenFit(nodes: seq<PartitionNode>, m: map<nat, nat>, n: nat, d: seq<nat>)
    requires IsFactorization(m, n) && TableFor(nodes, m) && InRange(Radices(nodes), d)
    ensures ChoiceFor(Primes(nodes), Chosen(nodes, d), m)
  {
    forall i | 0 <= i < |nodes|
      ensures Primes(nodes)[i] >= 1 && Primes(nodes)[i] in m && Sum(Chosen(nodes, d)[i]) == m[Primes(nodes)[i]]
    {
      assert IsPartition(nodes[i].partitions[d[i]], m[nodes[i].prime]);
    }
  }

  lemma {:induction false} SurvivorsMember(G: Group, cs: seq<Group>, H: Group)
    ensures H in Survivors(G, cs) <==> H in cs && Fits(G, H)
  {
    if |cs| > 0 {
      var init := cs[..|cs| - 1];
      SurvivorsMember(G, init, H);
      assert cs == init + [cs[|cs| - 1]];
    }
  }

  /** Every surviving candidate has the quotient's order and fits into G. */
  lemma SurvivorFacts(G: Group, nodes: seq<PartitionNode>, m: map<nat, nat>, n: nat)
    requires IsFactorization(m, n) && TableFor(nodes, m)
    ensures forall H :: H in Survivors(G, AllCandidates(nodes)) ==> H.Valid() && H.Order() == n && Fits(G, H)
  {
    forall H | H in Survivors(G, AllCandidates(nodes)) ensures H.Valid() && H.Order() == n && Fits(G, H) {
      SurvivorFact(G, nodes, m, n, H);
    }
  }

  lemma SurvivorFact(G: Group, nodes: seq<PartitionNode>, m: map<nat, nat>, n: nat, H: Group)
    requires IsFactorization(m, n) && TableFor(nodes, m) && H in Survivors(G, AllCandidates(nodes))
    ensures H.Valid() && H.Order() == n && Fits(G, H)
  {
    SurvivorsMember(G, AllCandidates(nodes), H);
    var c := CandidateIndex(nodes, H);
    CandidateOrder(nodes, m, n, c);
  }

  /** The count at which a candidate is built. */
  lemma CandidateIndex(nodes: seq<PartitionNode>, H: Group) returns (c: nat)
    requires Ready(nodes) && H in AllCandidates(nodes)
    ensures c < Combinations(nodes) && Candidate(nodes, c) == H
  {
    var cs := AllCandidates(nodes);
    c :| 0 <= c < |cs| && cs[c] == H;
  }

  /** A trivial quotient leaves the single empty direct sum. */
  lemma TrivialQuotient(G: Group, nodes: seq<PartitionNode>, m: map<nat, nat>)
    requires G.Valid() && IsFactorization(m, 1) && TableFor(nodes, m)
    ensures Survivors(G, AllCandidates(nodes)) == [Group([])]
  {
    FactorizationFacts(1, m);
    FirstPrimeListed(nodes);
    assert nodes == [];
    LargestOrderElementFacts(G);
    var cs := AllCandidates(nodes);
    assert cs == [Group([])];
    assert Survivors(G, cs) == Survivors(G, []) + [Group([])];
  }

  /** Every choice of one listed partition per prime is built at some count. */
  lemma EveryChoiceIsCandidate(nodes: seq<PartitionNode>, choice: seq<seq<nat>>) returns (c: nat)
    requires Ready(nodes) && |choice| == |nodes|
    requires forall i :: 0 <= i < |nodes| ==> choice[i] in nodes[i].partitions
    ensures c < Combinations(nodes) && Candidate(nodes, c) == Group(Assemble(Primes(nodes), choice))
  {
    var d := ChoiceDigits(nodes, choice);
    DigitsOfValue(Radices(nodes), d);
    c := Value(Radices(nodes), d);
  }

  /** The iterator positions that point at a given choice of partitions. */
  lemma ChoiceDigits(nodes: seq<PartitionNode>, choice: seq<seq<nat>>) returns (d: seq<nat>)
    requires Ready(nodes) && |choice| == |nodes|
    requires forall i :: 0 <= i < |nodes| ==> choice[i] in nodes[i].partitions
    ensures InRange(Radices(nodes), d) && Chosen(nodes, d) == choice
  {
    d := seq(|nodes|, i requires 0 <= i < |nodes| => IndexOf(nodes[i].partitions, choice[i]));
  }

  /** Every direct sum of cyclic groups of prime-power order whose order is
      the quotient's (one partition of each prime's exponent) is a candidate,
      and it survives the pruning exactly when it fits into G. */
  lemma EveryGroupIsConsidered(G: Group, nodes: seq<PartitionNode>, m: map<nat, nat>, choice: seq<seq<nat>>)
    requires TableFor(nodes, m) && |choice| == |nodes|
    requires forall i :: 0 <= i < |nodes| ==> IsPartition(choice[i], m[nodes[i].prime])
    ensures Group(Assemble(Primes(nodes), choice)) in AllCandidates(nodes)
    ensures Group(Assemble(Primes(nodes), choice)) in Survivors(G, AllCandidates(nodes))
        <==> Fits(G, Group(Assemble(Primes(nodes), choice)))
  {
    ChoicesListed(nodes, m, choice);
    var c := EveryChoiceIsCandidate(nodes, choice);
    assert AllCandidates(nodes)[c] == Candidate(nodes, c);
    SurvivorsMember(G, AllCandidates(nodes), Group(Assemble(Primes(nodes), choice)));
  }

  lemma ChoicesListed(nodes: seq<PartitionNode>, m: map<nat, nat>, choice: seq<seq<nat>>)
    requires TableFor(nodes, m) && |choice| == |nodes|
    requires forall i :: 0 <= i < |nodes| ==> IsPartition(choice[i], m[nodes[i].prime])
    ensures forall i :: 0 <= i < |nodes| ==> choice[i] in nodes[i].partitions
  {
    forall i | 0 <= i < |nodes| ensures choice[i] in nodes[i].partitions {
      assert PartitionList(nodes[i].partitions, m[nodes[i].prime]);
    }
  }

  /** The odometer never picks the same combination of partitions twice. */
  lemma CombinationsDistinct(nodes: seq<PartitionNode>, m: map<nat, nat>, c1: nat, c2: nat)
    requires TableFor(nodes, m) && c1 < c2 < Combinations(nodes)
    ensures Chosen(nodes, Digits(Radices(nodes), c1)) != Chosen(nodes, Digits(Radices(nodes), c2))
  {
    var rs := Radices(nodes);
    var d1, d2 := Digits(rs, c1), Digits(rs, c2);
    if d1 == d2 {
      DigitsInjective(rs, c1, c2);
    } else {
      var i :| 0 <= i < |rs| && d1[i] != d2[i];
      var parts := nodes[i].partitions;
      assert PartitionList(parts, m[nodes[i].prime]);
      if d1[i] < d2[i] {
        ListDistinct(parts, m[nodes[i].prime], d1[i], d2[i]);
      } else {
        ListDistinct(parts, m[nodes[i].prime], d2[i], d1[i]);
      }
      assert Chosen(nodes, d1)[i] != Chosen(nodes, d2)[i];
    }
  }

  lemma FirstPrimeListed(nodes: seq<PartitionNode>)
    ensures |nodes| > 0 ==> nodes[0].prime in Primes(nodes)
  {
    if |nodes| > 0 {
      assert Primes(nodes)[0] == nodes[0].prime;
    }
  }

  function IndexOf(s: seq<seq<nat>>, x: seq<nat>): (i: nat)
    requires x in s
    ensures i < |s| && s[i] == x
  {
    if s[0] == x then 0 else 1 + IndexOf(s[1..], x)
  }
}
