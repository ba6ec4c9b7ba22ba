/** The additive partitions of a prime's exponent, generated in reverse
    lexicographic order by the in-place successor step of
    findPossibleIsoGroup (FiniteAbelianClassifier.cpp:184-223). */
module Partitions {
  import opened NumberTheory

  function Sum(s: seq<nat>): nat
  {
    if |s| == 0 then 0 else s[0] + Sum(s[1..])
  }

  predicate Positive(s: seq<nat>)
  {
    forall i :: 0 <= i < |s| ==> s[i] >= 1
  }

  predicate NonIncreasing(s: seq<nat>)
  {
    forall i, k :: 0 <= i < k < |s| ==> s[k] <= s[i]
  }

  /** s is a partition of e: positive parts, largest first, adding up to e. */
  predicate IsPartition(s: seq<nat>, e: nat)
  {
    Positive(s) && NonIncreasing(s) && Sum(s) == e
  }

  function Ones(n: nat): seq<nat>
  {
    seq(n, _ => 1)
  }

  /** Strict lexicographic order (a proper prefix is smaller). */
  predicate LexLess(a: seq<nat>, b: seq<nat>)
  {
    |b| > 0 && (|a| == 0 || a[0] < b[0] || (a[0] == b[0] && LexLess(a[1..], b[1..])))
  }

  /** The index of the rightmost part that is not 1, or -1 (lines 196-200). */
  function LastNonOne(c: seq<nat>): (j: int)
    ensures -1 <= j < |c|
    ensures j >= 0 ==> c[j] != 1
    ensures forall i :: j < i < |c| ==> c[i] == 1
  {
    LastNonOneBelow(c, |c|)
  }

  /** The index of the rightmost part below n that is not 1, or -1. */
  function LastNonOneBelow(c: seq<nat>, n: nat): (j: int)
    requires n <= |c|
    ensures -1 <= j < n
    ensures j >= 0 ==> c[j] != 1
    ensures forall i :: j < i < n ==> c[i] == 1
  {
    if n == 0 then -1
    else if c[n - 1] != 1 then n - 1
    else LastNonOneBelow(c, n - 1)
  }

  /** s split into parts of size v, the last part taking what is left. */
  function Greedy(v: nat, s: nat): seq<nat>
    requires v >= 1
    decreases s
  {
    if s <= v then [s] else [v] + Greedy(v, s - v)
  }

  /** The next partition in reverse lexicographic order: the rightmost part
      above 1 loses one, and that part together with everything after it is
      refilled greedily with parts no larger than the decreased one. */
  function Successor(c: seq<nat>): seq<nat>
    requires Positive(c) && LastNonOne(c) >= 0
  {
    var j := LastNonOne(c);
    c[..j] + Greedy(c[j] - 1, Sum(c[j..]))
  }

  // ---------------------------------------------------------------------
  // The generator

  /** Lines 195-222: one step of the generator on the vector cur. Finds the
      rightmost part above 1; if there is none, cur was the last partition
      and the loop breaks. Otherwise it decrements that part and writes the
      remainder out in copies of it, pushing or overwriting as it goes. */
  method NextPartition(cur: seq<nat>) returns (done: bool, next: seq<nat>)
    requires Positive(cur)
    ensures done <==> forall i :: 0 <= i < |cur| ==> cur[i] == 1
    ensures done ==> next == cur
    ensures !done ==> LastNonOne(cur) >= 0 && next == Successor(cur)
  {
    var c: seq<nat> := cur;
    var partitioner: int := |c| - 1;
    var remVal: nat := 0;
    while partitioner >= 0 && c[partitioner] == 1
      invariant -1 <= partitioner < |c|
      invariant forall i :: partitioner < i < |c| ==> c[i] == 1
      invariant remVal == |c| - 1 - partitioner
    {
      remVal := remVal + 1;
      partitioner := partitioner - 1;
    }
    if partitioner < 0 {
      return true, c;
    }
    ghost var j := partitioner;
    LastNonOneUnique(cur, j);
    OnesSuffix(cur, j);
    ghost var S := Sum(cur[j..]);
    c := c[partitioner := c[partitioner] - 1];
    remVal := remVal + 1;
    var v := c[partitioner];
    ghost var target := cur[..j] + Greedy(v, S);
    assert c[..partitioner] == cur[..j];
    while remVal > c[partitioner]
      invariant j <= partitioner < |c| && c[partitioner] == v && remVal >= 1
      invariant c[..partitioner] + Greedy(v, v + remVal) == target
      decreases remVal
    {
      ghost var before := c;
      if partitioner + 1 == |c| {
        c := c + [c[partitioner]];
      } else {
        c := c[partitioner + 1 := c[partitioner]];
      }
      CopyStep(before, c, partitioner, v, remVal, target);
      remVal := remVal - c[partitioner];
      partitioner := partitioner + 1;
    }
    ghost var before := c;
    if partitioner + 1 == |c| {
      c := c + [remVal];
    } else {
      c := c[..partitioner + 2];
      c := c[partitioner + 1 := remVal];
    }
    LastStep(before, c, partitioner, v, remVal, target);
    return false, c;
  }

  /** One pass of the loop at lines 207-214 keeps the written prefix plus the
      greedy fill still to be written equal to the target. */
  lemma CopyStep(c: seq<nat>, c': seq<nat>, p: nat, v: nat, r: nat, target: seq<nat>)
    requires p < |c| && c[p] == v && v >= 1 && r > v
    requires c[..p] + Greedy(v, v + r) == target
    requires |c'| >= p + 2 && c'[..p + 1] == c[..p + 1] && c'[p + 1] == v
    ensures c'[p] == v && c'[..p + 1] + Greedy(v, v + (r - v)) == target
  {
    assert Greedy(v, v + r) == [v] + Greedy(v, r);
    assert c'[..p + 1] == c[..p] + [v];
  }

  /** Lines 216-221 write the remainder as the last part. */
  lemma LastStep(c: seq<nat>, c': seq<nat>, p: nat, v: nat, r: nat, target: seq<nat>)
    requires p < |c| && c[p] == v && v >= 1 && 1 <= r <= v
    requires c[..p] + Greedy(v, v + r) == target
    requires |c'| == p + 2 && c'[..p + 1] == c[..p + 1] && c'[p + 1] == r
    ensures c' == target
  {
    assert Greedy(v, v + r) == [v] + [r];
    assert c' == c'[..p + 1] + [r];
    assert c'[..p + 1] == c[..p] + [v];
  }

  /** The while(true) loop of lines 191-223 for one prime with exponent
      power: every partition of power, from [power] down to all ones, in
      strictly decreasing lexicographic order, each exactly once. */
  method PartitionsOf(power: nat) returns (parts: seq<seq<nat>>)
    requires power >= 1
    ensures PartitionList(parts, power)
  {
    var cur: seq<nat> := [power];
    parts := [];
    ListingStart(power);
    while true
      invariant Listing(parts, cur, power)
      decreases Rank(cur, power + 1, power)
    {
      var done, next := NextPartition(cur);
      if done {
        ListingDone(parts, cur, power);
        parts := parts + [cur];
        return;
      }
      ListingStep(parts, cur, power);
      parts := parts + [cur];
      cur := next;
    }
  }

  /** parts lists every partition of e once, from [e] down to all ones, in
      strictly decreasing lexicographic order. */
  ghost predicate PartitionList(parts: seq<seq<nat>>, e: nat)
  {
    && |parts| >= 1 && parts[0] == [e] && parts[|parts| - 1] == Ones(e)
    && (forall i :: 0 <= i < |parts| ==> IsPartition(parts[i], e))
    && (forall i, k :: 0 <= i < k < |parts| ==> LexLess(parts[k], parts[i]))
    && (forall q :: IsPartition(q, e) ==> q in parts)
  }

  /** No partition appears twice in a partition list. */
  lemma ListDistinct(parts: seq<seq<nat>>, e: nat, a: nat, b: nat)
    requires PartitionList(parts, e) && a < b < |parts|
    ensures parts[a] != parts[b]
  {
    assert LexLess(parts[b], parts[a]);
    LexIrreflexive(parts[a]);
  }

  /** The invariant of the generator loop: parts lists, in strictly
      decreasing order, exactly the partitions above cur, starting at [power]. */
  ghost predicate Listing(parts: seq<seq<nat>>, cur: seq<nat>, power: nat)
  {
    && IsPartition(cur, power)
    && (parts == [] ==> cur == [power])
    && (parts != [] ==> parts[0] == [power])
    && (forall i :: 0 <= i < |parts| ==> IsPartition(parts[i], power))
    && (forall i, k :: 0 <= i < k < |parts| ==> LexLess(parts[k], parts[i]))
    && (forall i :: 0 <= i < |parts| ==> LexLess(cur, parts[i]))
    && (forall q :: IsPartition(q, power) && LexLess(cur, q) ==> q in parts)
  }

  lemma ListingStart(power: nat)
    requires power >= 1
    ensures Listing([], [power], power)
  {
    assert IsPartition([power], power);
    forall q | IsPartition(q, power) ensures !LexLess([power], q) {
      FirstIsMax(q, power);
    }
  }

  /** Recording cur and moving to its successor keeps the invariant and lowers the rank. */
  lemma ListingStep(parts: seq<seq<nat>>, cur: seq<nat>, power: nat)
    requires Listing(parts, cur, power) && LastNonOne(cur) >= 0
    ensures Listing(parts + [cur], Successor(cur), power)
    ensures Rank(Successor(cur), power + 1, power) < Rank(cur, power + 1, power)
  {
    var next := Successor(cur);
    var parts' := parts + [cur];
    SuccessorIsPartition(cur, power);
    SuccessorLess(cur);
    forall i | 0 <= i < |parts'| ensures LexLess(next, parts'[i]) {
      if i < |parts| {
        LexTrans(next, cur, parts[i]);
      }
    }
    forall q | IsPartition(q, power) && LexLess(next, q) ensures q in parts' {
      SuccessorImmediate(cur, power, q);
      LexTotal(q, cur);
    }
    PartitionBounds(cur, power);
    PartitionBounds(next, power);
    RankLess(next, cur, power + 1, power);
  }

  /** Once cur is all ones, recording it completes the list. */
  lemma ListingDone(parts: seq<seq<nat>>, cur: seq<nat>, power: nat)
    requires Listing(parts, cur, power) && forall i :: 0 <= i < |cur| ==> cur[i] == 1
    ensures PartitionList(parts + [cur], power)
  {
    AllOnesIsOnes(cur, power);
    forall q | IsPartition(q, power) ensures q in parts + [cur] {
      OnesIsMin(q, power);
    }
  }

  // ---------------------------------------------------------------------
  // Sums and bounds

  lemma {:induction false} SumConcat(a: seq<nat>, b: seq<nat>)
    ensures Sum(a + b) == Sum(a) + Sum(b)
  {
    if |a| > 0 {
      assert (a + b)[1..] == a[1..] + b;
      SumConcat(a[1..], b);
    } else {
      assert a + b == b;
    }
  }

  lemma {:induction false} SumOnes(n: nat)
    ensures Sum(Ones(n)) == n
  {
    if n > 0 {
      assert Ones(n)[1..] == Ones(n - 1);
      SumOnes(n - 1);
    }
  }

  /** A positive sequence is no longer than its sum, and no part exceeds it. */
  lemma {:induction false} PositiveBounds(s: seq<nat>)
    requires Positive(s)
    ensures |s| <= Sum(s) && forall i :: 0 <= i < |s| ==> s[i] <= Sum(s)
  {
    if |s| > 0 {
      PositiveBounds(s[1..]);
      forall i | 1 <= i < |s| ensures s[i] <= Sum(s) {
        assert s[i] == s[1..][i - 1];
      }
    }
  }

  lemma PositiveSuffix(s: seq<nat>, k: nat)
    requires Positive(s) && k <= |s|
    ensures Positive(s[k..])
  {
    forall i | 0 <= i < |s| - k ensures s[k..][i] >= 1 {
      assert s[k..][i] == s[k + i];
    }
  }

  /** The parts of a partition from index k on are positive and at most the k-th. */
  lemma PartitionSuffix(s: seq<nat>, k: nat)
    requires Positive(s) && NonIncreasing(s) && k < |s|
    ensures Positive(s[k..]) && forall i :: 0 <= i < |s| - k ==> s[k..][i] <= s[k]
  {
    PositiveSuffix(s, k);
    forall i | 0 <= i < |s| - k ensures s[k..][i] <= s[k] {
      assert s[k..][i] == s[k + i];
    }
  }

  lemma NonIncreasingSuffix(s: seq<nat>, k: nat)
    requires NonIncreasing(s) && k <= |s|
    ensures NonIncreasing(s[k..])
  {
    forall i, m | 0 <= i < m < |s| - k ensures s[k..][m] <= s[k..][i] {
      assert s[k..][m] == s[k + m] && s[k..][i] == s[k + i];
    }
  }

  lemma PartitionBounds(s: seq<nat>, e: nat)
    requires IsPartition(s, e)
    ensures |s| <= e && forall i :: 0 <= i < |s| ==> s[i] < e + 1
  {
    PositiveBounds(s);
  }

  /** Past the rightmost part that is not 1 there are only ones. */
  lemma OnesSuffix(c: seq<nat>, j: nat)
    requires j < |c| && forall i :: j < i < |c| ==> c[i] == 1
    ensures Sum(c[j..]) == c[j] + (|c| - j - 1)
  {
    assert c[j..][1..] == c[j + 1..];
    assert c[j + 1..] == Ones(|c| - j - 1);
    SumOnes(|c| - j - 1);
  }

  lemma {:induction false} LastNonOneUnique(c: seq<nat>, j: int)
    requires -1 <= j < |c| && (j >= 0 ==> c[j] != 1)
    requires forall i :: j < i < |c| ==> c[i] == 1
    ensures LastNonOne(c) == j
  {
    LastNonOneBelowUnique(c, |c|, j);
  }

  lemma {:induction false} LastNonOneBelowUnique(c: seq<nat>, n: nat, j: int)
    requires n <= |c| && -1 <= j < n && (j >= 0 ==> c[j] != 1)
    requires forall i :: j < i < n ==> c[i] == 1
    ensures LastNonOneBelow(c, n) == j
  {
    if n > 0 && j < n - 1 {
      LastNonOneBelowUnique(c, n - 1, j);
    }
  }

  lemma AllOnesIsOnes(c: seq<nat>, e: nat)
    requires IsPartition(c, e) && forall i :: 0 <= i < |c| ==> c[i] == 1
    ensures c == Ones(e)
  {
    assert c == Ones(|c|);
    SumOnes(|c|);
  }

  // ---------------------------------------------------------------------
  // Lexicographic order

  lemma {:induction false} LexIrreflexive(a: seq<nat>)
    ensures !LexLess(a, a)
  {
    if |a| > 0 {
      LexIrreflexive(a[1..]);
    }
  }

  lemma {:induction false} LexTrans(a: seq<nat>, b: seq<nat>, c: seq<nat>)
    requires LexLess(a, b) && LexLess(b, c)
    ensures LexLess(a, c)
  {
    if |a| > 0 && a[0] == c[0] {
      LexTrans(a[1..], b[1..], c[1..]);
    }
  }

  lemma {:induction false} LexTotal(a: seq<nat>, b: seq<nat>)
    ensures a == b || LexLess(a, b) || LexLess(b, a)
  {
    if |a| > 0 && |b| > 0 && a[0] == b[0] {
      LexTotal(a[1..], b[1..]);
      if a[1..] == b[1..] {
        assert a == [a[0]] + a[1..] && b == [b[0]] + b[1..];
      }
    }
  }

  /** A common prefix does not change the order. */
  lemma {:induction false} LexPrefix(p: seq<nat>, a: seq<nat>, b: seq<nat>)
    ensures LexLess(p + a, p + b) <==> LexLess(a, b)
  {
    if |p| > 0 {
      assert (p + a)[1..] == p[1..] + a;
      assert (p + b)[1..] == p[1..] + b;
      LexPrefix(p[1..], a, b);
    } else {
      assert p + a == a && p + b == b;
    }
  }

  /** Whatever lies strictly between two sequences with a common prefix has it too. */
  lemma {:induction false} LexBetween(p: seq<nat>, a: seq<nat>, b: seq<nat>, q: seq<nat>)
    requires LexLess(p + a, q) && LexLess(q, p + b)
    ensures |p| <= |q| && q[..|p|] == p
  {
    if |p| > 0 {
      assert (p + a)[1..] == p[1..] + a;
      assert (p + b)[1..] == p[1..] + b;
      LexBetween(p[1..], a, b, q[1..]);
    }
  }

  // ---------------------------------------------------------------------
  // The greedy tail

  lemma {:induction false} GreedyFacts(v: nat, s: nat)
    requires v >= 1 && s >= 1
    ensures var g := Greedy(v, s);
      |g| >= 1 && g[0] == (if s <= v then s else v) && Sum(g) == s &&
      Positive(g) && NonIncreasing(g) && forall i :: 0 <= i < |g| ==> g[i] <= v
    decreases s
  {
    if s > v {
      GreedyFacts(v, s - v);
      var g := Greedy(v, s);
      assert g[1..] == Greedy(v, s - v);
    }
  }

  lemma GreedyUnfold(v: nat, r: nat)
    requires v >= 1 && r >= 1
    ensures Greedy(v, v + r) == [v] + Greedy(v, r)
    ensures r <= v ==> Greedy(v, r) == [r]
  {
  }

  /** The greedy fill is the lexicographically largest positive sequence
      with sum s and no part above v. */
  lemma {:induction false} GreedyMax(v: nat, s: nat, r: seq<nat>)
    requires v >= 1 && s >= 1
    requires Positive(r) && Sum(r) == s && forall i :: 0 <= i < |r| ==> r[i] <= v
    ensures !LexLess(Greedy(v, s), r)
    decreases s
  {
    if |r| > 1 {
      assert r[1..][0] == r[1];
    }
    if s > v && |r| > 0 && r[0] == v {
      assert Greedy(v, s)[1..] == Greedy(v, s - v);
      forall i | 0 <= i < |r| - 1 ensures r[1..][i] <= v && r[1..][i] >= 1 {
        assert r[1..][i] == r[i + 1];
      }
      GreedyMax(v, s - v, r[1..]);
    }
  }

  /** No positive sequence with sum t is lexicographically below all ones. */
  lemma {:induction false} OnesMin(x: seq<nat>, t: nat)
    requires Positive(x) && Sum(x) == t
    ensures !LexLess(x, Ones(t))
  {
    if t > 0 && |x| > 0 && x[0] == 1 {
      assert Ones(t)[1..] == Ones(t - 1);
      PositiveSuffix(x, 1);
      OnesMin(x[1..], t - 1);
    }
  }

  // ---------------------------------------------------------------------
  // What the successor step does

  lemma SuccessorIsPartition(c: seq<nat>, e: nat)
    requires IsPartition(c, e) && LastNonOne(c) >= 0
    ensures IsPartition(Successor(c), e)
  {
    SuccessorSum(c);
    SuccessorShape(c);
  }

  lemma SuccessorSum(c: seq<nat>)
    requires Positive(c) && LastNonOne(c) >= 0
    ensures Sum(Successor(c)) == Sum(c)
  {
    var j := LastNonOne(c);
    var v, s := c[j] - 1, Sum(c[j..]);
    OnesSuffix(c, j);
    var p, g := c[..j], Greedy(v, s);
    GreedyFacts(v, s);
    assert c == p + c[j..];
    SumConcat(p, c[j..]);
    SumConcat(p, g);
  }

  lemma SuccessorShape(c: seq<nat>)
    requires Positive(c) && NonIncreasing(c) && LastNonOne(c) >= 0
    ensures Positive(Successor(c)) && NonIncreasing(Successor(c))
  {
    var j := LastNonOne(c);
    var v, s := c[j] - 1, Sum(c[j..]);
    OnesSuffix(c, j);
    var p, g := c[..j], Greedy(v, s);
    GreedyFacts(v, s);
    PrefixFacts(c, j);
    ConcatNonIncreasing(p, g, c[j]);
    forall i | 0 <= i < |p + g| ensures (p + g)[i] >= 1 {
      if i >= |p| {
        assert (p + g)[i] == g[i - |p|];
      }
    }
  }

  /** The parts before index j of a partition are positive, non-increasing and at least the j-th. */
  lemma PrefixFacts(c: seq<nat>, j: nat)
    requires Positive(c) && NonIncreasing(c) && j < |c|
    ensures Positive(c[..j]) && NonIncreasing(c[..j])
    ensures forall i :: 0 <= i < j ==> c[..j][i] >= c[j]
  {
  }

  lemma ConcatNonIncreasing(p: seq<nat>, g: seq<nat>, bound: nat)
    requires NonIncreasing(p) && NonIncreasing(g)
    requires forall i :: 0 <= i < |p| ==> p[i] >= bound
    requires forall i :: 0 <= i < |g| ==> g[i] <= bound
    ensures NonIncreasing(p + g)
  {
    var n := p + g;
    forall i, k | 0 <= i < k < |n| ensures n[k] <= n[i] {
      if k >= |p| && i < |p| {
        assert n[k] == g[k - |p|] && n[i] == p[i];
      } else if i >= |p| {
        assert n[k] == g[k - |p|] && n[i] == g[i - |p|];
      }
    }
  }

  lemma SuccessorLess(c: seq<nat>)
    requires Positive(c) && LastNonOne(c) >= 0
    ensures LexLess(Successor(c), c)
  {
    var j := LastNonOne(c);
    var v, s := c[j] - 1, Sum(c[j..]);
    OnesSuffix(c, j);
    GreedyFacts(v, s);
    assert c == c[..j] + c[j..];
    LexPrefix(c[..j], Greedy(v, s), c[j..]);
  }

  /** No partition lies strictly between a partition and its successor. */
  lemma SuccessorImmediate(c: seq<nat>, e: nat, q: seq<nat>)
    requires IsPartition(c, e) && LastNonOne(c) >= 0 && IsPartition(q, e)
    ensures !(LexLess(Successor(c), q) && LexLess(q, c))
  {
    var j := LastNonOne(c);
    var h, k := c[j], |c| - j - 1;
    SuccessorSplit(c, j, h, k);
    ImmediateCore(c[..j], q, h, k, Successor(c), c);
  }

  /** A partition with a part above 1 read as prefix, part at j, ones; and its successor. */
  lemma SuccessorSplit(c: seq<nat>, j: nat, h: nat, k: nat)
    requires Positive(c) && j == LastNonOne(c) && h == c[j] && k == |c| - j - 1
    ensures h >= 2 && Successor(c) == c[..j] + Greedy(h - 1, h + k)
    ensures c == c[..j] + ([h] + Ones(k)) && Sum(c) == Sum(c[..j]) + h + k
  {
    OnesSuffix(c, j);
    SuccessorAt(c, j, h + k);
    TailShape(c, j);
    PrefixSum(c, j, h + k);
  }

  /** Successor with its split point and refilled sum named. */
  lemma SuccessorAt(c: seq<nat>, j: nat, s: nat)
    requires Positive(c) && j == LastNonOne(c) && s == Sum(c[j..])
    ensures c[j] >= 2 && Successor(c) == c[..j] + Greedy(c[j] - 1, s)
  {
  }

  /** Splitting c at j splits its sum. */
  lemma PrefixSum(c: seq<nat>, j: nat, t: nat)
    requires j <= |c| && Sum(c[j..]) == t
    ensures Sum(c) == Sum(c[..j]) + t
  {
    assert c == c[..j] + c[j..];
    SumConcat(c[..j], c[j..]);
  }

  /** The core of SuccessorImmediate with the partition c written as p, then
      a part h >= 2, then k ones: a positive q with c's sum whose parts from
      |p| on are at most the one at |p| cannot lie strictly between. */
  lemma ImmediateCore(p: seq<nat>, q: seq<nat>, h: nat, k: nat, lo: seq<nat>, hi: seq<nat>)
    requires h >= 2 && Positive(q) && NonIncreasing(q) && Sum(q) == Sum(p) + h + k
    requires lo == p + Greedy(h - 1, h + k) && hi == p + ([h] + Ones(k))
    ensures !(LexLess(lo, q) && LexLess(q, hi))
  {
    var g, tail := Greedy(h - 1, h + k), [h] + Ones(k);
    if LexLess(p + g, q) && LexLess(q, p + tail) {
      PrefixBetween(p, g, tail, q);
      var r := q[|p|..];
      SumConcat(p, r);
      PositiveSuffix(q, |p|);
      NonIncreasingSuffix(q, |p|);
      TailMax(r, h, k);
    }
  }

  /** What lies strictly between p + a and p + b is p + r with r strictly between a and b. */
  lemma PrefixBetween(p: seq<nat>, a: seq<nat>, b: seq<nat>, q: seq<nat>)
    requires LexLess(p + a, q) && LexLess(q, p + b)
    ensures |p| <= |q| && q == p + q[|p|..]
    ensures LexLess(a, q[|p|..]) && LexLess(q[|p|..], b)
  {
    LexBetween(p, a, b, q);
    var r := q[|p|..];
    assert q == p + r;
    LexPrefix(p, a, r);
    LexPrefix(p, r, b);
  }

  /** Nothing with the sum of [h] + Ones(k) and no part above its first lies
      strictly between the greedy fill with parts h - 1 and [h] + Ones(k). */
  lemma TailMax(r: seq<nat>, h: nat, k: nat)
    requires h >= 2 && Positive(r) && NonIncreasing(r) && Sum(r) == h + k
    ensures !(LexLess(Greedy(h - 1, h + k), r) && LexLess(r, [h] + Ones(k)))
  {
    if LexLess(r, [h] + Ones(k)) {
      BelowTail(r, h, k);
      GreedyMax(h - 1, h + k, r);
    }
  }

  /** The part at j followed by ones. */
  lemma TailShape(c: seq<nat>, j: nat)
    requires j < |c| && forall i :: j < i < |c| ==> c[i] == 1
    ensures c == c[..j] + ([c[j]] + Ones(|c| - j - 1))
  {
    assert c[j..] == [c[j]] + c[j + 1..];
    assert c[j + 1..] == Ones(|c| - j - 1);
    assert c == c[..j] + c[j..];
  }

  /** A non-increasing positive sequence with the sum of [h] + Ones(k) that
      is lexicographically below it has no part above h - 1. */
  lemma BelowTail(r: seq<nat>, h: nat, k: nat)
    requires h >= 2 && Positive(r) && Sum(r) == h + k
    requires LexLess(r, [h] + Ones(k))
    requires NonIncreasing(r)
    ensures forall i :: 0 <= i < |r| ==> r[i] <= h - 1
  {
    if |r| > 0 && r[0] == h {
      assert ([h] + Ones(k))[1..] == Ones(k);
      PositiveSuffix(r, 1);
      OnesMin(r[1..], k);
    }
  }

  /** [e] is the largest partition of e. */
  lemma FirstIsMax(q: seq<nat>, e: nat)
    requires IsPartition(q, e)
    ensures !LexLess([e], q)
  {
    PositiveBounds(q);
    if |q| > 1 {
      assert q[1..][0] == q[1];
    }
    assert [e][1..] == [];
  }

  /** All ones is the smallest partition of e. */
  lemma OnesIsMin(q: seq<nat>, e: nat)
    requires IsPartition(q, e)
    ensures q == Ones(e) || LexLess(Ones(e), q)
  {
    OnesMin(q, e);
    LexTotal(q, Ones(e));
  }

  // ---------------------------------------------------------------------
  // Termination: the lexicographic order read as digits in base B

  function Rank(s: seq<nat>, B: nat, L: nat): nat
    decreases L
  {
    if L == 0 then 0
    else
      var h := if |s| == 0 then 0 else s[0];
      var t := if |s| == 0 then [] else s[1..];
      h * Pow(B, L - 1) + Rank(t, B, L - 1)
  }

  lemma {:induction false} RankEmpty(B: nat, L: nat)
    ensures Rank([], B, L) == 0
  {
    if L > 0 {
      RankEmpty(B, L - 1);
    }
  }

  lemma {:induction false} RankBound(s: seq<nat>, B: nat, L: nat)
    requires B >= 1 && |s| <= L && forall i :: 0 <= i < |s| ==> s[i] < B
    ensures Rank(s, B, L) < Pow(B, L)
  {
    if L > 0 {
      var h: nat := if |s| == 0 then 0 else s[0];
      var t: seq<nat> := if |s| == 0 then [] else s[1..];
      var P := Pow(B, L - 1);
      forall i | 0 <= i < |t| ensures t[i] < B {
        assert t[i] == s[i + 1];
      }
      RankBound(t, B, L - 1);
      var rt := Rank(t, B, L - 1);
      assert Rank(s, B, L) == h * P + rt;
      MulMono(P, h, B - 1);
      Distribute(P, B - 1, 1);
      assert P * (B - 1) + P == P * B;
      assert Pow(B, L) == B * P;
    }
  }

  lemma {:induction false} RankLess(a: seq<nat>, b: seq<nat>, B: nat, L: nat)
    requires B >= 1 && |a| <= L && |b| <= L
    requires forall i :: 0 <= i < |a| ==> a[i] < B
    requires forall i :: 0 <= i < |b| ==> 1 <= b[i] < B
    requires LexLess(a, b)
    ensures Rank(a, B, L) < Rank(b, B, L)
  {
    if L > 0 {
      var P := Pow(B, L - 1);
      PowPositive(B, L - 1);
      var hb := b[0];
      MulMono(P, 1, hb);
      if |a| == 0 {
        RankEmpty(B, L - 1);
      } else {
        var ha := a[0];
        forall i | 0 <= i < |a| - 1 ensures a[1..][i] < B {
          assert a[1..][i] == a[i + 1];
        }
        forall i | 0 <= i < |b| - 1 ensures 1 <= b[1..][i] < B {
          assert b[1..][i] == b[i + 1];
        }
        if ha < hb {
          RankBound(a[1..], B, L - 1);
          MulStep(P, ha, hb);
        } else {
          RankLess(a[1..], b[1..], B, L - 1);
        }
      }
    }
  }
}
