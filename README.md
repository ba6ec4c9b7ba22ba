# Finite Abelian Classifier — a Dafny model

The program takes a finite abelian group G = Z_{n1} × … × Z_{nk} and an
element g of it. It names the group in the fundamental-theorem form
(a direct product of cyclic groups of prime-power order) that is isomorphic
to the quotient G/<g>. It works in four steps:

1. Compute the order of g (`orderOfGenerator`). The order of the quotient is
   then |G| / ord(g). Factor that order into prime powers (`primeFactorize`).
2. For every prime, list all partitions of its exponent (`findPossibleIsoGroup`).
   Then combine one partition per prime, odometer style, into every candidate
   group. Candidates whose largest element order exceeds that of G are
   dropped (pruning).
3. Enumerate the cosets of <g> and tally how many cosets there are of each
   order in G/<g> (`calcElementOrders`, with `orderOfCoset`).
4. Narrow the candidates by the largest order seen. Then return the first
   candidate whose own order histogram equals the one of G/<g> (`main`).

Each step is modelled in the form the source has:

- A loop becomes a `method` with its invariants.
- The method is proved against a specification function.
- What the source promises is proved about that function as lemmas.

Groups, tuples and cosets are values (datatypes). Integers are unbounded.

Modules, one per file:

| file | module | models |
|---|---|---|
| number_theory.dfy | NumberTheory | divisibility, gcd, lcm, powers, primes |
| groups.dfy | Groups | `Group`, `Tuple` and the header's `mod`, `+`, `identity`, `generateElements`, `findLargestOrderElement` |
| generator.dfy | CyclicSubgroup | `orderOfGenerator` |
| factorize.dfy | Factorization | `primeFactorize` |
| partitions.dfy | Partitions | the partition generator inside `findPossibleIsoGroup` |
| mixed_radix.dfy | MixedRadix | the odometer, read as a mixed-radix counter |
| candidates.dfy | Candidates | `findPossibleIsoGroup` (partition table, odometer, pruning) |
| cosets.dfy | Cosets | `orderOfCoset` and the subgroup <g> |
| element_orders.dfy | ElementOrders | `calcElementOrders` |
| classifier.dfy | Classifier | the narrowing and matching in `main` |

## Model

| member | source | states |
|---|---|---|
| NumberTheory.LcmDividesIff | FiniteAbelianClassifier.cpp:154 | lcm(a, b) divides m exactly when both a and b divide m; this is what lets the running lcm of line 154 be the order of the tuple |
| NumberTheory.ComponentOrderDivides | FiniteAbelianClassifier.cpp:154 | n divides k·x exactly when n / gcd(n, x) divides k, so n / gcd(n, x) is the order of x in Z_n |
| NumberTheory.PrimeDividesProduct | FiniteAbelianClassifier.cpp:110-146 | a prime dividing a·b divides a or b (used to show that every prime divisor of n is found) |
| Groups.ElementsFacts | FiniteAbelianClassifier.cpp:272 | the element list of G has no repeats, holds exactly the reduced tuples, and has |G| = n1·…·nk members |
| Groups.LargestOrderElementFacts | FiniteAbelianClassifier.cpp:253 | the largest element order (lcm of the factors) is positive, every factor divides it, and it divides |G| |
| Groups.AddComm | FiniteAbelianClassifier.cpp:106 | componentwise addition mod n_i is commutative on G |
| Groups.AddAssoc | FiniteAbelianClassifier.cpp:106 | componentwise addition mod n_i is associative on G |
| Groups.AddIdentity | FiniteAbelianClassifier.cpp:274-279 | the all-zero tuple is a two-sided identity |
| Groups.AddCancel | FiniteAbelianClassifier.cpp:295-300 | a + c = b + c implies a = b, so translating a coset never merges elements |
| Groups.ScaleAdd | FiniteAbelianClassifier.cpp:106 | i·t + j·t = (i + j)·t |
| Groups.ScaleScale | FiniteAbelianClassifier.cpp:106 | k·(m·t) = (k·m)·t |
| CyclicSubgroup.OrderOfGenerator | FiniteAbelianClassifier.cpp:148-158 | fails exactly when the tuple's length differs from G's number of factors (the thrown logic_error); otherwise returns the order of the tuple |
| CyclicSubgroup.GeneratorOrderIsLeast | FiniteAbelianClassifier.cpp:148-158 | the computed lcm is the least k >= 1 with k·g equal to the identity |
| CyclicSubgroup.ScaleIdentityIffOrderDivides | FiniteAbelianClassifier.cpp:153-155 | k·g is the identity exactly when ord(g) divides k |
| CyclicSubgroup.IdentityHasOrderOne | FiniteAbelianClassifier.cpp:85 | the identity has order 1 |
| CyclicSubgroup.GeneratorOrderDivides | FiniteAbelianClassifier.cpp:176-177 | ord(g) divides |G| (so the quotient order |G| / ord(g) is exact) and divides G's largest element order |
| Factorization.PrimeFactorize | FiniteAbelianClassifier.cpp:110-146 | the product of p^e over the map is n; every key is a prime dividing n with exponent >= 1; every prime dividing n is a key; n = 1 gives the empty map |
| Factorization.DivideOut | FiniteAbelianClassifier.cpp:119-123 | the do-while divides out the full power of p: n = rest·p^e, e >= 1, p does not divide rest |
| Factorization.TrialStep | FiniteAbelianClassifier.cpp:127-135 | one odd trial divisor keeps the loop invariant: the map times the rest is n, and no number below the divisor divides the rest |
| Factorization.RecordLeftover | FiniteAbelianClassifier.cpp:138-145 | after the loop, a rest above 1 is a new prime recorded with exponent 1, and the full factorization contract holds |
| Factorization.LeftoverIsPrime | FiniteAbelianClassifier.cpp:127-141 | a rest n >= 2 with no divisor in [2, p) and p² > n is a prime at least p |
| Factorization.TrialDivisorIsPrime | FiniteAbelianClassifier.cpp:128 | the first divisor that trial division meets is prime |
| Factorization.FactorizationFacts | FiniteAbelianClassifier.cpp:110-146 | a map of primes whose power product is n holds every prime divisor of n, and no others |
| Partitions.NextPartition | FiniteAbelianClassifier.cpp:195-222 | reports done exactly when the partition is all ones; otherwise returns its lexicographic successor |
| Partitions.PartitionsOf | FiniteAbelianClassifier.cpp:184-223 | the list starts at [e], ends at all ones, holds only partitions of e, is strictly decreasing lexicographically, and holds every partition of e |
| Partitions.SuccessorIsPartition | FiniteAbelianClassifier.cpp:195-222 | the successor of a partition of e is a partition of e |
| Partitions.SuccessorLess | FiniteAbelianClassifier.cpp:195-222 | the successor is lexicographically smaller |
| Partitions.SuccessorImmediate | FiniteAbelianClassifier.cpp:195-222 | no partition of e lies strictly between a partition and its successor, so none is skipped |
| Partitions.ListDistinct | FiniteAbelianClassifier.cpp:191 | no partition is listed twice |
| Partitions.FirstIsMax | FiniteAbelianClassifier.cpp:187 | no partition of e is lexicographically above [e] |
| Partitions.OnesIsMin | FiniteAbelianClassifier.cpp:202 | every other partition of e is lexicographically above all ones |
| MixedRadix.ValueOfDigits | FiniteAbelianClassifier.cpp:228-248 | reading back the digits of a count c gives c |
| MixedRadix.DigitsOfValue | FiniteAbelianClassifier.cpp:228-248 | every in-range digit vector is the digit vector of exactly one count below the product of the radices |
| MixedRadix.DigitsInjective | FiniteAbelianClassifier.cpp:228-248 | distinct counts have distinct digit vectors |
| MixedRadix.IncrementDigits | FiniteAbelianClassifier.cpp:241-247 | advancing the iterators with carry turns the digits of c into the digits of c + 1 |
| MixedRadix.CarryOutAtEnd | FiniteAbelianClassifier.cpp:241-247 | the carry leaves the last iterator (allDone stays true) exactly when c + 1 is the number of combinations |
| Candidates.FindPossibleIsoGroup | FiniteAbelianClassifier.cpp:160-257 | fails exactly on a length mismatch; otherwise returns the candidates kept by pruning, over a prime-power table of |G| / ord(g); each is valid, has order |G| / ord(g), and fits under G's largest element order; a trivial quotient gives the single empty group |
| Candidates.BuildNodes | FiniteAbelianClassifier.cpp:184-224 | builds one node per prime of the factorization, in increasing prime order, each holding the full partition list of its exponent, with iterator 0 |
| Candidates.LeastKey | FiniteAbelianClassifier.cpp:184 | the key picked is in the map and is its least key, as std::map iterates |
| Candidates.Odometer | FiniteAbelianClassifier.cpp:228-256 | leaves the nodes as they were and returns exactly the pruned list of all combinations, in odometer order |
| Candidates.Pass | FiniteAbelianClassifier.cpp:230-248 | one pass appends the prime powers of the current partitions and advances the iterators by one count; allDone means that the carry left the last node |
| Candidates.AppendFactors | FiniteAbelianClassifier.cpp:237-239 | appends p^a for each part a of the partition, in order |
| Candidates.Advance | FiniteAbelianClassifier.cpp:241-247 | a node's iterator moves on only under a carry, and wraps to 0 at the end; the carry goes on exactly when it wrapped |
| Candidates.CandidateOrder | FiniteAbelianClassifier.cpp:238 | every combination is a valid group whose order is the quotient order |
| Candidates.EveryGroupIsConsidered | FiniteAbelianClassifier.cpp:226-256 | every choice of one partition per prime is among the candidates, and survives pruning exactly when it fits under G's largest element order |
| Candidates.CombinationsDistinct | FiniteAbelianClassifier.cpp:228-248 | two different passes choose different partitions |
| Candidates.SurvivorsMember | FiniteAbelianClassifier.cpp:252-255 | a group survives pruning exactly when it is a candidate and its largest element order is at most G's |
| Candidates.SurvivorFacts | FiniteAbelianClassifier.cpp:250-255 | every survivor is valid, has the quotient order, and fits |
| Candidates.TrivialQuotient | FiniteAbelianClassifier.cpp:176-178 | when g generates G, the only candidate is the trivial group |
| Cosets.OrderOfCoset | FiniteAbelianClassifier.cpp:98-108 | keeps the elements, and sets the order to the least k >= 1 with k·rep in H |
| Cosets.CosetOrderOneIff | FiniteAbelianClassifier.cpp:101-104 | a coset has order 1 exactly when its representative is in H |
| Cosets.IdentityInSubgroup | FiniteAbelianClassifier.cpp:278-282 | the listing of <g> ends with the identity |
| Cosets.ScaleInSubgroup | FiniteAbelianClassifier.cpp:276-282 | every multiple of g is listed in <g> |
| Cosets.AddClosed | FiniteAbelianClassifier.cpp:276-282 | <g> is closed under addition |
| Cosets.ShiftIn | FiniteAbelianClassifier.cpp:295-300 | translating by a member of <g> neither enters nor leaves <g> |
| Cosets.CosetOrderShift | FiniteAbelianClassifier.cpp:292-305 | all elements of a coset have the same order in G/<g>, so the pick of elements[0] does not change the tally |
| ElementOrders.CalcElementOrders | FiniteAbelianClassifier.cpp:260-313 | afterwards tracker[1] = 1; for every other k, the count added at k times ord(g) is the number of elements whose coset has order k; a key is present exactly when it was already present, is 1, or has such elements |
| ElementOrders.IdentityCoset | FiniteAbelianClassifier.cpp:274-282 | lists <g> as g, 2g, …, ord(g)·g, and removes exactly those elements from the pool |
| ElementOrders.ListNext | FiniteAbelianClassifier.cpp:278-281 | one step of the listing adds the next multiple and keeps the listing invariant |
| ElementOrders.NextCoset | FiniteAbelianClassifier.cpp:292-311 | one pass of the coset loop keeps the sweep invariant and strictly shrinks the pool |
| ElementOrders.Translate | FiniteAbelianClassifier.cpp:295-300 | builds the coset H + x in H's order, and removes exactly its elements from the pool |
| ElementOrders.TranslateOrder | FiniteAbelianClassifier.cpp:302-305 | the order computed from the coset's first element is the coset order of x |
| ElementOrders.Pick | FiniteAbelianClassifier.cpp:292 | the picked element is in the pool |
| ElementOrders.Erase | FiniteAbelianClassifier.cpp:276 | removes one element from the pool |
| ElementOrders.SubgroupDistinct | FiniteAbelianClassifier.cpp:274-282 | the listing of <g> has no repeats |
| ElementOrders.ShiftedDistinct | FiniteAbelianClassifier.cpp:295-300 | a translate of a repeat-free list has no repeats |
| ElementOrders.CosetInPool | FiniteAbelianClassifier.cpp:295-300 | every element of the next coset is still in the pool, so no find() returns end() |
| ElementOrders.CosetCard | FiniteAbelianClassifier.cpp:295-300 | a coset has exactly |<g>| distinct elements |
| ElementOrders.CosetSummary | FiniteAbelianClassifier.cpp:292-305 | a coset off <g> is non-empty, has |<g>| elements, and they all share its order, which is not 1 |
| ElementOrders.SweepStep | FiniteAbelianClassifier.cpp:290-311 | taking one coset out of the pool and tallying its order keeps the sweep invariant |
| ElementOrders.SweepDone | FiniteAbelianClassifier.cpp:290-312 | once the pool is empty, the tally holds the counts stated for CalcElementOrders |
| Classifier.TalliedHistogram | FiniteAbelianClassifier.cpp:260-313 | from a fresh map, the tally is exactly the histogram of G/<g>: for each coset order present, the number of cosets of that order |
| Classifier.CosetOrdersIff | FiniteAbelianClassifier.cpp:287-311 | k is a key of the histogram exactly when k = 1 or some element's coset has order k |
| Classifier.IdentityCosetCount | FiniteAbelianClassifier.cpp:287 | the elements of coset order 1 make up exactly one coset, so orderTracker[1] = 1 is right |
| Classifier.HistogramSum | FiniteAbelianClassifier.cpp:287-311 | the tally has one count per coset: its counts add up to |G| / ord(g), the order of the quotient, and ord(g) times their sum is |G| |
| Classifier.TotalCounts | FiniteAbelianClassifier.cpp:302-310 | counts that are exact for their orders (ord(g) times the count is the number of elements of that coset order) add up to the elements whose coset order is a key |
| Classifier.SplitOff | FiniteAbelianClassifier.cpp:302-310 | the elements are split by coset order: removing one order removes exactly its elements |
| Classifier.EveryCosetOrder | FiniteAbelianClassifier.cpp:287-311 | every element of G has a coset order that is a key of the tally |
| Classifier.CandidateHistogramSum | FiniteAbelianClassifier.cpp:85 | a candidate's histogram counts each of its elements once: the counts add up to |H| |
| Classifier.TrivialCosetOrder | FiniteAbelianClassifier.cpp:85 | modulo the trivial subgroup, the coset order of x is the order of x |
| Classifier.HistogramCountsOrders | FiniteAbelianClassifier.cpp:85 | for a candidate tallied with its identity as generator, k is a key exactly when some element has order k, and its count is the number of such elements |
| Classifier.HistogramLargest | FiniteAbelianClassifier.cpp:63 | a group's largest element order is a key of its histogram and is at least every key |
| Classifier.LargestKey | FiniteAbelianClassifier.cpp:63 | the key taken is in the map and is at least every key, as rbegin()->first is |
| Classifier.KeptMembers | FiniteAbelianClassifier.cpp:63-70 | a group is kept exactly when it is a candidate whose largest element order is at least maxOrder |
| Classifier.KeptConcat | FiniteAbelianClassifier.cpp:63-70 | narrowing works piecewise over concatenation, so the kept groups keep their relative order |
| Classifier.Narrow | FiniteAbelianClassifier.cpp:63-70 | the in-place erase loop leaves exactly the kept candidates, in their order |
| Classifier.FirstMatchNone | FiniteAbelianClassifier.cpp:82-91 | no group is found exactly when no candidate's histogram equals the target |
| Classifier.FirstMatchFirst | FiniteAbelianClassifier.cpp:82-91 | a found group sits at some index, matches, and no earlier candidate matches |
| Classifier.FirstMatchMember | FiniteAbelianClassifier.cpp:82-91 | a found group is one of the candidates, and its histogram equals the target |
| Classifier.FindMatch | FiniteAbelianClassifier.cpp:82-91 | the loop with break returns the first candidate whose histogram equals the target, or none |
| Classifier.NarrowKeepsMatch | FiniteAbelianClassifier.cpp:61-91 | narrowing by the target's largest key never changes which group is found first |
| Classifier.Classify | FiniteAbelianClassifier.cpp:48-91 | fails exactly on a length mismatch; otherwise the answer is the first candidate of the pruned list whose histogram equals that of G/<g>; the answer has the quotient order and the same histogram |

## Left out

- Argument parsing (lines 3-40) is not modelled: the `argc` checks, `atoi`, and the `mod` separator. Its result is a precondition instead: G is valid (every n_i >= 1) and a generator of the right length is reduced (each component is below its n_i). The generator loop `i <= argc` reads one argument past the end. Since parsing is left out, the model is not affected.
- All console output is left out: the `std::cout` lines of `main`, `printStats` (315-322) and the three `operator<<` (326-354).
- FiniteAbelianClassifier.h is not part of this model. `Group`, `Tuple` and `Coset` are modelled from their uses in the .cpp: `mod`, `+`, `identity`, `order`, `generateElements` and `findLargestOrderElement` (as lcm of the factors).
- Unsigned 32-bit wrap-around is not modelled; integers are unbounded. `G.order`, `lcm` and `pow` can overflow for large groups, and nothing here captures it.
- Factorization.PrimeFactorize: the floating `p <= sqrt(n)` is modelled as the exact `p * p <= n`. Rounding of sqrt for large n is left out. With the exact test, the `found->second++` branch (line 143) is unreachable, and the model proves it.
- Candidates.AppendFactors: `pow((long) p, (long) a)` through double is modelled as the exact power p^a.
- ElementOrders.CalcElementOrders: the `elements` vector is modelled as a set. `elements[0]` is an arbitrary member (Pick), so the order in which cosets are visited is not modelled; the tally does not depend on it. The linear `find`/`erase` cost is not modelled. An `erase` of `end()` is undefined in C++; here it is a precondition, and the model proves it never arises. The `qGroup` vector is written but never read, so it is left out.
- ElementOrders.CalcElementOrders: it requires the generator to be reduced. With an unreduced generator the source's `find` misses and `erase(end())` is undefined.
- Classifier.Narrow: the index is unbounded. The unsigned `i--` at i = 0 wraps to 2^32 - 1, and the following `i++` brings it back to 0, so the model uses the net effect. Lists of 2^32 or more candidates are not modelled.
- Classifier.Classify: the model does not prove that equal histograms imply isomorphism; that is the theorem the program relies on. It proves that the answer is the first pruned candidate with an equal histogram, and that the answer has the quotient's order and histogram.
- Classifier.Classify: the model does not prove that some candidate matches. `FindMatch` and `Classify` may return none. The source relies on the fundamental theorem of finite abelian groups for a match: G/<g> is isomorphic to one of the candidates, and isomorphic groups have equal histograms. Neither fact is proved here.
- The `logic_error` thrown by `orderOfGenerator` is not caught in the source. It is modelled as an `Err` result that `findPossibleIsoGroup` and `main` pass on.
