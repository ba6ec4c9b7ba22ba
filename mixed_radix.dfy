/** The odometer of findPossibleIsoGroup read as a counter: the iterators
    of the partition nodes are the digits of a mixed-radix number whose
    lowest digit belongs to the smallest prime. */
module MixedRadix {
  import opened NumberTheory
  import opened Groups

  /** The digits of c, lowest first, in radices rs. */
  function Digits(rs: seq<nat>, c: nat): (d: seq<nat>)
    requires AllPositive(rs)
    ensures InRange(rs, d)
  {
    if |rs| == 0 then [] else [c % rs[0]] + Digits(rs[1..], c / rs[0])
  }

  /** The number a digit vector stands for. */
  function Value(rs: seq<nat>, d: seq<nat>): nat
    requires |d| == |rs|
  {
    if |rs| == 0 then 0 else d[0] + rs[0] * Value(rs[1..], d[1..])
  }

  predicate InRange(rs: seq<nat>, d: seq<nat>)
  {
    |d| == |rs| && forall i :: 0 <= i < |d| ==> d[i] < rs[i]
  }

  /** Add one to the lowest digit and carry upwards. */
  function Increment(rs: seq<nat>, d: seq<nat>): (r: seq<nat>)
    requires |d| == |rs|
    ensures |r| == |rs|
  {
    if |rs| == 0 then []
    else if d[0] + 1 == rs[0] then [0] + Increment(rs[1..], d[1..])
    else [d[0] + 1] + d[1..]
  }

  /** A carry reaches position k when every lower digit is at its maximum. */
  predicate CarryInto(rs: seq<nat>, d: seq<nat>, k: nat)
    requires |d| == |rs| && k <= |rs|
  {
    forall m :: 0 <= m < k ==> d[m] + 1 == rs[m]
  }

  lemma {:induction false} DigitsZero(rs: seq<nat>)
    requires AllPositive(rs)
    ensures forall i :: 0 <= i < |rs| ==> Digits(rs, 0)[i] == 0
    ensures forall i :: 0 <= i < |rs| ==> Digits(rs, Product(rs))[i] == 0
  {
    if |rs| > 0 {
      DigitsZero(rs[1..]);
      var r, P := rs[0], Product(rs[1..]);
      MultipleMod(r, P);
      assert Product(rs) == r * P;
      forall i | 1 <= i < |rs|
        ensures Digits(rs, 0)[i] == 0 && Digits(rs, Product(rs))[i] == 0
      {
        assert Digits(rs, 0)[i] == Digits(rs[1..], 0)[i - 1];
        assert Digits(rs, Product(rs))[i] == Digits(rs[1..], P)[i - 1];
      }
    }
  }

  /** Reading the digits of a count back gives the count. */
  lemma {:induction false} ValueOfDigits(rs: seq<nat>, c: nat)
    requires AllPositive(rs) && c < Product(rs)
    ensures Value(rs, Digits(rs, c)) == c
  {
    if |rs| > 0 {
      var r, P := rs[0], Product(rs[1..]);
      var q := c / r;
      assert Product(rs) == r * P;
      MulMonoIf(r, P, q);
      assert c == r * q + c % r;
      ValueOfDigits(rs[1..], q);
      assert Digits(rs, c)[1..] == Digits(rs[1..], q);
    }
  }

  /** Every in-range digit vector is the digits of exactly the number it stands for. */
  lemma {:induction false} DigitsOfValue(rs: seq<nat>, d: seq<nat>)
    requires AllPositive(rs) && InRange(rs, d)
    ensures Value(rs, d) < Product(rs) && Digits(rs, Value(rs, d)) == d
  {
    if |rs| > 0 {
      var r, P := rs[0], Product(rs[1..]);
      var tail := d[1..];
      assert InRange(rs[1..], tail) by {
        forall i | 0 <= i < |tail| ensures tail[i] < rs[1..][i] {
          assert tail[i] == d[i + 1];
        }
      }
      DigitsOfValue(rs[1..], tail);
      var V := Value(rs[1..], tail);
      assert Value(rs, d) == d[0] + r * V;
      MulStep(r, V, P);
      assert Product(rs) == r * P;
      DivModUnique(Value(rs, d), r, V, d[0]);
      assert d == [d[0]] + tail;
    }
  }

  /** Different counts below the product have different digits. */
  lemma DigitsInjective(rs: seq<nat>, c1: nat, c2: nat)
    requires AllPositive(rs) && c1 < Product(rs) && c2 < Product(rs)
    requires Digits(rs, c1) == Digits(rs, c2)
    ensures c1 == c2
  {
    ValueOfDigits(rs, c1);
    ValueOfDigits(rs, c2);
  }

  /** The digit at position k after an increment. */
  lemma {:induction false} IncrementAt(rs: seq<nat>, d: seq<nat>, k: nat)
    requires |d| == |rs| && k < |rs|
    ensures Increment(rs, d)[k] ==
      if CarryInto(rs, d, k) then (if d[k] + 1 == rs[k] then 0 else d[k] + 1) else d[k]
  {
    if k > 0 {
      if d[0] + 1 == rs[0] {
        IncrementAt(rs[1..], d[1..], k - 1);
        assert CarryInto(rs, d, k) == CarryInto(rs[1..], d[1..], k - 1) by {
          forall m | 0 <= m < k - 1 ensures d[1..][m] == d[m + 1] && rs[1..][m] == rs[m + 1] {
          }
        }
      } else {
        assert !CarryInto(rs, d, k) by {
          assert !(d[0] + 1 == rs[0]);
        }
      }
    }
  }

  /** One odometer step adds one to the count. */
  lemma {:induction false} IncrementDigits(rs: seq<nat>, c: nat)
    requires AllPositive(rs) && c < Product(rs)
    ensures Increment(rs, Digits(rs, c)) == Digits(rs, c + 1)
  {
    if |rs| > 0 {
      var q, d0 := DigitsSplit(rs, c);
      if d0 + 1 == rs[0] {
        IncrementDigits(rs[1..], q);
        CarryStep(rs, c, q, d0);
      } else {
        IncrementCons(rs, d0, Digits(rs[1..], q));
        DigitsCons(rs, c + 1, q, d0 + 1);
      }
    }
  }

  /** The step of IncrementDigits where the lowest digit wraps around. */
  lemma CarryStep(rs: seq<nat>, c: nat, q: nat, d0: nat)
    requires AllPositive(rs) && |rs| > 0 && c == rs[0] * q + d0 && d0 + 1 == rs[0]
    requires Digits(rs, c) == [d0] + Digits(rs[1..], q)
    requires Increment(rs[1..], Digits(rs[1..], q)) == Digits(rs[1..], q + 1)
    ensures Increment(rs, Digits(rs, c)) == Digits(rs, c + 1)
  {
    IncrementCons(rs, d0, Digits(rs[1..], q));
    assert rs[0] * q + rs[0] == rs[0] * (q + 1);
    DigitsCons(rs, c + 1, q + 1, 0);
  }

  /** Increment on a digit vector written as its lowest digit and the rest. */
  lemma IncrementCons(rs: seq<nat>, d0: nat, rest: seq<nat>)
    requires |rs| > 0 && |rest| == |rs| - 1
    ensures Increment(rs, [d0] + rest) ==
      if d0 + 1 == rs[0] then [0] + Increment(rs[1..], rest) else [d0 + 1] + rest
  {
    assert ([d0] + rest)[1..] == rest;
  }

  /** The carry runs off the top exactly at the last count. */
  lemma {:induction false} CarryOutAtEnd(rs: seq<nat>, c: nat)
    requires AllPositive(rs) && c < Product(rs)
    ensures CarryInto(rs, Digits(rs, c), |rs|) <==> c + 1 == Product(rs)
  {
    if |rs| > 0 {
      var q, d0 := DigitsSplit(rs, c);
      CarryOutAtEnd(rs[1..], q);
      CarryIntoCons(rs, Digits(rs, c), |rs|);
      LastCount(rs[0], Product(rs[1..]), q, d0);
    }
  }

  /** The lowest digit of c and the count the higher digits stand for. */
  lemma DigitsSplit(rs: seq<nat>, c: nat) returns (q: nat, d0: nat)
    requires AllPositive(rs) && |rs| > 0 && c < Product(rs)
    ensures c == rs[0] * q + d0 && d0 < rs[0] && q < Product(rs[1..])
    ensures Digits(rs, c) == [d0] + Digits(rs[1..], q)
  {
    var r, P := rs[0], Product(rs[1..]);
    q, d0 := c / r, c % r;
    assert c == r * q + d0 && d0 < r;
    assert Product(rs) == r * P;
    QuotientBound(c, r, P, q, d0);
    DigitsCons(rs, c, q, d0);
  }

  /** Digits of a number given as r * q + d0 with d0 a digit in radix r. */
  lemma DigitsCons(rs: seq<nat>, x: nat, q: nat, d0: nat)
    requires AllPositive(rs) && |rs| > 0 && x == rs[0] * q + d0 && d0 < rs[0]
    ensures Digits(rs, x) == [d0] + Digits(rs[1..], q)
  {
    DivModUnique(x, rs[0], q, d0);
  }

  /** A number below r * P has a quotient by r below P. */
  lemma QuotientBound(c: nat, r: nat, P: nat, q: nat, m: nat)
    requires c < r * P && c == r * q + m
    ensures q < P
  {
    MulMonoIf(r, P, q);
  }

  /** The carry reaches k + 1 when it reaches k and digit k is at its maximum. */
  lemma CarryIntoNext(rs: seq<nat>, d: seq<nat>, k: nat)
    requires |d| == |rs| && k < |rs|
    ensures CarryInto(rs, d, k + 1) <==> CarryInto(rs, d, k) && d[k] + 1 == rs[k]
  {
  }

  /** A carry into position k is a carry out of the lowest digit and on into k - 1 of the rest. */
  lemma CarryIntoCons(rs: seq<nat>, d: seq<nat>, k: nat)
    requires |d| == |rs| && 1 <= k <= |rs|
    ensures CarryInto(rs, d, k) <==> d[0] + 1 == rs[0] && CarryInto(rs[1..], d[1..], k - 1)
  {
    forall m | 0 <= m < k - 1 ensures d[1..][m] == d[m + 1] && rs[1..][m] == rs[m + 1] {
    }
  }

  /** r * q + d0 is the last count below r * P exactly when both digits are at their maximum. */
  lemma LastCount(r: nat, P: nat, q: nat, d0: nat)
    requires d0 < r && q < P
    ensures d0 + 1 == r && q + 1 == P <==> r * q + d0 + 1 == r * P
  {
    assert r * q + r == r * (q + 1);
    MulMonoIf(r, q + 1, P);
    if r * (q + 1) == r * P {
      MulCancel(r, q + 1, P);
    }
  }
}
