// Milliunits.SplitEven (milliunits.go): cutting an amount into n nearly equal parts.
module SplitEven {
  import opened Basics
  import opened Arithmetic
  import opened GoInt
  import Milliunits

  /** The exact (unbounded) total of a list of amounts. */
  function Sum(p: seq<int>): int {
    if p == [] then 0 else Sum(p[..|p| - 1]) + p[|p| - 1]
  }

  function Size(x: int): nat { if x < 0 then -x else x }

  /** n parts that total m, differ by at most one, the larger magnitudes first. */
  ghost predicate IsEvenSplit(m: int, n: nat, p: seq<int>) {
    && |p| == n
    && Sum(p) == m
    && (forall i, j | 0 <= i < n && 0 <= j < n :: p[i] - p[j] <= 1)
    && (forall i, j | 0 <= i < j < n :: Size(p[j]) <= Size(p[i]))
  }

  /**
   * SplitEven; None stands for the panic on n <= 0. The parts are filled in place, with Go's
   * truncated division and wrapping addition.
   */
  method Split(m: int64, n: int64) returns (r: Option<array<int64>>)
    ensures r.None? <==> n <= 0
    ensures r.Some? ==> fresh(r.value) && IsEvenSplit(m, n, r.value[..])
  {
    if n <= 0 {
      return None;
    }
    QuoRem(m, n);
    var quo: int64 := Quo(m, n);
    var rem: int64 := Rem(m, n);
    var extra := Milliunits.Abs(rem);
    var step: int64 := if rem < 0 then -1 else 1;

    var parts := new int64[n];
    for i := 0 to n
      invariant forall j | 0 <= j < i :: parts[j] == if j < extra then quo + step else quo
    {
      parts[i] := quo;
      if i < extra {
        parts[i] := Milliunits.Add(parts[i], step);
      }
    }
    DealtOut(m, n, parts[..]);
    r := Some(parts);
  }

  /** The quotient everywhere, one more (or less) on the first parts, is an even split. */
  lemma DealtOut(m: int, n: nat, p: seq<int>)
    requires n > 0 && |p| == n
    requires forall j | 0 <= j < n ::
               p[j] == Quo(m, n) + if j < Size(Rem(m, n)) then (if Rem(m, n) < 0 then -1 else 1) else 0
    ensures IsEvenSplit(m, n, p)
  {
    QuoRem(m, n);
    var step := if Rem(m, n) < 0 then -1 else 1;
    StepSum(p, Quo(m, n), step, Size(Rem(m, n)));
  }

  lemma {:induction false} StepSum(p: seq<int>, quo: int, step: int, extra: nat)
    requires forall j | 0 <= j < |p| :: p[j] == quo + if j < extra then step else 0
    ensures Sum(p) == |p| * quo + step * (if |p| < extra then |p| else extra)
  {
    if p != [] {
      StepSum(p[..|p| - 1], quo, step, extra);
      assert |p| * quo == (|p| - 1) * quo + quo;
      if |p| <= extra { assert step * |p| == step * (|p| - 1) + step; }
    }
  }

  /** Truncated division: the remainder is smaller than the divisor and has the dividend's sign. */
  lemma QuoRem(m: int, n: int)
    requires n > 0
    ensures m == n * Quo(m, n) + Rem(m, n)
    ensures Size(Rem(m, n)) < n
    ensures m >= 0 ==> Quo(m, n) >= 0 && Rem(m, n) >= 0
    ensures m <= 0 ==> Quo(m, n) <= 0 && Rem(m, n) <= 0
    ensures Size(Quo(m, n)) + Size(Rem(m, n)) <= Size(m)
  {
    NatDivision(Size(m), n);
    var q := Size(m) / n;
    if m < 0 { assert n * -q == -(n * q); }
  }

  lemma NatDivision(a: nat, n: nat)
    requires n > 0
    ensures a == n * (a / n) + a % n && a / n + a % n <= a
  {
    MulAtLeast(n, a / n);
  }

  lemma MulAtLeast(n: nat, q: nat)
    requires n > 0
    ensures n * q >= q
  {
    assert n * q == (n - 1) * q + q;
  }

  // ----- what the contract pins down

  lemma {:induction false} SumNegated(p: seq<int>, q: seq<int>)
    requires |p| == |q| && forall i | 0 <= i < |p| :: q[i] == -p[i]
    ensures Sum(q) == -Sum(p)
  {
    if p != [] { SumNegated(p[..|p| - 1], q[..|q| - 1]); }
  }

  /** Every part has the sign of the whole. */
  lemma PartsShareSign(m: int, n: nat, p: seq<int>)
    requires IsEvenSplit(m, n, p)
    ensures m >= 0 ==> forall i | 0 <= i < n :: p[i] >= 0
    ensures m <= 0 ==> forall i | 0 <= i < n :: p[i] <= 0
  {
    NoNegativePart(m, n, p);
    var q := Mirrored(m, n, p);
    NoNegativePart(-m, n, q);
    assert forall i | 0 <= i < n :: p[i] == -q[i];
  }

  lemma NoNegativePart(m: int, n: nat, p: seq<int>)
    requires IsEvenSplit(m, n, p)
    ensures m >= 0 ==> forall i | 0 <= i < n :: p[i] >= 0
  {
    if i :| 0 <= i < n && p[i] < 0 {
      assert forall j | 0 <= j < n :: p[j] - p[i] <= 1;
      SumSign(p, i);
    }
  }

  lemma {:induction false} SumSign(p: seq<int>, i: nat)
    requires i < |p| && p[i] < 0 && forall j | 0 <= j < |p| :: p[j] <= 0
    ensures Sum(p) < 0
  {
    var last := |p| - 1;
    if i < last { SumSign(p[..last], i); } else { SumNonPositive(p[..last]); }
  }

  lemma {:induction false} SumNonPositive(p: seq<int>)
    requires forall j | 0 <= j < |p| :: p[j] <= 0
    ensures Sum(p) <= 0
  {
    if p != [] { SumNonPositive(p[..|p| - 1]); }
  }

  /** There is only one such split. */
  lemma SplitUnique(m: int, n: nat, p: seq<int>, q: seq<int>)
    requires IsEvenSplit(m, n, p) && IsEvenSplit(m, n, q)
    ensures p == q
  {
    if m >= 0 {
      NonNegativeUnique(m, n, p, q);
    } else {
      var p' := Mirrored(m, n, p);
      var q' := Mirrored(m, n, q);
      NonNegativeUnique(-m, n, p', q');
      assert forall j | 0 <= j < n :: p[j] == -p'[j] && q[j] == -q'[j];
    }
  }

  lemma NonNegativeUnique(m: nat, n: nat, p: seq<int>, q: seq<int>)
    requires IsEvenSplit(m, n, p) && IsEvenSplit(m, n, q)
    ensures p == q
  {
    if n > 0 {
      NoNegativePart(m, n, p);
      NoNegativePart(m, n, q);
      StaircaseUnique(p, q);
    }
  }

  lemma Mirrored(m: int, n: nat, p: seq<int>) returns (q: seq<int>)
    requires IsEvenSplit(m, n, p)
    ensures IsEvenSplit(-m, n, q)
    ensures forall i | 0 <= i < n :: q[i] == -p[i]
  {
    q := seq(n, j requires 0 <= j < n => -p[j]);
    SumNegated(p, q);
  }

  /** A non-increasing list whose entries differ by at most one. */
  ghost predicate Staircase(p: seq<int>) {
    forall i, j | 0 <= i < j < |p| :: p[j] <= p[i] <= p[j] + 1
  }

  lemma {:induction false} StaircaseSum(p: seq<int>) returns (c: nat)
    requires Staircase(p) && p != []
    ensures var x := p[|p| - 1];
            && c < |p|
            && (forall i | 0 <= i < |p| :: p[i] == if i < c then x + 1 else x)
            && Sum(p) == |p| * x + c
  {
    var last := |p| - 1;
    if last == 0 {
      c := 0;
      assert p[..0] == [];
    } else {
      var c' := StaircaseSum(p[..last]);
      if p[last] == p[last - 1] {
        c := c';
      } else {
        assert p[last] <= p[0] <= p[last] + 1;
        c := last;
      }
    }
  }

  lemma StaircaseUnique(p: seq<int>, q: seq<int>)
    requires Staircase(p) && Staircase(q) && |p| == |q| && Sum(p) == Sum(q) && p != []
    ensures p == q
  {
    var c := StaircaseSum(p);
    var d := StaircaseSum(q);
    DivModUnique(Sum(p), |p|, p[|p| - 1], c);
    DivModUnique(Sum(p), |p|, q[|q| - 1], d);
  }

  /** Running totals never leave the interval between zero and the whole. */
  lemma {:induction false} PartialSums(m: int, n: nat, p: seq<int>, k: nat)
    requires IsEvenSplit(m, n, p) && k <= n
    ensures m >= 0 ==> 0 <= Sum(p[..k]) <= m
    ensures m <= 0 ==> m <= Sum(p[..k]) <= 0
    decreases n - k
  {
    PartsShareSign(m, n, p);
    PrefixSums(p, k);
  }

  lemma {:induction false} PrefixSums(p: seq<int>, k: nat)
    requires k <= |p|
    requires (forall i | 0 <= i < |p| :: p[i] >= 0) || (forall i | 0 <= i < |p| :: p[i] <= 0)
    ensures (forall i | 0 <= i < |p| :: p[i] >= 0) ==> 0 <= Sum(p[..k]) <= Sum(p)
    ensures (forall i | 0 <= i < |p| :: p[i] <= 0) ==> Sum(p) <= Sum(p[..k]) <= 0
  {
    if p == [] {
    } else if k == |p| {
      assert p[..k] == p;
      PrefixSums(p[..k - 1], k - 1);
    } else {
      var init := p[..|p| - 1];
      PrefixSums(init, k);
      assert init[..k] == p[..k];
    }
  }
}
