/**
 * Three ways to compute 1 + 2 + ... + n behind one range guard
 * (Problem4/src/sum-to-n.ts). JavaScript numbers are modelled as unbounded
 * integers: every accepted input is a non-negative integer below 2^53 - 1.
 */
module SumToN {
  import opened Wrappers

  /** `Number.MAX_SAFE_INTEGER`, that is 2^53 - 1. */
  const MAX_SAFE_INTEGER: int := 0x1F_FFFF_FFFF_FFFF

  /** The two errors the guard throws. */
  datatype SumError = TooLarge | Negative {
    function Message(): string {
      match this
      case TooLarge => "number is too large"
      case Negative => "number is negative"
    }
  }

  /** The inputs the guard lets through. */
  predicate Accepted(n: int) {
    0 <= n < MAX_SAFE_INTEGER
  }

  /**
   * `validationNumber`: the "too large" test comes first, then the
   * "negative" test; `None` means the guard returns normally.
   */
  function Validate(n: int): (r: Option<SumError>)
    ensures r == None <==> Accepted(n)
    ensures r == Some(TooLarge) <==> n >= MAX_SAFE_INTEGER
    ensures r == Some(Negative) <==> n < 0
    ensures r.Some? ==> r.value.Message() == if n >= MAX_SAFE_INTEGER then "number is too large" else "number is negative"
  {
    if n >= MAX_SAFE_INTEGER then Some(TooLarge)
    else if n < 0 then Some(Negative)
    else None
  }

  /** `Array.from({ length: n }, (_, i) => i + 1)`: the sequence [1, ..., n]. */
  function Range(n: nat): (r: seq<int>)
    ensures |r| == n
    ensures forall i :: 0 <= i < n ==> r[i] == i + 1
  {
    seq(n, i => i + 1)
  }

  /** `reduce((a, b) => a + b, acc)`: a left fold with `+`, consuming the front first. */
  function FoldAdd(acc: int, s: seq<int>): int
    decreases |s|
  {
    if s == [] then acc else FoldAdd(acc + s[0], s[1..])
  }

  /** The mathematical sum of a sequence, peeling off its last element. */
  function SumOf(s: seq<int>): int
    decreases |s|
  {
    if s == [] then 0 else SumOf(s[..|s| - 1]) + s[|s| - 1]
  }

  /** `sum_to_n_a`: the guard, then a fold over [1, ..., n]. */
  function SumToNA(n: int): (r: Result<int, SumError>)
    ensures r.Success? <==> Accepted(n)
    ensures r.Failure? ==> Some(r.error) == Validate(n)
  {
    match Validate(n)
    case Some(e) => Failure(e)
    case None => Success(FoldAdd(0, Range(n)))
  }

  /**
   * `sum_to_n_b`: the guard, then n + sum_to_n_b(n - 1) down to 0. Every
   * recursive call runs the guard again.
   */
  function SumToNB(n: int): (r: Result<int, SumError>)
    ensures r.Success? <==> Accepted(n)
    ensures r.Failure? ==> Some(r.error) == Validate(n)
  {
    match Validate(n)
    case Some(e) => Failure(e)
    case None =>
      if n == 0 then Success(0)
      else
        match SumToNB(n - 1)
        case Failure(e) => Failure(e)
        case Success(v) => Success(n + v)
  }

  /** `sum_to_n_c`: the guard, then the closed formula n(n + 1) / 2. */
  function SumToNC(n: int): (r: Result<int, SumError>)
    ensures r.Success? <==> Accepted(n)
    ensures r.Failure? ==> Some(r.error) == Validate(n)
  {
    match Validate(n)
    case Some(e) => Failure(e)
    case None => Success(n * (n + 1) / 2)
  }

  /** Taking the first element off the front of a sum. */
  lemma {:induction false} SumOfFront(s: seq<int>)
    requires s != []
    ensures SumOf(s) == s[0] + SumOf(s[1..])
    decreases |s|
  {
    if |s| > 1 {
      var init := s[..|s| - 1];
      SumOfFront(init);
      assert init[1..] == s[1..][..|s[1..]| - 1];
    }
  }

  /** A left fold with `+` adds the sum of the sequence to its start value. */
  lemma {:induction false} FoldIsSum(acc: int, s: seq<int>)
    ensures FoldAdd(acc, s) == acc + SumOf(s)
    decreases |s|
  {
    if s != [] {
      FoldIsSum(acc + s[0], s[1..]);
      SumOfFront(s);
    }
  }

  /** n(n + 1) is always even, so the formula's division is exact. */
  lemma ProductIsEven(n: int)
    ensures (n * (n + 1)) % 2 == 0
  {
    var k := n / 2;
    if n % 2 == 0 {
      assert n * (n + 1) == 2 * (k * (n + 1));
    } else {
      assert n + 1 == 2 * (k + 1);
      assert n * (n + 1) == 2 * (n * (k + 1));
    }
  }

  /** The sum of 1..n is n(n + 1) / 2 (Gauss). */
  lemma {:induction false} RangeSum(n: nat)
    ensures SumOf(Range(n)) == n * (n + 1) / 2
  {
    if n > 0 {
      RangeSum(n - 1);
      assert Range(n)[..n - 1] == Range(n - 1);
      ProductIsEven(n - 1);
      ProductIsEven(n);
      assert n * (n + 1) == (n - 1) * n + 2 * n;
    }
  }

  /** The recursion computes the mathematical sum of 1..n. */
  lemma {:induction false} RecursionIsSum(n: int)
    requires Accepted(n)
    ensures SumToNB(n) == Success(SumOf(Range(n)))
    decreases n
  {
    if n > 0 {
      RecursionIsSum(n - 1);
      assert Range(n)[..n - 1] == Range(n - 1);
    }
  }

  /**
   * The central property: on every accepted input the three variants agree
   * with each other and with the sum of 1..n; on every other input they all
   * throw the guard's error.
   */
  lemma AllAgree(n: int)
    ensures Accepted(n) ==> SumToNA(n) == Success(SumOf(Range(n)))
    ensures Accepted(n) ==> SumToNB(n) == Success(SumOf(Range(n)))
    ensures Accepted(n) ==> SumToNC(n) == Success(SumOf(Range(n)))
    ensures SumToNA(n) == SumToNB(n) == SumToNC(n)
  {
    if Accepted(n) {
      FoldIsSum(0, Range(n));
      RecursionIsSum(n);
      RangeSum(n);
    }
  }

  /** On an accepted input every variant returns the closed formula. */
  lemma AgreeOnFormula(n: int)
    requires Accepted(n)
    ensures SumToNA(n) == SumToNB(n) == SumToNC(n) == Success(n * (n + 1) / 2)
  {
    AllAgree(n);
  }

  /** The test driver's expected values: (n, sum of 1..n). */
  const TestVectors: seq<(int, int)> := [(0, 0), (1, 1), (5, 15), (10, 55), (100, 5050)]

  /** Each of the test driver's vectors holds for every variant. */
  lemma TestVectorHolds(i: nat)
    requires i < |TestVectors|
    ensures var (n, expected) := TestVectors[i];
      SumToNA(n) == SumToNB(n) == SumToNC(n) == Success(expected)
  {
    var (n, expected) := TestVectors[i];
    AgreeOnFormula(n);
  }

  /**
   * The driver's edge inputs: just below the limit is accepted, while -1,
   * the limit itself and one past it are rejected by every variant.
   */
  lemma EdgeVectors()
    ensures SumToNC(MAX_SAFE_INTEGER - 10) == Success((MAX_SAFE_INTEGER - 10) * (MAX_SAFE_INTEGER - 9) / 2)
    ensures SumToNA(-1) == SumToNB(-1) == SumToNC(-1) == Failure(Negative)
    ensures SumToNA(MAX_SAFE_INTEGER) == SumToNB(MAX_SAFE_INTEGER) == SumToNC(MAX_SAFE_INTEGER) == Failure(TooLarge)
    ensures SumToNA(MAX_SAFE_INTEGER + 1) == SumToNB(MAX_SAFE_INTEGER + 1) == Failure(TooLarge)
    ensures SumToNC(MAX_SAFE_INTEGER + 1) == Failure(TooLarge)
  {
  }
}
