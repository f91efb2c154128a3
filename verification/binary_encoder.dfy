/** Binary encoder: the greedy search for a binary fraction 0.b1b2...bn
    inside the final half-open interval. */
module BinaryEncoder {
  import opened Types
  import opened Arith

  /** The weight 2^-k of the k-th bit after the binary point, exactly. */
  function Weight(k: nat): (r: real)
    ensures r > 0.0
  {
    if k == 0 then 1.0 else Weight(k - 1) / 2.0
  }

  function Min(x: real, y: real): real {
    if x <= y then x else y
  }

  /** A code made of the characters '0' and '1' only. */
  predicate IsBits(b: string) {
    forall i | 0 <= i < |b| :: b[i] == '0' || b[i] == '1'
  }

  /** The value of the binary fraction 0.b1b2...bn, most significant bit
      first: bit i (counting from 1) weighs 2^-i. */
  function Value(b: string): real {
    if b == [] then 0.0
    else Value(b[..|b| - 1]) + (if b[|b| - 1] == '1' then Weight(|b|) else 0.0)
  }

  /** No weight exceeds 1. */
  lemma {:induction false} WeightAtMostOne(k: nat)
    ensures Weight(k) <= 1.0
  {
    if k > 0 {
      WeightAtMostOne(k - 1);
    }
  }

  /** Appending a bit adds its weight to the value. */
  lemma ValueAppend(b: string, bit: char)
    ensures Value(b + [bit]) == Value(b) + (if bit == '1' then Weight(|b| + 1) else 0.0)
  {
    assert (b + [bit])[..|b|] == b;
  }

  /** A code of n bits is worth at most 1 - 2^-n, so strictly less than 1. */
  lemma {:induction false} ValueBelowOne(b: string)
    ensures 0.0 <= Value(b) <= 1.0 - Weight(|b|)
  {
    if b != [] {
      ValueBelowOne(b[..|b| - 1]);
    }
  }

  /** Two codes of the same length that differ in value are at least one
      step 2^-n apart. */
  lemma {:induction false} GridGap(b: string, c: string)
    requires |b| == |c|
    ensures Value(b) < Value(c) ==> Value(b) + Weight(|b|) <= Value(c)
    decreases |b|
  {
    if b != [] {
      var b', c' := b[..|b| - 1], c[..|c| - 1];
      GridGap(b', c');
      GridGap(c', b');
    }
  }

  /** k + 1 bits of weight 2^-k fit into 1. */
  lemma {:induction false} WeightTimesCount(k: nat)
    ensures Weight(k) * (k as real + 1.0) <= 1.0
  {
    if k > 0 {
      WeightTimesCount(k - 1);
      WeightAtMostOne(k - 1);
      var p, t := Weight(k - 1), (k - 1) as real;
      assert k as real == t + 1.0;
      assert Weight(k) * (k as real + 1.0) == p * (t + 1.0) / 2.0 + p / 2.0;
    }
  }

  lemma CountAbove(q: real) returns (k: nat)
    requires q > 0.0
    ensures k as real > q
  {
    k := q.Floor + 1;
  }

  lemma Reciprocal(x: real) returns (q: real)
    requires x > 0.0
    ensures q > 0.0 && q * x == 1.0
  {
    q := 1.0 / x;
  }

  /** Every positive width is reached by some power 2^-k. */
  lemma StepsToFit(x: real) returns (k: nat)
    requires x > 0.0
    ensures Weight(k) <= x
  {
    var q := Reciprocal(x);
    k := CountAbove(q);
    WeightTimesCount(k);
    FitFromBounds(Weight(k), x, k as real + 1.0, q);
  }

  /** If p * m <= 1 < x * m for a positive m, then p <= x. */
  lemma FitFromBounds(p: real, x: real, m: real, q: real)
    requires x > 0.0 && q * x == 1.0 && q < m
    requires p * m <= 1.0
    ensures p <= x
  {
    Distribute(m, q, x);
    PositiveProduct(m - q, x);
    Distribute(x, p, m);
    PositiveFactor(x - p, m);
  }

  /** Bit j of `code` is set exactly when adding its weight 2^-(j+1) to the
      value of the bits before it stays below `upper`. */
  predicate Greedy(code: string, upper: real) {
    forall j | 0 <= j < |code| :: (code[j] == '1' <==> Value(code[..j]) + Weight(j + 1) < upper)
  }

  /** No code of fewer than `n` bits has its value in `interval`. */
  ghost predicate NoneShorter(interval: Span, n: nat) {
    forall b | IsBits(b) && |b| < n :: !interval.HalfOpenContains(Value(b))
  }

  /** `n` is at most every k whose weight 2^-k fits into `width`. */
  ghost predicate AtMostSteps(n: nat, width: real) {
    forall k: nat | Weight(k) <= width :: n <= k
  }

  /** Appending the bit the greedy rule picks keeps the code greedy. */
  lemma GreedyAppend(code: string, upper: real, bit: char)
    requires Greedy(code, upper)
    requires bit == '1' <==> Value(code) + Weight(|code| + 1) < upper
    ensures Greedy(code + [bit], upper)
  {
    var next := code + [bit];
    assert next[..|code|] == code;
    forall j | 0 <= j < |code|
      ensures next[..j] == code[..j]
    {
    }
  }

  /** When the n-bit candidate misses the interval while lying within one
      step 2^-n below the (clipped) upper bound, no other n-bit code hits it. */
  lemma NoneShorterStep(interval: Span, code: string, u: real)
    requires u == Min(interval.upper, 1.0)
    requires NoneShorter(interval, |code|)
    requires Value(code) < interval.upper && u - Value(code) <= Weight(|code|)
    requires !interval.HalfOpenContains(Value(code))
    ensures NoneShorter(interval, |code| + 1)
  {
    forall b | IsBits(b) && |b| == |code|
      ensures !interval.HalfOpenContains(Value(b))
    {
      ValueBelowOne(b);
      GridGap(code, b);
    }
  }

  /** A miss at n bits with the sum within 2^-n of the clipped upper bound
      means 2^-n is still wider than the interval. */
  lemma AtMostStepsStep(interval: Span, sum: real, u: real, n: nat)
    requires AtMostSteps(n, u - interval.lower)
    requires sum < interval.upper && u - sum <= Weight(n)
    requires !interval.HalfOpenContains(sum)
    ensures AtMostSteps(n + 1, u - interval.lower)
  {
  }

  /** Builds the code greedily: at exponent -1, -2, ... it sets the bit when
      adding 2^exponent keeps the sum strictly below the upper bound, and it
      stops as soon as the sum lies in the half-open interval. The loop ends
      exactly when lower < upper, 0 < upper and lower < 1. The code is the
      shortest one in the interval, and no longer than the first k with
      2^-k at most the width of the interval clipped to [0, 1). */
  method Encode(interval: Span) returns (code: string)
    requires interval.lower < interval.upper
    requires 0.0 < interval.upper && interval.lower < 1.0
    ensures IsBits(code)
    ensures interval.HalfOpenContains(Value(code))
    ensures NoneShorter(interval, |code|)
    ensures forall j | 0 <= j < |code| :: !interval.HalfOpenContains(Value(code[..j]))
    ensures Greedy(code, interval.upper)
    ensures AtMostSteps(|code|, Min(interval.upper, 1.0) - interval.lower)
    ensures interval.lower <= 0.0 ==> code == ""
  {
    var sum := 0.0;
    var exponent := -1;
    code := "";
    ghost var u := Min(interval.upper, 1.0);
    ghost var bound := StepsToFit(u - interval.lower);
    while !interval.HalfOpenContains(sum)
      invariant exponent == -(|code| + 1)
      invariant IsBits(code) && sum == Value(code)
      invariant 0.0 < u - sum <= Weight(|code|)
      invariant interval.upper > 1.0 ==> sum == 1.0 - Weight(|code|)
      invariant AtMostSteps(|code|, u - interval.lower)
      invariant NoneShorter(interval, |code|)
      invariant Greedy(code, interval.upper)
      decreases bound - |code|
    {
      NoneShorterStep(interval, code, u);
      AtMostStepsStep(interval, sum, u, |code|);
      var bit := if sum + Weight(-exponent) < interval.upper then '1' else '0';
      GreedyAppend(code, interval.upper, bit);
      ValueAppend(code, bit);
      if bit == '1' {
        sum := sum + Weight(-exponent);
      }
      code := code + [bit];
      exponent := exponent - 1;
    }
    assert IsBits("") && Value("") == 0.0;
    forall j | 0 <= j < |code|
      ensures IsBits(code[..j])
    {
    }
  }
}
