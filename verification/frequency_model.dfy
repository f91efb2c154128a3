/** Frequency model: symbol counts and exact probabilities of one input string. */
module FrequencyModel {

  /** Number of occurrences of `c` in `s`. */
  function Count(s: string, c: char): (n: nat)
    ensures n <= |s|
    ensures n > 0 <==> c in s
  {
    if s == [] then 0
    else
      assert s == s[..|s| - 1] + [s[|s| - 1]];
      Count(s[..|s| - 1], c) + (if s[|s| - 1] == c then 1 else 0)
  }

  predicate StrictlySorted(cs: seq<char>) {
    forall i, j | 0 <= i < j < |cs| :: cs[i] < cs[j]
  }

  /** The symbol column of a list of (symbol, value) pairs. */
  function Symbols<V>(ps: seq<(char, V)>): (cs: seq<char>)
    ensures |cs| == |ps|
    ensures forall i | 0 <= i < |ps| :: cs[i] == ps[i].0
  {
    seq(|ps|, i requires 0 <= i < |ps| => ps[i].0)
  }

  /** Adds `c` to the ascending list `cs` unless it is already there. */
  function InsertSorted(cs: seq<char>, c: char): (r: seq<char>)
    requires StrictlySorted(cs)
    ensures StrictlySorted(r)
    ensures forall x :: x in r <==> x in cs || x == c
  {
    if cs == [] then [c]
    else if c == cs[0] then cs
    else if c < cs[0] then [c] + cs
    else
      var rest := InsertSorted(cs[1..], c);
      assert forall x | x in rest :: cs[0] < x;
      [cs[0]] + rest
  }

  /** The distinct symbols of `s`, in ascending order. */
  function SortedSymbols(s: string): (cs: seq<char>)
    ensures StrictlySorted(cs)
    ensures forall c :: c in cs <==> c in s
  {
    if s == [] then []
    else
      assert s == s[..|s| - 1] + [s[|s| - 1]];
      InsertSorted(SortedSymbols(s[..|s| - 1]), s[|s| - 1])
  }

  /** Pairs each symbol of `cs` with its number of occurrences in `s`. */
  function Tally(s: string, cs: seq<char>): (occ: seq<(char, nat)>)
    ensures Symbols(occ) == cs
    ensures forall i | 0 <= i < |occ| :: occ[i].1 == Count(s, cs[i])
  {
    seq(|cs|, i requires 0 <= i < |cs| => (cs[i], Count(s, cs[i])))
  }

  /** The occurrence list of `s`: one (symbol, count) pair per distinct symbol,
      in ascending symbol order. */
  function Occurrences(s: string): (occ: seq<(char, nat)>)
    ensures StrictlySorted(Symbols(occ))
    ensures forall c :: c in Symbols(occ) <==> c in s
    ensures forall i | 0 <= i < |occ| :: occ[i].1 == Count(s, occ[i].0) && occ[i].1 > 0
    ensures occ == [] <==> s == []
  {
    var cs := SortedSymbols(s);
    assert s != [] ==> s[0] in cs;
    Tally(s, cs)
  }

  /** Sum of the first `k` counts. */
  function Total(occ: seq<(char, nat)>, k: nat): nat
    requires k <= |occ|
  {
    if k == 0 then 0 else Total(occ, k - 1) + occ[k - 1].1
  }

  /** Sum of the first `k` probabilities. */
  function Cumulative(ps: seq<(char, real)>, k: nat): real
    requires k <= |ps|
  {
    if k == 0 then 0.0 else Cumulative(ps, k - 1) + ps[k - 1].1
  }

  /** Counts every character of `s` into a dictionary, then lists the
      dictionary's entries sorted by symbol. */
  method CharOccurrences(s: string) returns (occ: seq<(char, nat)>)
    ensures StrictlySorted(Symbols(occ))
    ensures forall c :: c in Symbols(occ) <==> c in s
    ensures forall i | 0 <= i < |occ| :: occ[i].1 == Count(s, occ[i].0)
    ensures occ == Occurrences(s)
  {
    var probs: map<char, nat> := map[];
    for i := 0 to |s|
      invariant forall c :: c in probs <==> c in s[..i]
      invariant forall c | c in probs :: probs[c] == Count(s[..i], c)
    {
      assert s[..i + 1] == s[..i] + [s[i]];
      assert s[..i + 1][..i] == s[..i];
      var c := s[i];
      if c !in probs {
        probs := probs[c := 1];
      } else {
        probs := probs[c := probs[c] + 1];
      }
    }
    assert s[..|s|] == s;
    // sorted(...) over the dictionary's entries
    var keys := probs.Keys;
    var cs: seq<char> := [];
    while keys != {}
      invariant keys <= probs.Keys
      invariant StrictlySorted(cs)
      invariant forall c :: c in cs <==> c in probs && c !in keys
      decreases keys
    {
      var c :| c in keys;
      cs := InsertSorted(cs, c);
      keys := keys - {c};
    }
    occ := seq(|cs|, i requires 0 <= i < |cs| => (cs[i], probs[cs[i]]));
    assert Symbols(occ) == cs;
    SortedUnique(cs, SortedSymbols(s));
  }

  /** Two ascending lists without repeats that hold the same symbols are equal. */
  lemma {:induction false} SortedUnique(a: seq<char>, b: seq<char>)
    requires StrictlySorted(a) && StrictlySorted(b)
    requires forall c :: c in a <==> c in b
    ensures a == b
  {
    if a != [] {
      assert a[0] in a;
    }
    if b != [] {
      assert b[0] in b;
    }
    if a != [] && b != [] {
      assert a[0] == b[0];
      forall c
        ensures c in a[1..] <==> c in b[1..]
      {
        if c in a[1..] {
          assert c in b && c != b[0];
        }
        if c in b[1..] {
          assert c in a && c != a[0];
        }
      }
      SortedUnique(a[1..], b[1..]);
      assert a == [a[0]] + a[1..];
      assert b == [b[0]] + b[1..];
    }
  }

  /** The exact fraction count / n. */
  function Fraction(count: nat, n: nat): (p: real)
    requires n > 0
    ensures p * n as real == count as real
    ensures count > 0 ==> p > 0.0
    ensures count <= n ==> p <= 1.0
  {
    count as real / n as real
  }

  /** Probability list of `s`: each symbol's count as the exact fraction
      count / |s|, in the order of the occurrence list. */
  function CharProbabilities(s: string): (ps: seq<(char, real)>)
    ensures Symbols(ps) == Symbols(Occurrences(s))
    ensures forall i | 0 <= i < |ps| :: s != [] && ps[i].1 == Fraction(Occurrences(s)[i].1, |s|)
    ensures forall i | 0 <= i < |ps| :: 0.0 < ps[i].1 <= 1.0
  {
    var occ := Occurrences(s);
    if s == [] then []
    else seq(|occ|, i requires 0 <= i < |occ| => (occ[i].0, Fraction(occ[i].1, |s|)))
  }

  /** In a list without repeats, a symbol occurs once or not at all. */
  lemma {:induction false} CountAtMostOnce(cs: seq<char>, x: char)
    requires StrictlySorted(cs)
    ensures Count(cs, x) == if x in cs then 1 else 0
  {
    if cs != [] {
      var init := cs[..|cs| - 1];
      CountAtMostOnce(init, x);
      assert cs == init + [cs[|cs| - 1]];
      if cs[|cs| - 1] == x {
        assert x !in init;
      }
    }
  }

  /** Appending `x` to the input raises the tally of the first `k` listed
      symbols by the number of times `x` occurs among them. */
  lemma {:induction false} TallyAppend(s: string, x: char, cs: seq<char>, k: nat)
    requires k <= |cs|
    ensures Total(Tally(s + [x], cs), k) == Total(Tally(s, cs), k) + Count(cs[..k], x)
  {
    if k > 0 {
      TallyAppend(s, x, cs, k - 1);
      assert (s + [x])[..|s + [x]| - 1] == s;
      assert cs[..k][..k - 1] == cs[..k - 1];
    }
  }

  lemma {:induction false} TallyOfEmpty(cs: seq<char>, k: nat)
    requires k <= |cs|
    ensures Total(Tally([], cs), k) == 0
  {
    if k > 0 {
      TallyOfEmpty(cs, k - 1);
    }
  }

  /** Tallying `s` against a repeat-free list that holds all its symbols
      accounts for every character exactly once. */
  lemma {:induction false} TallyTotal(s: string, cs: seq<char>)
    requires StrictlySorted(cs)
    requires forall c | c in s :: c in cs
    ensures Total(Tally(s, cs), |cs|) == |s|
  {
    if s == [] {
      TallyOfEmpty(cs, |cs|);
    } else {
      var init, x := s[..|s| - 1], s[|s| - 1];
      assert s == init + [x];
      TallyTotal(init, cs);
      assert cs[..|cs|] == cs;
      TallyAppend(init, x, cs, |cs|);
      CountAtMostOnce(cs, x);
    }
  }

  /** The counts of the occurrence list add up to the length of the input. */
  lemma OccurrencesTotal(s: string)
    ensures Total(Occurrences(s), |Occurrences(s)|) == |s|
  {
    TallyTotal(s, SortedSymbols(s));
  }

  lemma FractionSum(a: nat, b: nat, n: nat)
    requires n > 0
    ensures Fraction(a, n) + Fraction(b, n) == Fraction(a + b, n)
  {
    assert (a + b) as real == a as real + b as real;
    DivideSum(a as real, b as real, n as real);
  }

  lemma DivideSum(x: real, y: real, d: real)
    requires d > 0.0
    ensures x / d + y / d == (x + y) / d
  {
  }

  lemma FractionWhole(n: nat)
    requires n > 0
    ensures Fraction(n, n) == 1.0
  {
  }

  /** Prefix sums of fractions over a common denominator are the fraction
      of the prefix sum. */
  lemma {:induction false} CumulativeOfFractions(ps: seq<(char, real)>, occ: seq<(char, nat)>, n: nat, k: nat)
    requires n > 0 && |ps| == |occ| && k <= |ps|
    requires forall i | 0 <= i < |ps| :: ps[i].1 == Fraction(occ[i].1, n)
    ensures Cumulative(ps, k) == Fraction(Total(occ, k), n)
  {
    if k > 0 {
      CumulativeOfFractions(ps, occ, n, k - 1);
      FractionSum(Total(occ, k - 1), occ[k - 1].1, n);
    }
  }

  /** The first `k` probabilities add up to the first `k` counts over |s|. */
  lemma CumulativeOfProbabilities(s: string, k: nat)
    requires s != [] && k <= |Occurrences(s)|
    ensures Cumulative(CharProbabilities(s), k) == Fraction(Total(Occurrences(s), k), |s|)
  {
    var ps, occ := CharProbabilities(s), Occurrences(s);
    assert |ps| == |Symbols(ps)| == |occ|;
    CumulativeOfFractions(ps, occ, |s|, k);
  }

  /** For a non-empty input the probabilities add up to exactly 1. */
  lemma ProbabilitiesSumToOne(s: string)
    requires s != []
    ensures Cumulative(CharProbabilities(s), |CharProbabilities(s)|) == 1.0
  {
    var ps := CharProbabilities(s);
    assert |ps| == |Symbols(ps)| == |Occurrences(s)|;
    CumulativeOfProbabilities(s, |ps|);
    OccurrencesTotal(s);
    FractionWhole(|s|);
  }
}
