/** Worked examples of the coder on small inputs. */
module Scenarios {
  import opened Types
  import opened FrequencyModel
  import opened IntervalPartition
  import opened IntervalNarrowing
  import opened BinaryEncoder

  /** "aab" has two a's and one b. */
  lemma OccurrencesOfAab()
    ensures Occurrences("aab") == [('a', 2), ('b', 1)]
  {
    SymbolsOfAab();
    CountsOfAab();
    var occ := Tally("aab", "ab");
    assert occ[0] == ('a', 2) && occ[1] == ('b', 1);
  }

  lemma SymbolsOfAab()
    ensures SortedSymbols("aab") == "ab"
  {
    assert "aab"[..2] == "aa" && "aa"[..1] == "a" && "a"[..0] == "";
    SortedUnique("ab", SortedSymbols("aab"));
  }

  lemma CountsOfAab()
    ensures Count("aab", 'a') == 2 && Count("aab", 'b') == 1
  {
    assert "aab"[..2] == "aa" && "aa"[..1] == "a" && "a"[..0] == "";
    assert Count("a", 'a') == 1 && Count("aa", 'a') == 2;
    assert Count("aa", 'b') == 0;
  }

  /** The partition of "ab": 'a' gets the lower half of [0, 1], 'b' the upper. */
  const LowerHalf: Assignment := Assignment(0.5, Span(0.0, 0.5))
  const UpperHalf: Assignment := Assignment(0.5, Span(0.5, 1.0))
  const Halves: Table := map['a' := LowerHalf, 'b' := UpperHalf]

  lemma PartitionOfAb()
    ensures PartitionOf("ab") == Ok(Halves)
  {
    var ps := ProbabilitiesOfAb();
    assert Entry(ps, 0) == LowerHalf && Entry(ps, 1) == UpperHalf;
    assert Assign(ps, 2) == Assign(ps, 1)['b' := UpperHalf];
    assert Assign(ps, 1) == map['a' := LowerHalf];
  }

  /** "ab" gives each of its two symbols probability 1/2. */
  lemma ProbabilitiesOfAb() returns (ps: seq<(char, real)>)
    ensures ps == CharProbabilities("ab") == [('a', 0.5), ('b', 0.5)]
  {
    assert "ab"[..1] == "a" && "a"[..0] == "";
    SortedUnique("ab", SortedSymbols("ab"));
    assert Count("ab", 'a') == 1 && Count("ab", 'b') == 1;
    ps := CharProbabilities("ab");
    assert ps[0] == ('a', 0.5) && ps[1] == ('b', 0.5);
  }

  /** Reading "a" over the halves narrows [0, 1) to [0, 1/2). */
  lemma NarrowA()
    ensures Covers(Halves, "a") && Final("a", Halves) == Span(0.0, 0.5)
  {
    assert Covers(Halves, "a") && Halves['a'] == LowerHalf;
    LastStep("a", Halves);
    assert "a"[..0] == "";
    assert Step(Unit, LowerHalf) == Span(0.0, 0.5);
  }

  /** Reading "ab" over the halves narrows [0, 1) to [1/4, 1/2). */
  lemma NarrowAb()
    ensures Covers(Halves, "ab") && Final("ab", Halves) == Span(0.25, 0.5)
  {
    NarrowA();
    assert Covers(Halves, "ab") && Halves['b'] == UpperHalf;
    LastStep("ab", Halves);
    assert "ab"[..1] == "a";
    assert Step(Span(0.0, 0.5), UpperHalf) == Span(0.25, 0.5);
  }

  /** The code "01" is worth 1/4, the lower end of that interval. */
  lemma CodeOfAb()
    ensures IsBits("01") && Value("01") == 0.25
    ensures Span(0.25, 0.5).HalfOpenContains(Value("01"))
    ensures Greedy("01", 0.5)
  {
    assert "01"[..1] == "0" && "0"[..0] == "";
    assert Weight(1) == 0.5 && Weight(2) == 0.25;
  }

  /** Narrowing "ab" with no table given and encoding the result yields the
      code "01". */
  method EncodeAb() returns (code: string)
    ensures code == "01"
  {
    var r := CalculateInterval("ab", None);
    PartitionOfAb();
    NarrowAb();
    assert r == Ok(Span(0.25, 0.5));
    code := Encode(r.value);
    OnlyCodeOfAb(code);
  }

  /** The greedy rule and the shortest-length law leave "01" as the only
      code for [1/4, 1/2). */
  lemma OnlyCodeOfAb(code: string)
    requires IsBits(code) && Span(0.25, 0.5).HalfOpenContains(Value(code))
    requires NoneShorter(Span(0.25, 0.5), |code|)
    requires Greedy(code, 0.5)
    ensures code == "01"
  {
    CodeOfAb();
    assert |code| <= 2;
    assert Value("") == 0.0 && Weight(1) == 0.5 && Weight(2) == 0.25;
    assert code != [];
    assert code[..0] == "" && code[0] == '0';
    assert Value(code[..1]) == 0.0 by {
      assert code[..1] == "0" && "0"[..0] == "";
    }
    assert |code| == 2 && code[1] == '1';
  }

  /** The three error outcomes of narrowing: the empty string without a
      table, the empty string with a table, and a symbol missing from the
      table, reported at its first occurrence. */
  method ErrorsOfNarrowing() returns (noTable: Result<Span>, noSymbols: Result<Span>, unknown: Result<Span>)
    ensures noTable == Err(EmptyInput)
    ensures noSymbols == Err(NoInterval)
    ensures unknown == Err(UnknownSymbol('c'))
  {
    noTable := CalculateInterval("", None);
    assert 'a' in Halves && 'c' !in Halves;
    noSymbols := CalculateInterval("", Some(Halves));
    unknown := CalculateInterval("acc", Some(Halves));
    assert "acc"[..1] == "a";
  }

  /** A caller's table may hold an empty entry and a `P` that differs from
      the width: it is not a valid table, yet its entries lie in [0, 1], so
      narrowing over it still nests. */
  const Skewed: Table := map['a' := Assignment(0.3, Span(0.0, 0.5)), 'b' := Assignment(0.0, Span(0.5, 0.5))]

  lemma SkewedStillNests(s: string, k: nat)
    requires forall c | c in s :: c == 'a' || c == 'b'
    requires k < |s|
    ensures !ValidTable(Skewed) && BoundedTable(Skewed)
    ensures Covers(Skewed, s[..k]) && Covers(Skewed, s[..k + 1])
    ensures Final(s[..k + 1], Skewed).Within(Final(s[..k], Skewed))
  {
    assert Skewed['b'].interval.lower == Skewed['b'].interval.upper;
    NarrowingNests(s, Skewed, k);
  }
}
