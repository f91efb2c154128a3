/** Interval partition: gives every distinct symbol a sub-interval of [0, 1]
    whose width is its probability, laid out in ascending symbol order. */
module IntervalPartition {
  import opened Types
  import opened FrequencyModel

  /** The entry of the `i`-th symbol: its probability and the interval between
      the cumulative bounds before and after it. */
  function Entry(ps: seq<(char, real)>, i: nat): (a: Assignment)
    requires i < |ps|
    ensures a.interval.Width() == a.p == ps[i].1
    ensures a.interval.lower == Cumulative(ps, i)
  {
    Assignment(ps[i].1, Span(Cumulative(ps, i), Cumulative(ps, i + 1)))
  }

  /** The dictionary after the first `k` entries of `ps` were stored. */
  function Assign(ps: seq<(char, real)>, k: nat): Table
    requires k <= |ps|
  {
    if k == 0 then map[] else Assign(ps, k - 1)[ps[k - 1].0 := Entry(ps, k - 1)]
  }

  /** That dictionary holds exactly the first `k` symbols. */
  lemma {:induction false} AssignKeys(ps: seq<(char, real)>, k: nat)
    requires k <= |ps|
    ensures forall c :: c in Assign(ps, k) <==> c in Symbols(ps)[..k]
  {
    if k > 0 {
      AssignKeys(ps, k - 1);
      assert Symbols(ps)[..k] == Symbols(ps)[..k - 1] + [ps[k - 1].0];
    }
  }

  /** The partition of a string: an error for the empty string, otherwise
      the dictionary built from its probability list. */
  function PartitionOf(s: string): (r: Result<Table>)
    ensures r.Err? <==> s == []
    ensures r.Err? ==> r.error == EmptyInput
    ensures r.Ok? ==> forall c :: c in r.value <==> c in s
  {
    var ps := CharProbabilities(s);
    assert Symbols(ps) == Symbols(Occurrences(s));
    assert |ps| == |Occurrences(s)|;
    assert Symbols(ps)[..|ps|] == Symbols(ps);
    AssignKeys(ps, |ps|);
    if ps == [] then Err(EmptyInput) else Ok(Assign(ps, |ps|))
  }

  /** Builds the partition of a string from its probability list; the
      empty list has no first entry to start the running bound from. */
  method GetCharIntervals(s: string) returns (r: Result<Table>)
    ensures r == PartitionOf(s)
    ensures r.Err? <==> s == []
  {
    var charProbs := CharProbabilities(s);
    if |charProbs| == 0 {
      // indexing the first entry of an empty list fails
      return Err(EmptyInput);
    }
    var intervals := LayOut(charProbs);
    r := Ok(intervals);
  }

  /** Walks a non-empty probability list with a running cumulative bound,
      giving each symbol the interval from the bound before it to the bound
      after it. The first symbol's upper bound is its own probability; every
      later one is the running bound plus its probability. */
  method LayOut(charProbs: seq<(char, real)>) returns (intervals: Table)
    requires |charProbs| > 0
    ensures intervals == Assign(charProbs, |charProbs|)
  {
    intervals := map[];
    var lower, upper := 0.0, charProbs[0].1;
    for i := 0 to |charProbs|
      invariant intervals == Assign(charProbs, i)
      invariant lower == Cumulative(charProbs, i)
      invariant upper == if i == 0 then charProbs[0].1 else lower
    {
      var (c, prob) := charProbs[i];
      if i > 0 {
        upper := lower + prob;
      }
      AssignStep(charProbs, i, lower, upper);
      intervals := intervals[c := Assignment(prob, Span(lower, upper))];
      lower := upper;
    }
  }

  /** One step of the loop in LayOut stores the next entry. */
  lemma AssignStep(ps: seq<(char, real)>, i: nat, lower: real, upper: real)
    requires i < |ps|
    requires lower == Cumulative(ps, i)
    requires upper == if i == 0 then ps[0].1 else lower + ps[i].1
    ensures Assign(ps, i)[ps[i].0 := Assignment(ps[i].1, Span(lower, upper))] == Assign(ps, i + 1)
    ensures upper == Cumulative(ps, i + 1)
  {
  }

  /** Later entries never overwrite earlier ones, since the symbols are distinct. */
  lemma {:induction false} AssignAt(ps: seq<(char, real)>, k: nat, i: nat)
    requires StrictlySorted(Symbols(ps))
    requires i < k <= |ps|
    ensures ps[i].0 in Assign(ps, k) && Assign(ps, k)[ps[i].0] == Entry(ps, i)
  {
    if i < k - 1 {
      AssignAt(ps, k - 1, i);
      assert Symbols(ps)[i] < Symbols(ps)[k - 1];
    }
  }

  lemma {:induction false} CumulativeNonNegative(ps: seq<(char, real)>, i: nat)
    requires forall j | 0 <= j < |ps| :: ps[j].1 > 0.0
    requires i <= |ps|
    ensures 0.0 <= Cumulative(ps, i)
  {
    if i > 0 {
      CumulativeNonNegative(ps, i - 1);
    }
  }

  /** With every probability positive, the running bound climbs from 0 to
      the total. */
  lemma {:induction false} CumulativeClimbs(ps: seq<(char, real)>, i: nat)
    requires forall j | 0 <= j < |ps| :: ps[j].1 > 0.0
    requires i < |ps|
    ensures 0.0 <= Cumulative(ps, i) < Cumulative(ps, i + 1) <= Cumulative(ps, |ps|)
    decreases |ps| - i
  {
    CumulativeNonNegative(ps, i);
    if i + 1 < |ps| {
      CumulativeClimbs(ps, i + 1);
    }
  }

  /** Over distinct symbols with positive probabilities adding up to 1,
      every symbol keeps its own entry, a non-empty part of [0, 1]. */
  lemma AssignEntries(ps: seq<(char, real)>)
    requires StrictlySorted(Symbols(ps))
    requires forall j | 0 <= j < |ps| :: ps[j].1 > 0.0
    requires Cumulative(ps, |ps|) == 1.0
    ensures forall i | 0 <= i < |ps| ::
      ps[i].0 in Assign(ps, |ps|) && Assign(ps, |ps|)[ps[i].0] == Entry(ps, i)
      && Entry(ps, i).interval.InUnit()
  {
    forall i | 0 <= i < |ps|
      ensures ps[i].0 in Assign(ps, |ps|) && Assign(ps, |ps|)[ps[i].0] == Entry(ps, i)
      ensures Entry(ps, i).interval.InUnit()
    {
      AssignAt(ps, |ps|, i);
      CumulativeClimbs(ps, i);
    }
  }

  /** Laying out positive probabilities that add up to 1 over distinct
      symbols starts at 0, is contiguous, gives each symbol an interval as wide
      as its probability, ends at 1, and keeps every entry inside [0, 1]. */
  lemma AssignLayout(ps: seq<(char, real)>)
    requires StrictlySorted(Symbols(ps))
    requires forall j | 0 <= j < |ps| :: ps[j].1 > 0.0
    requires |ps| > 0 && Cumulative(ps, |ps|) == 1.0
    ensures
      var t := Assign(ps, |ps|);
      && (forall i | 0 <= i < |ps| :: ps[i].0 in t && t[ps[i].0] == Entry(ps, i))
      && t[ps[0].0].interval.lower == 0.0
      && (forall i | 0 < i < |ps| :: t[ps[i].0].interval.lower == t[ps[i - 1].0].interval.upper)
      && t[ps[|ps| - 1].0].interval.upper == 1.0
      && ValidTable(t)
  {
    var t := Assign(ps, |ps|);
    AssignEntries(ps);
    AssignKeys(ps, |ps|);
    forall i | 0 < i < |ps|
      ensures t[ps[i].0].interval.lower == t[ps[i - 1].0].interval.upper
    {
      var here, before := Entry(ps, i), Entry(ps, i - 1);
      assert t[ps[i].0] == here && t[ps[i - 1].0] == before;
      assert before.interval.upper == Cumulative(ps, i) == here.interval.lower;
    }
    assert t[ps[|ps| - 1].0] == Entry(ps, |ps| - 1);
    forall c | c in t
      ensures t[c].interval.InUnit() && t[c].interval.Width() == t[c].p
    {
      assert c in Symbols(ps)[..|ps|];
      var i :| 0 <= i < |ps| && Symbols(ps)[i] == c;
      assert t[c] == Entry(ps, i);
    }
  }

  /** The partition of a non-empty string: the `i`-th symbol in ascending
      order gets its probability and the interval between the sums of the
      probabilities before it and up to it; the first interval starts at 0,
      each later one starts where the previous one ends, the last ends at 1,
      and every entry is a non-empty part of [0, 1] as wide as its
      probability. */
  lemma PartitionLayout(s: string)
    requires s != []
    ensures
      var t, ps := PartitionOf(s).value, CharProbabilities(s);
      && |ps| > 0
      && (forall i | 0 <= i < |ps| ::
            ps[i].0 in t && t[ps[i].0] == Assignment(ps[i].1, Span(Cumulative(ps, i), Cumulative(ps, i + 1))))
      && t[ps[0].0].interval.lower == 0.0
      && (forall i | 0 < i < |ps| :: t[ps[i].0].interval.lower == t[ps[i - 1].0].interval.upper)
      && t[ps[|ps| - 1].0].interval.upper == 1.0
      && ValidTable(t)
  {
    var ps := CharProbabilities(s);
    assert Symbols(ps) == Symbols(Occurrences(s));
    ProbabilitiesSumToOne(s);
    AssignLayout(ps);
  }

  /** A string over a single symbol gets the whole unit interval for it. */
  lemma SingleSymbolPartition(s: string)
    requires s != []
    requires forall i | 0 <= i < |s| :: s[i] == s[0]
    ensures PartitionOf(s) == Ok(map[s[0] := Assignment(1.0, Unit)])
  {
    var ps := CharProbabilities(s);
    assert Symbols(ps) == Symbols(Occurrences(s));
    assert s[0] in Symbols(ps);
    SortedUnique([s[0]], Symbols(ps));
    ProbabilitiesSumToOne(s);
    assert |ps| == 1 && ps[0].0 == s[0];
    assert Entry(ps, 0) == Assignment(1.0, Unit);
    assert Assign(ps, 1) == Assign(ps, 0)[s[0] := Entry(ps, 0)];
  }
}
