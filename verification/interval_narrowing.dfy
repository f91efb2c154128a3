/** Interval narrowing: starting from [0, 1), each input symbol maps the
    working interval onto that symbol's share of it. */
module IntervalNarrowing {
  import opened Types
  import opened Arith
  import opened FrequencyModel
  import opened IntervalPartition

  /** Every symbol of `s` has an entry in `t`. */
  predicate Covers(t: Table, s: string) {
    forall c | c in s :: c in t
  }

  /** One narrowing step: [lo, hi) becomes [lo + a * w, lo + b * w) where
      [a, b] is the symbol's sub-interval and w = hi - lo. */
  function Step(iv: Span, a: Assignment): Span {
    var w := iv.Width();
    Span(iv.lower + a.interval.lower * w, iv.lower + a.interval.upper * w)
  }

  /** The working interval after every symbol of `s` has been consumed. */
  function Final(s: string, t: Table): Span
    requires Covers(t, s)
  {
    if s == [] then Unit
    else
      assert forall c | c in s[..|s| - 1] :: c in s;
      Step(Final(s[..|s| - 1], t), t[s[|s| - 1]])
  }

  /** Product of the probabilities of the symbols of `s`, in order. */
  function Product(s: string, t: Table): real
    requires Covers(t, s)
  {
    if s == [] then 1.0
    else
      assert forall c | c in s[..|s| - 1] :: c in s;
      Product(s[..|s| - 1], t) * t[s[|s| - 1]].p
  }

  /** The table a narrowing run uses: the given one, unless it is absent or
      empty, in which case the partition of the string itself. */
  function TableFor(s: string, table: Option<Table>): (r: Result<Table>)
    ensures table.None? ==> r == PartitionOf(s)
    ensures r.Ok? ==> r.value != map[]
  {
    if table.None? || table.value == map[] then PartitionOf(s)
    else Ok(table.value)
  }

  /** A step onto a non-empty sub-interval of [0, 1] as wide as its
      probability lands inside the working interval, keeps it non-empty, and
      scales its width by that probability. */
  lemma StepNarrows(iv: Span, a: Assignment)
    requires iv.lower < iv.upper
    requires a.interval.InUnit() && a.interval.Width() == a.p
    ensures Step(iv, a).Within(iv)
    ensures Step(iv, a).lower < Step(iv, a).upper
    ensures Step(iv, a).Width() == iv.Width() * a.p
  {
    ScaleInto(a.interval.lower * iv.Width(), a.interval.upper * iv.Width(),
      iv.Width(), a.interval.lower, a.interval.upper);
  }

  /** Scaling 0 <= lo < hi <= 1 by a positive width w keeps the order and
      stays within [0, w]. */
  lemma ScaleInto(lw: real, hw: real, w: real, lo: real, hi: real)
    requires w > 0.0 && 0.0 <= lo < hi <= 1.0
    requires lw == lo * w && hw == hi * w
    ensures 0.0 <= lw < hw <= w
    ensures hw - lw == w * (hi - lo)
  {
    NonNegativeProduct(lo, w);
    ScaleBelow(hw, w, hi);
    ScaleGap(lw, hw, w, lo, hi);
  }

  lemma ScaleBelow(hw: real, w: real, hi: real)
    requires w > 0.0 && hi <= 1.0 && hw == hi * w
    ensures hw <= w
  {
    Distribute(1.0, hi, w);
    NonNegativeProduct(1.0 - hi, w);
  }

  lemma ScaleGap(lw: real, hw: real, w: real, lo: real, hi: real)
    requires w > 0.0 && lo < hi && lw == lo * w && hw == hi * w
    ensures lw < hw && hw - lw == w * (hi - lo)
  {
    Distribute(hi, lo, w);
    PositiveProduct(hi - lo, w);
  }

  /** Consuming the last symbol of `s` is one step from the interval of the
      rest, and multiplies the product by that symbol's probability. */
  lemma LastStep(s: string, t: Table)
    requires Covers(t, s) && s != []
    ensures Covers(t, s[..|s| - 1]) && s[|s| - 1] in t
    ensures Final(s, t) == Step(Final(s[..|s| - 1], t), t[s[|s| - 1]])
    ensures Product(s, t) == Product(s[..|s| - 1], t) * t[s[|s| - 1]].p
  {
    assert forall c | c in s[..|s| - 1] :: c in s;
  }

  /** Over a valid table, every working interval is a non-empty part of
      [0, 1] whose width is the product of the consumed symbols'
      probabilities. */
  lemma FinalInUnit(s: string, t: Table)
    requires Covers(t, s) && ValidTable(t)
    ensures Final(s, t).InUnit()
    ensures Final(s, t).Width() == Product(s, t)
  {
    FinalNonEmpty(s, t);
    FinalWidth(s, t);
  }

  lemma {:induction false} FinalNonEmpty(s: string, t: Table)
    requires Covers(t, s) && ValidTable(t)
    ensures Final(s, t).InUnit()
  {
    if s != [] {
      LastStep(s, t);
      var init := s[..|s| - 1];
      FinalNonEmpty(init, t);
      StepNarrows(Final(init, t), t[s[|s| - 1]]);
    }
  }

  lemma {:induction false} FinalWidth(s: string, t: Table)
    requires Covers(t, s) && ValidTable(t)
    ensures Final(s, t).Width() == Product(s, t)
  {
    if s == [] {
      assert Final(s, t) == Unit && Product(s, t) == 1.0;
    } else {
      LastStep(s, t);
      var init := s[..|s| - 1];
      FinalWidth(init, t);
      WidthStep(Final(s, t), Final(init, t), t[s[|s| - 1]], Product(init, t));
    }
  }

  /** A step scales the width by the symbol's probability. */
  lemma WidthStep(after: Span, before: Span, a: Assignment, w: real)
    requires after == Step(before, a) && before.Width() == w
    requires a.interval.Width() == a.p
    ensures after.Width() == w * a.p
  {
    Distribute(a.interval.upper, a.interval.lower, w);
  }

  /** A step onto any sub-interval [a, b] with 0 <= a <= b <= 1 lands
      inside the working interval and keeps its bounds in order. */
  lemma StepWithin(iv: Span, a: Assignment)
    requires iv.lower <= iv.upper
    requires 0.0 <= a.interval.lower <= a.interval.upper <= 1.0
    ensures Step(iv, a).Within(iv)
    ensures Step(iv, a).lower <= Step(iv, a).upper
  {
    var w, lo, hi := iv.Width(), a.interval.lower, a.interval.upper;
    if w > 0.0 {
      NonNegativeProduct(lo, w);
      Distribute(hi, lo, w);
      NonNegativeProduct(hi - lo, w);
      Distribute(1.0, hi, w);
      NonNegativeProduct(1.0 - hi, w);
    } else {
      assert w == 0.0;
      assert lo * w == 0.0 && hi * w == 0.0;
    }
  }

  /** Over a table whose entries lie in [0, 1], every working interval lies
      in [0, 1] with its bounds in order. */
  lemma {:induction false} FinalOrdered(s: string, t: Table)
    requires Covers(t, s) && BoundedTable(t)
    ensures Final(s, t).Within(Unit)
    ensures Final(s, t).lower <= Final(s, t).upper
  {
    if s != [] {
      LastStep(s, t);
      var init := s[..|s| - 1];
      FinalOrdered(init, t);
      StepWithin(Final(init, t), t[s[|s| - 1]]);
    }
  }

  /** Each working interval lies inside the one before it, for every table
      whose entries lie in [0, 1] (empty entries included). */
  lemma NarrowingNests(s: string, t: Table, k: nat)
    requires Covers(t, s) && BoundedTable(t)
    requires k < |s|
    ensures Covers(t, s[..k]) && Covers(t, s[..k + 1])
    ensures Final(s[..k + 1], t).Within(Final(s[..k], t))
  {
    assert forall c | c in s[..k + 1] :: c in s;
    assert s[..k + 1][..k] == s[..k];
    FinalOrdered(s[..k], t);
    StepWithin(Final(s[..k], t), t[s[k]]);
  }

  /** When every symbol owns the whole unit interval, the working interval
      stays [0, 1) however many symbols are consumed. */
  lemma {:induction false} SingleSymbolStaysUnit(s: string, t: Table)
    requires Covers(t, s)
    requires forall c | c in s :: t[c].interval == Unit
    ensures Final(s, t) == Unit
  {
    if s != [] {
      var init := s[..|s| - 1];
      assert forall c | c in init :: c in s;
      SingleSymbolStaysUnit(init, t);
    }
  }

  /** The working interval after each prefix of `s`, in input order. */
  function Narrowings(s: string, t: Table): (ivs: seq<Span>)
    requires Covers(t, s)
    ensures |ivs| == |s|
  {
    if s == [] then []
    else
      assert forall c | c in s[..|s| - 1] :: c in s;
      Narrowings(s[..|s| - 1], t) + [Final(s, t)]
  }

  /** The `k`-th yielded interval is the interval after the first k + 1
      symbols. Over a valid table each is a non-empty part of [0, 1] whose
      width is the product of the probabilities consumed so far; over any
      table whose entries lie in [0, 1] each lies inside the one before it. */
  lemma {:induction false} NarrowingsLaws(s: string, t: Table)
    requires Covers(t, s)
    ensures forall k | 0 <= k <= |s| :: Covers(t, s[..k])
    ensures forall k | 0 <= k < |s| :: Narrowings(s, t)[k] == Final(s[..k + 1], t)
    ensures ValidTable(t) ==> forall k | 0 <= k < |s| ::
      Narrowings(s, t)[k].InUnit() && Narrowings(s, t)[k].Width() == Product(s[..k + 1], t)
    ensures BoundedTable(t) ==> forall k | 0 < k < |s| ::
      Narrowings(s, t)[k].Within(Narrowings(s, t)[k - 1])
  {
    forall k | 0 <= k <= |s|
      ensures Covers(t, s[..k])
    {
      assert forall c | c in s[..k] :: c in s;
    }
    if s != [] {
      var init := s[..|s| - 1];
      NarrowingsLaws(init, t);
      forall k | 0 <= k < |s|
        ensures Narrowings(s, t)[k] == Final(s[..k + 1], t)
      {
        if k < |s| - 1 {
          assert init[..k + 1] == s[..k + 1];
        } else {
          assert s[..k + 1] == s;
        }
      }
    }
    if ValidTable(t) {
      forall k | 0 <= k < |s|
        ensures Narrowings(s, t)[k].InUnit() && Narrowings(s, t)[k].Width() == Product(s[..k + 1], t)
      {
        FinalInUnit(s[..k + 1], t);
      }
    }
    if BoundedTable(t) {
      forall k | 0 < k < |s|
        ensures Narrowings(s, t)[k].Within(Narrowings(s, t)[k - 1])
      {
        NarrowingNests(s, t, k);
      }
    }
  }

  /** The bounds of one narrowing step, computed as the loop body does:
      the lower bound and width of the working interval are saved, then both
      bounds are moved onto the symbol's share of it. */
  method NarrowStep(lo: real, hi: real, a: Assignment) returns (newLo: real, newHi: real)
    ensures Span(newLo, newHi) == Step(Span(lo, hi), a)
  {
    var intervalLength := hi - lo;
    var lower := lo;
    newLo := lower + a.interval.lower * intervalLength;
    newHi := lower + a.interval.upper * intervalLength;
  }

  /** Reading one more symbol of `s` takes one step from the interval of
      the prefix read so far and yields the new interval. */
  lemma ExtendPrefix(t: Table, s: string, i: nat)
    requires i < |s| && Covers(t, s[..i]) && s[i] in t
    ensures Covers(t, s[..i + 1])
    ensures Final(s[..i + 1], t) == Step(Final(s[..i], t), t[s[i]])
    ensures Narrowings(s[..i + 1], t) == Narrowings(s[..i], t) + [Final(s[..i + 1], t)]
  {
    assert s[..i + 1] == s[..i] + [s[i]];
    assert s[..i + 1][..i] == s[..i];
    LastStep(s[..i + 1], t);
  }

  /** A symbol without an entry, after a prefix whose symbols all have
      one, is the first missing symbol of the string. */
  lemma FirstMissing(t: Table, s: string, i: nat)
    requires i < |s| && Covers(t, s[..i]) && s[i] !in t
    ensures !Covers(t, s)
    ensures exists j | 0 <= j < |s| :: s[j] !in t && Covers(t, s[..j]) && s[j] == s[i]
  {
    assert s[i] in s;
  }

  /** The narrowing loop: starting from [0, 1), maps the working interval
      onto each symbol's sub-interval in turn and records the result. A symbol
      without an entry aborts the run. */
  method NarrowAll(s: string, t: Table) returns (r: Result<seq<Span>>)
    ensures Covers(t, s) ==> r == Ok(Narrowings(s, t))
    ensures !Covers(t, s) ==>
      exists i | 0 <= i < |s| :: s[i] !in t && Covers(t, s[..i]) && r == Err(UnknownSymbol(s[i]))
  {
    var lo, hi := 0.0, 1.0;
    var out: seq<Span> := [];
    for i := 0 to |s|
      invariant Covers(t, s[..i])
      invariant Span(lo, hi) == Final(s[..i], t)
      invariant out == Narrowings(s[..i], t)
    {
      var c := s[i];
      if c !in t {
        FirstMissing(t, s, i);
        return Err(UnknownSymbol(c));
      }
      ExtendPrefix(t, s, i);
      lo, hi := NarrowStep(lo, hi, t[c]);
      out := out + [Span(lo, hi)];
    }
    assert s[..|s|] == s;
    return Ok(out);
  }

  /** Yields the working interval after each input symbol, building the
      string's own partition first when no (or an empty) table is given. */
  method CalculateIntervals(s: string, table: Option<Table>) returns (r: Result<seq<Span>>)
    ensures TableFor(s, table).Err? ==> r == Err(TableFor(s, table).error)
    ensures TableFor(s, table).Ok? && Covers(TableFor(s, table).value, s) ==>
      r == Ok(Narrowings(s, TableFor(s, table).value))
    ensures TableFor(s, table).Ok? && !Covers(TableFor(s, table).value, s) ==>
      exists i | 0 <= i < |s| ::
        && s[i] !in TableFor(s, table).value
        && Covers(TableFor(s, table).value, s[..i])
        && r == Err(UnknownSymbol(s[i]))
    ensures table.None? ==> (r.Ok? <==> s != [])
  {
    var t: Table;
    if table.None? || table.value == map[] {
      var built := GetCharIntervals(s);
      if built.Err? {
        return Err(built.error);
      }
      t := built.value;
    } else {
      t := table.value;
    }
    if table.None? && s != [] {
      PartitionLayout(s);
    }
    r := NarrowAll(s, t);
  }

  /** The interval the whole string narrows to: the last yielded interval.
      An empty string yields none, which is an error. */
  method CalculateInterval(s: string, table: Option<Table>) returns (r: Result<Span>)
    ensures TableFor(s, table).Err? ==> r == Err(TableFor(s, table).error)
    ensures TableFor(s, table).Ok? && Covers(TableFor(s, table).value, s) ==>
      r == if s == [] then Err(NoInterval) else Ok(Final(s, TableFor(s, table).value))
    ensures TableFor(s, table).Ok? && !Covers(TableFor(s, table).value, s) ==>
      exists i | 0 <= i < |s| ::
        && s[i] !in TableFor(s, table).value
        && Covers(TableFor(s, table).value, s[..i])
        && r == Err(UnknownSymbol(s[i]))
    ensures table.None? ==> (r.Ok? <==> s != [])
  {
    var chosen := table;
    if table.None? || table.value == map[] {
      var built := GetCharIntervals(s);
      if built.Err? {
        return Err(built.error);
      }
      chosen := Some(built.value);
    }
    assert TableFor(s, chosen) == TableFor(s, table);
    var all := CalculateIntervals(s, chosen);
    if all.Err? {
      return Err(all.error);
    }
    if all.value == [] {
      // the loop variable holding the last interval was never bound
      return Err(NoInterval);
    }
    r := Ok(all.value[|all.value| - 1]);
  }

  /** A non-empty string narrowed over its own partition: every symbol has an
      entry, and the final interval is a non-empty part of [0, 1] as wide as
      the product of the probabilities of the symbols read. */
  lemma OwnPartitionNarrows(s: string)
    requires s != []
    ensures PartitionOf(s).Ok? && Covers(PartitionOf(s).value, s)
    ensures Final(s, PartitionOf(s).value).InUnit()
    ensures Final(s, PartitionOf(s).value).Width() == Product(s, PartitionOf(s).value)
  {
    PartitionLayout(s);
    FinalInUnit(s, PartitionOf(s).value);
  }
}
