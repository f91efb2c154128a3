/** Values shared by every stage of the arithmetic coder: intervals of exact
    rationals, the per-symbol assignment table, and the error outcomes. */
module Types {

  /** An interval of exact rationals, given by its two bounds. Whether the
      upper bound belongs to it is decided by the operation that reads it. */
  datatype Span = Span(lower: real, upper: real) {

    function Width(): real {
      upper - lower
    }

    /** Half-open membership: lower <= x < upper. */
    predicate HalfOpenContains(x: real) {
      lower <= x < upper
    }

    /** This interval lies inside `outer`. */
    predicate Within(outer: Span) {
      outer.lower <= lower && upper <= outer.upper
    }

    /** A non-empty part of the unit interval. */
    predicate InUnit() {
      0.0 <= lower < upper <= 1.0
    }
  }

  /** The unit interval [0, 1) every narrowing starts from. */
  const Unit: Span := Span(0.0, 1.0)

  /** What the partition records for one symbol: its probability `P` and its
      sub-interval of [0, 1]. */
  datatype Assignment = Assignment(p: real, interval: Span)

  /** The symbol-to-assignment dictionary. */
  type Table = map<char, Assignment>

  /** Every entry is a non-empty sub-interval of [0, 1] whose width is the
      symbol's probability. */
  predicate ValidTable(t: Table) {
    forall c | c in t ::
      t[c].interval.InUnit() && t[c].interval.Width() == t[c].p
  }

  /** Every entry lies in [0, 1] with its lower bound at most its upper
      bound; entries may be empty and `p` is not consulted. */
  predicate BoundedTable(t: Table) {
    forall c | c in t :: 0.0 <= t[c].interval.lower <= t[c].interval.upper <= 1.0
  }

  datatype Error =
    | EmptyInput               // the probability list of an empty string has no first entry
    | UnknownSymbol(symbol: char)  // a symbol has no entry in the table
    | NoInterval               // narrowing produced no interval to return

  datatype Result<T> = Ok(value: T) | Err(error: Error)

  datatype Option<T> = None | Some(value: T)
}
