/**
 * The tables the routines of the parser produce, the errors they raise and
 * the three ways a routine can end.
 */
module Results {

  /** One cell of a result row: a string or (for the status tally) a count. */
  datatype Cell = Text(s: string) | Number(n: int)

  /** A result row is a tuple of cells; a table is a header row followed by data rows. */
  type Row = seq<Cell>
  type Table = seq<Row>

  /** The exceptions the modelled code raises. */
  datatype Error =
    | MarkerNotFound               // `raise Exception('Not found')` in the sidebar scan
    | UnboundLocal(name: string)   // a local read before any assignment bound it
    | KeyError(key: string)        // a missing key in the expectation table

  /**
   * How a routine ends: it returns `None` (its seed page could not be
   * fetched), it raises an exception, or it returns its rows.
   */
  datatype Run<+T> = NoResult | Raised(error: Error) | Produced(value: T)

  /** Every row of the table has the arity of its header row. */
  predicate Rectangular(t: Table)
  {
    |t| > 0 && forall i :: 0 <= i < |t| ==> |t[i]| == |t[0]|
  }
}
