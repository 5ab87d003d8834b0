/**
 * The `pep` routine: tally the status each PEP page declares, compare it
 * with the statuses the index's short code allows, and report the tally
 * as a table with a total.
 */
module Pep {
  import opened Wrappers
  import opened Results
  import OrderedDict

  /**
   * A row of the numerical index: the text of its first cell, the
   * resolved link of its anchor, and the status read from the PEP's own
   * page (None when fetching that page failed).
   */
  datatype IndexRow = IndexRow(firstCell: string, link: string, status: Option<string>)

  /** The expectation table: short code to the full statuses it allows. */
  type Expectations = map<string, set<string>>

  /** A logged discrepancy: the PEP's link, the status it declares, the accepted ones. */
  datatype Mismatch = Mismatch(link: string, observed: string, accepted: set<string>)

  const Header: Row := [Text("Статус"), Text("Количество")]

  /** Line 98: `text[1:]`, the cell text without its marker character. */
  function ShortCode(cell: string): (code: string)
    ensures |cell| > 0 ==> [cell[0]] + code == cell
    ensures |cell| == 0 ==> code == ""
  {
    if |cell| == 0 then "" else cell[1..]
  }

  // ---------------------------------------------------------------------
  // The specification of the tally
  // ---------------------------------------------------------------------

  /** The statuses of the rows whose page was fetched, in row order. */
  function Observed(rows: seq<IndexRow>): seq<string>
  {
    if rows == [] then []
    else
      var last := rows[|rows| - 1];
      Observed(rows[..|rows| - 1]) + (match last.status case Some(s) => [s] case None => [])
  }

  /** How many times `s` occurs in `obs`. */
  function Occurrences(obs: seq<string>, s: string): nat
  {
    if obs == [] then 0
    else Occurrences(obs[..|obs| - 1], s) + (if obs[|obs| - 1] == s then 1 else 0)
  }

  /** The distinct statuses of `obs`, in the order they were first seen. */
  function FirstSeen(obs: seq<string>): seq<string>
  {
    if obs == [] then []
    else
      var last := obs[|obs| - 1];
      var before := obs[..|obs| - 1];
      FirstSeen(before) + (if last in before then [] else [last])
  }

  /** Where `s` first occurs in `obs`. */
  function IndexOf(obs: seq<string>, s: string): (i: nat)
    requires s in obs
    ensures i < |obs| && obs[i] == s && s !in obs[..i]
  {
    if obs[0] == s then 0 else 1 + IndexOf(obs[1..], s)
  }

  function Sum(xs: seq<int>): int
  {
    if xs == [] then 0 else Sum(xs[..|xs| - 1]) + xs[|xs| - 1]
  }

  /** The count of each of `keys` in `obs`. */
  function Counts(keys: seq<string>, obs: seq<string>): (cs: seq<int>)
    ensures |cs| == |keys|
  {
    seq(|keys|, i requires 0 <= i < |keys| => Occurrences(obs, keys[i]) as int)
  }

  /** A tally row per distinct status: the status and its count. */
  function Entries(keys: seq<string>, obs: seq<string>): (t: Table)
    ensures |t| == |keys|
  {
    seq(|keys|, i requires 0 <= i < |keys| => [Text(keys[i]), Number(Occurrences(obs, keys[i]))])
  }

  /**
   * Lines 119-122: the header, the tally in first-seen order, and the
   * total, which is the number of pages fetched.
   */
  function TallyTable(obs: seq<string>): Table
  {
    [Header] + Entries(FirstSeen(obs), obs) + [[Text("Total"), Number(|obs|)]]
  }

  /** The row was fetched and its short code is missing from the expectation table. */
  predicate UnknownCode(row: IndexRow, expected: Expectations)
  {
    row.status.Some? && ShortCode(row.firstCell) !in expected
  }

  /** No fetched row has a short code the expectation table lacks. */
  ghost predicate Known(rows: seq<IndexRow>, expected: Expectations)
  {
    forall i :: 0 <= i < |rows| ==> !UnknownCode(rows[i], expected)
  }

  /** The index of the first row whose lookup at line 112 raises, or |rows| if none does. */
  function FirstUnknown(rows: seq<IndexRow>, expected: Expectations): (k: nat)
    ensures k <= |rows|
    ensures Known(rows[..k], expected)
    ensures k < |rows| ==> UnknownCode(rows[k], expected)
  {
    if rows == [] then 0
    else if UnknownCode(rows[0], expected) then 0
    else
      var k := 1 + FirstUnknown(rows[1..], expected);
      assert forall i :: 1 <= i < k ==> rows[..k][i] == rows[1..][..k - 1][i - 1];
      k
  }

  /** The row was fetched, its code is known, and its status is not among those accepted. */
  predicate Disagrees(row: IndexRow, expected: Expectations)
  {
    && row.status.Some?
    && ShortCode(row.firstCell) in expected
    && row.status.value !in expected[ShortCode(row.firstCell)]
  }

  /** Lines 113-118: the record logged for a disagreeing row. */
  function RecordFor(row: IndexRow, expected: Expectations): Mismatch
    requires Disagrees(row, expected)
  {
    Mismatch(row.link, row.status.value, expected[ShortCode(row.firstCell)])
  }

  /** The records logged for the rows, in row order. */
  function Mismatches(rows: seq<IndexRow>, expected: Expectations): seq<Mismatch>
  {
    if rows == [] then []
    else
      var last := rows[|rows| - 1];
      Mismatches(rows[..|rows| - 1], expected)
        + (if Disagrees(last, expected) then [RecordFor(last, expected)] else [])
  }

  /** What `pep` returns: None without an index, a KeyError at the first unknown code, else the tally. */
  function PepResult(index: Option<seq<IndexRow>>, expected: Expectations): Run<Table>
  {
    match index
    case None => NoResult
    case Some(rows) =>
      var k := FirstUnknown(rows, expected);
      if k < |rows| then Raised(KeyError(ShortCode(rows[k].firstCell)))
      else Produced(TallyTable(Observed(rows)))
  }

  /** The discrepancies `pep` logs before it returns or raises. */
  function PepLog(index: Option<seq<IndexRow>>, expected: Expectations): seq<Mismatch>
  {
    match index
    case None => []
    case Some(rows) => Mismatches(rows[..FirstUnknown(rows, expected)], expected)
  }

  // ---------------------------------------------------------------------
  // The routine
  // ---------------------------------------------------------------------

  /** The dictionary holds, in first-seen order, the count of every status of `obs`. */
  ghost predicate Tallies(d: OrderedDict.Dict<int>, obs: seq<string>)
  {
    && d.Valid()
    && d.keys == FirstSeen(obs)
    && forall s :: s in d.vals ==> d.vals[s] == Occurrences(obs, s)
  }

  /** Lines 119-122 turn the dictionary into the result table. */
  function TableOf(d: OrderedDict.Dict<int>): Table
    requires d.Valid()
  {
    var items := d.Items();
    [Header]
      + seq(|items|, j requires 0 <= j < |items| => [Text(items[j].0), Number(items[j].1)])
      + [[Text("Total"), Number(Sum(d.Values()))]]
  }

  /**
   * Lines 88-123. The dictionary `status_counts` is updated row by row;
   * the log is returned instead of written.
   */
  method PepRoutine(index: Option<seq<IndexRow>>, expected: Expectations)
    returns (r: Run<Table>, log: seq<Mismatch>)
    ensures r == PepResult(index, expected)
    ensures log == PepLog(index, expected)
  {
    if index.None? {
      return NoResult, [];
    }
    var rows := index.value;
    var statusCounts: OrderedDict.Dict<int> := OrderedDict.Empty();
    log := [];
    for i := 0 to |rows|
      invariant Known(rows[..i], expected)
      invariant Tallies(statusCounts, Observed(rows[..i]))
      invariant log == Mismatches(rows[..i], expected)
    {
      ObservedStep(rows, i, expected);
      var row := rows[i];
      var statOnTable := ShortCode(row.firstCell);
      if row.status.None? {
        assert Observed(rows[..i + 1]) == Observed(rows[..i]) + [] == Observed(rows[..i]);
        KnownStep(rows, i, expected);
        continue;
      }
      var statusOnPage := row.status.value;
      assert Observed(rows[..i + 1]) == Observed(rows[..i]) + [statusOnPage];
      TallyStep(statusCounts, Observed(rows[..i]), statusOnPage);
      if statusCounts.Get(statusOnPage, 0) == 0 {
        statusCounts := statusCounts.Put(statusOnPage, 1);
      } else {
        statusCounts := statusCounts.Put(statusOnPage, statusCounts.vals[statusOnPage] + 1);
      }
      if statOnTable !in expected {
        FirstUnknownAt(rows, expected, i);
        return Raised(KeyError(statOnTable)), log;
      }
      KnownStep(rows, i, expected);
      if statusOnPage !in expected[statOnTable] {
        log := log + [Mismatch(row.link, statusOnPage, expected[statOnTable])];
      }
    }
    assert rows[..|rows|] == rows;
    AllKnown(rows, expected);
    TableOfTallies(statusCounts, Observed(rows));
    var items := statusCounts.Items();
    var results: Table := seq(|items|, j requires 0 <= j < |items| => [Text(items[j].0), Number(items[j].1)]);
    results := [Header] + results;
    var totalAmount := Sum(statusCounts.Values());
    results := results + [[Text("Total"), Number(totalAmount)]];
    r := Produced(results);
  }

  /** The first row whose code is unknown, after a known prefix, is the one `FirstUnknown` names. */
  lemma FirstUnknownAt(rows: seq<IndexRow>, expected: Expectations, i: nat)
    requires i < |rows| && Known(rows[..i], expected) && UnknownCode(rows[i], expected)
    ensures FirstUnknown(rows, expected) == i
  {
  }

  lemma KnownStep(rows: seq<IndexRow>, i: nat, expected: Expectations)
    requires i < |rows| && Known(rows[..i], expected) && !UnknownCode(rows[i], expected)
    ensures Known(rows[..i + 1], expected)
  {
    assert forall j :: 0 <= j < i ==> rows[..i + 1][j] == rows[..i][j];
  }

  /** With every code known, no row raises. */
  lemma AllKnown(rows: seq<IndexRow>, expected: Expectations)
    requires Known(rows, expected)
    ensures FirstUnknown(rows, expected) == |rows|
  {
  }

  /**
   * Lines 108-111: the `get(..., 0) == 0` branch and the `+= 1` branch
   * together count one more occurrence of `x`.
   */
  lemma TallyStep(d: OrderedDict.Dict<int>, obs: seq<string>, x: string)
    requires Tallies(d, obs)
    ensures d.Get(x, 0) == 0 ==> Tallies(d.Put(x, 1), obs + [x])
    ensures d.Get(x, 0) != 0 ==> x in d.vals && Tallies(d.Put(x, d.vals[x] + 1), obs + [x])
  {
    OccursInFirstSeen(obs, x);
    AppendStep(obs, x);
    if x in d.vals {
      var d' := d.Put(x, d.vals[x] + 1);
      assert d'.keys == FirstSeen(obs + [x]);
      forall s | s in d'.vals ensures d'.vals[s] == Occurrences(obs + [x], s) {
      }
    } else {
      var d' := d.Put(x, 1);
      assert d'.keys == FirstSeen(obs + [x]);
      forall s | s in d'.vals ensures d'.vals[s] == Occurrences(obs + [x], s) {
      }
    }
  }

  /** The table built from a dictionary that tallies `obs` is the tally table of `obs`. */
  lemma TableOfTallies(d: OrderedDict.Dict<int>, obs: seq<string>)
    requires Tallies(d, obs)
    ensures TableOf(d) == TallyTable(obs)
  {
    assert d.Values() == Counts(FirstSeen(obs), obs);
    CountsSumToTotal(obs);
  }

  // ---------------------------------------------------------------------
  // Properties of the tally
  // ---------------------------------------------------------------------

  /** One more row adds its status to the observations (if fetched) and its record to the log (if any). */
  lemma ObservedStep(rows: seq<IndexRow>, i: nat, e: Expectations)
    requires i < |rows|
    ensures Observed(rows[..i + 1]) == Observed(rows[..i])
      + (match rows[i].status case Some(s) => [s] case None => [])
    ensures Mismatches(rows[..i + 1], e) == Mismatches(rows[..i], e)
      + (if Disagrees(rows[i], e) then [RecordFor(rows[i], e)] else [])
  {
    assert rows[..i + 1][..i] == rows[..i];
  }

  /** One more observation: a new status goes to the end of the first-seen order, and its count rises by one. */
  lemma AppendStep(obs: seq<string>, x: string)
    ensures FirstSeen(obs + [x]) == FirstSeen(obs) + (if x in obs then [] else [x])
    ensures forall s :: Occurrences(obs + [x], s) == Occurrences(obs, s) + (if x == s then 1 else 0)
  {
    assert (obs + [x])[..|obs|] == obs;
  }

  /** A status occurs in `obs` exactly when it is among the first-seen statuses, and then it was counted. */
  lemma {:induction false} OccursInFirstSeen(obs: seq<string>, s: string)
    ensures s in obs <==> s in FirstSeen(obs)
    ensures s in obs <==> Occurrences(obs, s) > 0
  {
    if obs != [] {
      var before := obs[..|obs| - 1];
      OccursInFirstSeen(before, s);
      assert obs == before + [obs[|obs| - 1]];
    }
  }

  /**
   * The tally rows list each observed status exactly once, and in the
   * order of their first occurrence.
   */
  lemma {:induction false} FirstSeenSpec(obs: seq<string>)
    ensures forall i, j :: 0 <= i < j < |FirstSeen(obs)| ==> FirstSeen(obs)[i] != FirstSeen(obs)[j]
    ensures forall s :: s in FirstSeen(obs) <==> s in obs
    ensures forall i, j :: 0 <= i < j < |FirstSeen(obs)| ==>
      IndexOf(obs, FirstSeen(obs)[i]) < IndexOf(obs, FirstSeen(obs)[j])
  {
    forall s ensures s in FirstSeen(obs) <==> s in obs {
      OccursInFirstSeen(obs, s);
    }
    if obs != [] {
      var n := |obs| - 1;
      var before := obs[..n];
      var x := obs[n];
      FirstSeenSpec(before);
      var fs := FirstSeen(obs);
      var fb := FirstSeen(before);
      assert obs == before + [x];
      forall s | s in before ensures IndexOf(obs, s) == IndexOf(before, s) {
        IndexOfPrefix(before, x, s);
      }
      if x !in before {
        assert fs == fb + [x];
        assert IndexOf(obs, x) == n;
      }
    }
  }

  /** Appending to the observations does not move the first occurrence of a status already seen. */
  lemma {:induction false} IndexOfPrefix(obs: seq<string>, x: string, s: string)
    requires s in obs
    ensures IndexOf(obs + [x], s) == IndexOf(obs, s)
  {
    if obs[0] != s {
      assert (obs + [x])[1..] == obs[1..] + [x];
      IndexOfPrefix(obs[1..], x, s);
    }
  }

  /** Counting one more observation `x` raises the counts over distinct keys by one if `x` is a key. */
  lemma {:induction false} SumCountsStep(keys: seq<string>, obs: seq<string>, x: string)
    requires forall i, j :: 0 <= i < j < |keys| ==> keys[i] != keys[j]
    ensures Sum(Counts(keys, obs + [x])) == Sum(Counts(keys, obs)) + (if x in keys then 1 else 0)
  {
    if keys != [] {
      var n := |keys| - 1;
      var y := keys[n];
      SumCountsStep(keys[..n], obs, x);
      assert Counts(keys, obs + [x]) == Counts(keys[..n], obs + [x]) + [Occurrences(obs + [x], y)];
      assert Counts(keys, obs) == Counts(keys[..n], obs) + [Occurrences(obs, y)];
      assert (obs + [x])[..|obs|] == obs;
      assert x in keys <==> x in keys[..n] || x == y;
      assert x == y ==> x !in keys[..n];
    }
  }

  /** The counts of the distinct statuses add up to the number of observations. */
  lemma {:induction false} CountsSumToTotal(obs: seq<string>)
    ensures Sum(Counts(FirstSeen(obs), obs)) == |obs|
  {
    if obs != [] {
      var n := |obs| - 1;
      var before := obs[..n];
      var x := obs[n];
      assert obs == before + [x];
      AppendStep(before, x);
      CountsSumToTotal(before);
      FirstSeenSpec(before);
      var fb := FirstSeen(before);
      SumCountsStep(fb, before, x);
      OccursInFirstSeen(before, x);
      if x !in before {
        assert FirstSeen(obs) == fb + [x];
        assert Counts(fb + [x], obs) == Counts(fb, obs) + [Occurrences(obs, x)];
        assert (Counts(fb, obs) + [Occurrences(obs, x)])[..|fb|] == Counts(fb, obs);
        assert Occurrences(obs, x) == 1;
        assert Sum(Counts(fb + [x], obs)) == Sum(Counts(fb, obs)) + 1;
      } else {
        assert FirstSeen(obs) == fb;
      }
    }
  }

  /**
   * The result of a run over a fully known index: the header first, one
   * row per distinct status with its count, and a total that is both the
   * sum of the counts and the number of pages fetched. The table has
   * two rows more than there are distinct statuses.
   */
  lemma TallyTableSpec(obs: seq<string>)
    ensures var t := TallyTable(obs); var fs := FirstSeen(obs);
      && Rectangular(t)
      && |t| == |fs| + 2
      && t[0] == [Text("Статус"), Text("Количество")]
      && t[|t| - 1] == [Text("Total"), Number(|obs|)]
      && (forall i :: 0 <= i < |fs| ==> t[i + 1] == [Text(fs[i]), Number(Occurrences(obs, fs[i]))])
      && Sum(Counts(fs, obs)) == |obs|
  {
    CountsSumToTotal(obs);
  }

  /** The indices of the rows whose fetch succeeded with status `s`. */
  ghost function RowsWith(rows: seq<IndexRow>, s: string): set<nat>
  {
    set i: nat | i < |rows| && rows[i].status == Some(s)
  }

  lemma RowsWithStep(rows: seq<IndexRow>, s: string)
    requires rows != []
    ensures |RowsWith(rows, s)| == |RowsWith(rows[..|rows| - 1], s)|
      + (if rows[|rows| - 1].status == Some(s) then 1 else 0)
  {
    var n := |rows| - 1;
    if rows[n].status == Some(s) {
      assert RowsWith(rows, s) == RowsWith(rows[..n], s) + {n};
    } else {
      assert RowsWith(rows, s) == RowsWith(rows[..n], s);
    }
  }

  /** The tally counts, per status, the rows whose fetch succeeded with that status. */
  lemma {:induction false} OccurrencesCountRows(rows: seq<IndexRow>, s: string)
    ensures Occurrences(Observed(rows), s) == |RowsWith(rows, s)|
  {
    if rows != [] {
      var n := |rows| - 1;
      OccurrencesCountRows(rows[..n], s);
      ObservedStep(rows, n, map[]);
      assert rows[..n + 1] == rows;
      AppendStepOpt(Observed(rows[..n]), rows[n].status, s);
      RowsWithStep(rows, s);
    }
  }

  /** The indices of the rows whose fetch succeeded. */
  ghost function FetchedRows(rows: seq<IndexRow>): set<nat>
  {
    set i: nat | i < |rows| && rows[i].status.Some?
  }

  lemma FetchedRowsStep(rows: seq<IndexRow>)
    requires rows != []
    ensures |FetchedRows(rows)| == |FetchedRows(rows[..|rows| - 1])|
      + (if rows[|rows| - 1].status.Some? then 1 else 0)
  {
    var n := |rows| - 1;
    if rows[n].status.Some? {
      assert FetchedRows(rows) == FetchedRows(rows[..n]) + {n};
    } else {
      assert FetchedRows(rows) == FetchedRows(rows[..n]);
    }
  }

  /** The total counts the rows whose fetch succeeded: failed rows add nothing. */
  lemma {:induction false} ObservedCountsFetchedRows(rows: seq<IndexRow>)
    ensures |Observed(rows)| == |FetchedRows(rows)|
  {
    if rows != [] {
      var n := |rows| - 1;
      ObservedCountsFetchedRows(rows[..n]);
      ObservedStep(rows, n, map[]);
      assert rows[..n + 1] == rows;
      FetchedRowsStep(rows);
    }
  }

  lemma AppendStepOpt(obs: seq<string>, o: Option<string>, s: string)
    ensures Occurrences(obs + (match o case Some(x) => [x] case None => []), s)
      == Occurrences(obs, s) + (if o == Some(s) then 1 else 0)
  {
    if o.Some? {
      AppendStep(obs, o.value);
    } else {
      assert obs + [] == obs;
    }
  }

  /** The indices of the fetched rows whose status is not accepted for their code. */
  ghost function DisagreeingRows(rows: seq<IndexRow>, expected: Expectations): set<nat>
  {
    set i: nat | i < |rows| && Disagrees(rows[i], expected)
  }

  lemma DisagreeingRowsStep(rows: seq<IndexRow>, expected: Expectations)
    requires rows != []
    ensures |DisagreeingRows(rows, expected)| == |DisagreeingRows(rows[..|rows| - 1], expected)|
      + (if Disagrees(rows[|rows| - 1], expected) then 1 else 0)
  {
    var n := |rows| - 1;
    if Disagrees(rows[n], expected) {
      assert DisagreeingRows(rows, expected) == DisagreeingRows(rows[..n], expected) + {n};
    } else {
      assert DisagreeingRows(rows, expected) == DisagreeingRows(rows[..n], expected);
    }
  }

  /** One line is logged per disagreeing row: the log is as long as there are such rows. */
  lemma {:induction false} MismatchesCount(rows: seq<IndexRow>, expected: Expectations)
    ensures |Mismatches(rows, expected)| == |DisagreeingRows(rows, expected)|
  {
    if rows != [] {
      MismatchesCount(rows[..|rows| - 1], expected);
      DisagreeingRowsStep(rows, expected);
    }
  }

  /**
   * A record is logged for exactly the fetched rows whose status is not
   * accepted for their code; the row itself is still tallied.
   */
  lemma {:induction false} MismatchesSpec(rows: seq<IndexRow>, expected: Expectations)
    ensures forall i :: 0 <= i < |rows| && Disagrees(rows[i], expected) ==>
      RecordFor(rows[i], expected) in Mismatches(rows, expected)
    ensures forall m :: m in Mismatches(rows, expected) ==>
      exists i :: 0 <= i < |rows| && Disagrees(rows[i], expected) && m == RecordFor(rows[i], expected)
  {
    if rows != [] {
      var n := |rows| - 1;
      MismatchesSpec(rows[..n], expected);
      forall i | 0 <= i < n && Disagrees(rows[i], expected)
        ensures RecordFor(rows[i], expected) in Mismatches(rows, expected)
      {
        assert rows[..n][i] == rows[i];
      }
      forall m | m in Mismatches(rows, expected)
        ensures exists i :: 0 <= i < |rows| && Disagrees(rows[i], expected) && m == RecordFor(rows[i], expected)
      {
        if m in Mismatches(rows[..n], expected) {
          var i :| 0 <= i < n && Disagrees(rows[..n][i], expected) && m == RecordFor(rows[..n][i], expected);
          assert rows[..n][i] == rows[i];
        }
      }
    }
  }

  /** `pep` raises a KeyError exactly when some fetched row has a code the table lacks. */
  lemma PepRaisesIff(rows: seq<IndexRow>, expected: Expectations)
    ensures PepResult(Some(rows), expected).Raised? <==>
      exists i :: 0 <= i < |rows| && UnknownCode(rows[i], expected)
  {
    var k := FirstUnknown(rows, expected);
    if k == |rows| {
      assert rows[..k] == rows;
    }
  }

  /**
   * When every code is known, the expectation table changes only the
   * log, never the tally: a mismatch is informational.
   */
  lemma TallyIgnoresExpectations(rows: seq<IndexRow>, e1: Expectations, e2: Expectations)
    requires Known(rows, e1) && Known(rows, e2)
    ensures PepResult(Some(rows), e1) == PepResult(Some(rows), e2) == Produced(TallyTable(Observed(rows)))
  {
  }
}
