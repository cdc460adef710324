/** The per-source reconciliation pipeline: walks the rows of one budget table, skips the
    configured row indices, reads the organisation-name and year columns and records what
    the matcher says about each name. */
module Budget {
  import opened Results
  import opened Matchers

  /** The declarative configuration of one budget table. */
  datatype BudgetSource = BudgetSource(rowSkip: seq<int>, columnYear: int, columnOrgName: int)

  /** One line of the report; `line` counts every row of the table, skipped ones included. */
  datatype CheckRecord = CheckRecord(
    row: seq<string>,
    line: nat,
    orgName: string,
    year: string,
    status: Status,
    candidates: map<string, real>)

  /** A row too short for a configured column: the table's `line` and the column. */
  datatype RowShapeError = RowShapeError(line: nat, column: int)

  /** Reads one column of a row; a column outside the row is an error, never a default. */
  function GetBudget(row: seq<string>, column: int): (r: Option<string>)
    ensures r.Some? <==> 0 <= column < |row|
    ensures r.Some? ==> r.value == row[column]
  {
    if 0 <= column < |row| then Some(row[column]) else None
  }

  /** The row has both configured columns. */
  predicate RowFits(row: seq<string>, src: BudgetSource) {
    0 <= src.columnOrgName < |row| && 0 <= src.columnYear < |row|
  }

  /** Reference definition of the reported lines: the indices in [i, n) not listed in the
      skip list, in increasing order. */
  function KeptLines(n: nat, skip: seq<int>, i: nat): seq<nat>
    requires i <= n
    decreases n - i
  {
    if i == n then []
    else if i in skip then KeptLines(n, skip, i + 1)
    else [i] + KeptLines(n, skip, i + 1)
  }

  /** The skip indices that fall inside [i, n). */
  function SkippedIn(n: nat, skip: seq<int>, i: nat): set<int> {
    set j | i <= j < n && j in skip
  }

  /** `rec` is what the pipeline reports for row `rec.line`. */
  ghost predicate Describes(rec: CheckRecord, rows: seq<seq<string>>, src: BudgetSource, m: Matcher, ratio: Ratio) {
    && rec.line < |rows|
    && RowFits(rows[rec.line], src)
    && rec.row == rows[rec.line]
    && rec.orgName == rows[rec.line][src.columnOrgName]
    && rec.year == rows[rec.line][src.columnYear]
    && rec.status == MatchWith(m, rec.orgName, ratio).Status()
    && rec.candidates == MatchWith(m, rec.orgName, ratio).CandidatesOrEmpty()
  }

  /** `e` reports the first kept row at or after `i` that lacks a column, naming the
      organisation-name column when that one is missing (it is read first). */
  ghost predicate FirstBadRow(rows: seq<seq<string>>, src: BudgetSource, i: nat, e: RowShapeError) {
    && i <= e.line < |rows|
    && e.line !in src.rowSkip
    && !RowFits(rows[e.line], src)
    && (forall j :: i <= j < e.line && j !in src.rowSkip ==> RowFits(rows[j], src))
    && e.column == (if 0 <= src.columnOrgName < |rows[e.line]| then src.columnYear else src.columnOrgName)
  }

  /** The pipeline from row `i` on. */
  function CheckRows(rows: seq<seq<string>>, src: BudgetSource, m: Matcher, ratio: Ratio, i: nat)
    : (r: Result<seq<CheckRecord>, RowShapeError>)
    requires i <= |rows|
    ensures r.Success? <==> forall j :: i <= j < |rows| && j !in src.rowSkip ==> RowFits(rows[j], src)
    ensures r.Success? ==> |r.value| == |KeptLines(|rows|, src.rowSkip, i)|
    ensures r.Success? ==>
              forall k :: 0 <= k < |r.value| ==> r.value[k].line == KeptLines(|rows|, src.rowSkip, i)[k]
    ensures r.Success? ==> forall k :: 0 <= k < |r.value| ==> Describes(r.value[k], rows, src, m, ratio)
    ensures r.Failure? ==> FirstBadRow(rows, src, i, r.error)
    decreases |rows| - i
  {
    if i == |rows| then Success([])
    else if i in src.rowSkip then CheckRows(rows, src, m, ratio, i + 1)
    else
      match GetBudget(rows[i], src.columnOrgName)
      case None => Failure(RowShapeError(i, src.columnOrgName))
      case Some(orgName) =>
        var result := MatchWith(m, orgName, ratio);
        match GetBudget(rows[i], src.columnYear)
        case None => Failure(RowShapeError(i, src.columnYear))
        case Some(year) =>
          var rec := CheckRecord(rows[i], i, orgName, year, result.Status(), result.CandidatesOrEmpty());
          match CheckRows(rows, src, m, ratio, i + 1)
          case Failure(e) => Failure(e)
          case Success(rest) => Success([rec] + rest)
  }

  /** The pipeline over one table; an unavailable table yields no records. */
  function CheckBudgetOrg(stream: Option<seq<seq<string>>>, src: BudgetSource, m: Matcher, ratio: Ratio)
    : (r: Result<seq<CheckRecord>, RowShapeError>)
    ensures stream.None? ==> r == Success([])
    ensures stream.Some? && r.Success? ==>
              forall k :: 0 <= k < |r.value| ==> Describes(r.value[k], stream.value, src, m, ratio)
    ensures stream.Some? && r.Failure? ==> FirstBadRow(stream.value, src, 0, r.error)
  {
    match stream
    case None => Success([])
    case Some(rows) => CheckRows(rows, src, m, ratio, 0)
  }

  /** A line is reported exactly when it lies in range and is not skipped. */
  lemma {:induction false} KeptLinesMembers(n: nat, skip: seq<int>, i: nat, j: int)
    requires i <= n
    ensures j in KeptLines(n, skip, i) <==> i <= j < n && j !in skip
    decreases n - i
  {
    if i < n {
      KeptLinesMembers(n, skip, i + 1, j);
    }
  }

  /** Reported lines strictly increase and start at `i` or later. */
  lemma {:induction false} KeptLinesIncreasing(n: nat, skip: seq<int>, i: nat)
    requires i <= n
    ensures forall k :: 0 <= k < |KeptLines(n, skip, i)| ==> i <= KeptLines(n, skip, i)[k]
    ensures forall k, l :: 0 <= k < l < |KeptLines(n, skip, i)| ==> KeptLines(n, skip, i)[k] < KeptLines(n, skip, i)[l]
    decreases n - i
  {
    if i < n {
      KeptLinesIncreasing(n, skip, i + 1);
    }
  }

  /** The number of reported lines is the number of rows in range minus the skip indices
      that fall in range. */
  lemma {:induction false} KeptLinesCount(n: nat, skip: seq<int>, i: nat)
    requires i <= n
    ensures |KeptLines(n, skip, i)| == (n - i) - |SkippedIn(n, skip, i)|
    decreases n - i
  {
    if i == n {
      assert SkippedIn(n, skip, i) == {};
    } else {
      KeptLinesCount(n, skip, i + 1);
      if i in skip {
        assert SkippedIn(n, skip, i) == SkippedIn(n, skip, i + 1) + {i};
        assert i !in SkippedIn(n, skip, i + 1);
      } else {
        assert SkippedIn(n, skip, i) == SkippedIn(n, skip, i + 1);
      }
    }
  }

  /** For an available table: one record per row not skipped, the count is the row count
      minus the skip indices inside the table, and records carry their original line in
      strictly increasing order. */
  lemma ReportShape(rows: seq<seq<string>>, src: BudgetSource, m: Matcher, ratio: Ratio)
    requires CheckBudgetOrg(Some(rows), src, m, ratio).Success?
    ensures var recs := CheckBudgetOrg(Some(rows), src, m, ratio).value;
      && |recs| == |rows| - |SkippedIn(|rows|, src.rowSkip, 0)|
      && (forall k, l :: 0 <= k < l < |recs| ==> recs[k].line < recs[l].line)
      && (forall j :: 0 <= j < |rows| && j !in src.rowSkip <==> exists k :: 0 <= k < |recs| && recs[k].line == j)
  {
    var recs := CheckBudgetOrg(Some(rows), src, m, ratio).value;
    var lines := KeptLines(|rows|, src.rowSkip, 0);
    KeptLinesCount(|rows|, src.rowSkip, 0);
    KeptLinesIncreasing(|rows|, src.rowSkip, 0);
    forall j
      ensures 0 <= j < |rows| && j !in src.rowSkip <==> exists k :: 0 <= k < |recs| && recs[k].line == j
    {
      KeptLinesMembers(|rows|, src.rowSkip, 0, j);
      if j in lines {
        var k :| 0 <= k < |lines| && lines[k] == j;
        assert recs[k].line == j;
      }
    }
  }

  /** Candidates are reported only with a PARTIAL status, and a PARTIAL status always
      comes with candidates; an exact matcher never reports PARTIAL. */
  lemma CandidatesOnlyWhenPartial(rows: seq<seq<string>>, src: BudgetSource, m: Matcher, ratio: Ratio, k: nat)
    requires CheckBudgetOrg(Some(rows), src, m, ratio).Success?
    requires k < |CheckBudgetOrg(Some(rows), src, m, ratio).value|
    ensures var rec := CheckBudgetOrg(Some(rows), src, m, ratio).value[k];
      && (rec.candidates != map[] <==> rec.status == Partial)
      && (m.ExactMatcher? ==> rec.status != Partial)
  {
  }
}
