/**
 * The XLSX summary sheet (internal/report/summary.go): one row per output
 * with its status, then a totals row, and a warning in the first cell when
 * some query has a blank sheet name.
 */
module Summary {
  import opened Ascii
  import opened ResultSets
  import opened Format
  import opened Report

  datatype Status = Ok | Empty | Skipped | Failed

  /** The status precedence of the summary: skipped, then error, then no rows, then ok. */
  function StatusOf(o: Output): (s: Status)
    ensures s == Skipped <==> o.skipped
    ensures s == Failed <==> !o.skipped && o.error != ""
    ensures s == Empty <==> !o.skipped && o.error == "" && |o.result.rows| == 0
    ensures s == Ok <==> !o.skipped && o.error == "" && |o.result.rows| > 0
  {
    if o.skipped then Skipped
    else if o.error != "" then Failed
    else if |o.result.rows| == 0 then Empty
    else Ok
  }

  function StatusName(s: Status): string {
    match s
    case Ok => "ok"
    case Empty => "empty"
    case Skipped => "skipped"
    case Failed => "error"
  }

  datatype SummaryRow = SummaryRow(
    order: nat, category: string, sheet: string, id: string,
    status: string, rows: nat, cypher: string)

  datatype Totals = Totals(ok: nat, empty: nat, skipped: nat, error: nat, total: nat)

  datatype SummarySheet = SummarySheet(header: seq<string>, rows: seq<SummaryRow>, totals: Totals)

  const SummaryHeader: seq<string> := ["order", "category", "sheet", "id", "status", "rows", "cypher"]
  const EmptyNameWarning: string := "warning: some queries have empty sheet names"

  /** The summary row of the output at position `i`. */
  function RowFor(i: nat, o: Output): SummaryRow {
    SummaryRow(i + 1, o.query.category, o.query.sheetName, o.query.id,
               StatusName(StatusOf(o)), |o.result.rows|, OneLine(o.query.cypher))
  }

  /** How many outputs have status `s`. */
  function Count(outs: seq<Output>, s: Status): (n: nat)
    ensures n <= |outs|
  {
    if |outs| == 0 then 0
    else Count(outs[..|outs| - 1], s) + (if StatusOf(outs[|outs| - 1]) == s then 1 else 0)
  }

  /** Every output is counted under exactly one status. */
  lemma {:induction false} CountsPartition(outs: seq<Output>)
    ensures Count(outs, Ok) + Count(outs, Empty) + Count(outs, Skipped) + Count(outs, Failed) == |outs|
  {
    if |outs| > 0 {
      CountsPartition(outs[..|outs| - 1]);
    }
  }

  /** Extending a prefix by one output adds it to its own status's count only. */
  lemma CountStep(outs: seq<Output>, i: nat)
    requires i < |outs|
    ensures forall s :: Count(outs[..i + 1], s) == Count(outs[..i], s) + (if StatusOf(outs[i]) == s then 1 else 0)
  {
    assert outs[..i + 1][..i] == outs[..i];
  }

  predicate HasBlankSheetName(outs: seq<Output>) {
    exists i :: 0 <= i < |outs| && IsBlank(outs[i].query.sheetName)
  }

  /** The header row: the column names, with the warning in place of the first when some sheet name is blank. */
  method HeaderRow(outs: seq<Output>) returns (header: seq<string>)
    ensures |header| == |SummaryHeader| && header[1..] == SummaryHeader[1..]
    ensures header[0] == (if HasBlankSheetName(outs) then EmptyNameWarning else "order")
  {
    header := SummaryHeader;
    var j := 0;
    while j < |outs|
      invariant 0 <= j <= |outs|
      invariant forall k :: 0 <= k < j ==> !IsBlank(outs[k].query.sheetName)
      invariant header == SummaryHeader
    {
      if IsBlank(outs[j].query.sheetName) {
        header := header[0 := EmptyNameWarning];
        return;
      }
      j := j + 1;
    }
  }

  /** The tallies the row loop keeps: one counter per status. */
  method Tally(outs: seq<Output>) returns (totals: Totals)
    ensures totals == Totals(Count(outs, Ok), Count(outs, Empty), Count(outs, Skipped), Count(outs, Failed), |outs|)
  {
    var ok, errc, skipped, empty := 0, 0, 0, 0;
    var i := 0;
    while i < |outs|
      invariant 0 <= i <= |outs|
      invariant ok == Count(outs[..i], Ok) && empty == Count(outs[..i], Empty)
      invariant skipped == Count(outs[..i], Skipped) && errc == Count(outs[..i], Failed)
    {
      var o := outs[i];
      CountStep(outs, i);
      if o.skipped {
        skipped := skipped + 1;
      } else if o.error != "" {
        errc := errc + 1;
      } else if |o.result.rows| == 0 {
        empty := empty + 1;
      } else {
        ok := ok + 1;
      }
      i := i + 1;
    }
    assert outs[..i] == outs;
    totals := Totals(ok, empty, skipped, errc, |outs|);
  }

  /** The output rows, one per output in order. */
  function BodyRows(outs: seq<Output>): (rows: seq<SummaryRow>)
    ensures |rows| == |outs|
    ensures forall i :: 0 <= i < |outs| ==> rows[i].order == i + 1 && rows[i].id == outs[i].query.id
    ensures forall i :: 0 <= i < |outs| ==> rows[i] == RowFor(i, outs[i])
  {
    seq(|outs|, i requires 0 <= i < |outs| => RowFor(i, outs[i]))
  }

  /**
   * `writeSummarySheet`, with the cells it writes gathered into a header
   * row, the output rows and the totals row.
   */
  method WriteSummary(outs: seq<Output>) returns (sheet: SummarySheet)
    ensures |sheet.rows| == |outs|
    ensures forall i :: 0 <= i < |outs| ==> sheet.rows[i] == RowFor(i, outs[i])
    ensures sheet.totals == Totals(Count(outs, Ok), Count(outs, Empty), Count(outs, Skipped), Count(outs, Failed), |outs|)
    ensures sheet.totals.ok + sheet.totals.empty + sheet.totals.skipped + sheet.totals.error == sheet.totals.total
    ensures |sheet.header| == |SummaryHeader| && sheet.header[1..] == SummaryHeader[1..]
    ensures sheet.header[0] == (if HasBlankSheetName(outs) then EmptyNameWarning else "order")
  {
    var rows := BodyRows(outs);
    var totals := Tally(outs);
    CountsPartition(outs);
    var header := HeaderRow(outs);
    sheet := SummarySheet(header, rows, totals);
  }

  /**
   * The summary and the CSV export rank a failed, skipped output
   * differently: the summary calls it skipped, the CSV calls it an error.
   */
  lemma SkippedErrorDisagrees(o: Output)
    requires o.skipped && o.error != ""
    ensures StatusName(StatusOf(o)) == "skipped" && CsvStatus(o) == "error"
  {
  }
}
