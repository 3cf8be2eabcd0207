/**
 * The four focused CSV exports of internal/report/core_csv.go: users,
 * computers, domain admins and domain controllers, each written from the
 * output of its query when that query ran. Files are modelled as their
 * records; creating the directory and the files is not modelled.
 */
module CoreCsv {
  import opened Wrappers
  import opened Ascii
  import opened ResultSets
  import opened Report

  /** A core export: the query it is written from and its file name. */
  datatype CoreFile = CoreFile(id: string, file: string)

  const CoreFiles: seq<CoreFile> := [
    CoreFile("ad-all-users-samaccountname", "users.csv"),
    CoreFile("ad-all-computers-fqdn", "computers.csv"),
    CoreFile("ad-domain-admins", "domain_admins.csv"),
    CoreFile("ad-domain-controllers", "domain_controllers.csv")
  ]

  /** One written file: the directory, the file name and its records. */
  datatype Export = Export(dir: string, file: string, records: seq<seq<string>>)

  // ---------------------------------------------------------------------
  // Outputs by ID

  /** The output `byID[id]` holds: the last one with that ID, if any. */
  function LastById(outs: seq<Output>, id: string): (r: Option<Output>)
    ensures r.None? <==> forall i :: 0 <= i < |outs| ==> outs[i].query.id != id
    ensures r.Some? ==> exists i :: 0 <= i < |outs| && outs[i] == r.value && outs[i].query.id == id &&
                          forall j :: i < j < |outs| ==> outs[j].query.id != id
  {
    if |outs| == 0 then None
    else if outs[|outs| - 1].query.id == id then Some(outs[|outs| - 1])
    else
      var r := LastById(outs[..|outs| - 1], id);
      assert forall i :: 0 <= i < |outs| - 1 ==> outs[..|outs| - 1][i] == outs[i];
      r
  }

  /** The `byID` loop: every output stored under its ID, a later one overwriting an earlier. */
  method ById(outs: seq<Output>) returns (byId: map<string, Output>)
    ensures byId.Keys == set i | 0 <= i < |outs| :: outs[i].query.id
    ensures forall id :: id in byId ==> LastById(outs, id) == Some(byId[id])
  {
    byId := map[];
    var i := 0;
    while i < |outs|
      invariant 0 <= i <= |outs|
      invariant byId.Keys == set k | 0 <= k < i :: outs[k].query.id
      invariant forall id :: id in byId ==> LastById(outs[..i], id) == Some(byId[id])
    {
      assert outs[..i + 1][..i] == outs[..i];
      byId := byId[outs[i].query.id := outs[i]];
      i := i + 1;
    }
    assert outs[..i] == outs;
  }

  // ---------------------------------------------------------------------
  // One file

  /** The header row and the keys: the query's own, or the result's columns when the query has no headers. */
  function HeadersAndKeys(o: Output): (hk: (seq<string>, seq<string>))
    ensures |o.query.headers| > 0 ==> hk == (o.query.headers, o.query.columnKeys)
    ensures |o.query.headers| == 0 ==> hk == (o.result.columns, o.result.columns)
  {
    if |o.query.headers| == 0 then (o.result.columns, o.result.columns)
    else (o.query.headers, o.query.columnKeys)
  }

  /** The data records: one per result row, with the cell of each key in turn. */
  function DataRecords(fm: Renderer, keys: seq<string>, rs: ResultSet): (recs: seq<seq<string>>)
    ensures |recs| == |rs.rows|
    ensures forall r :: 0 <= r < |recs| ==> |recs[r]| == |keys|
    ensures forall r, j :: 0 <= r < |recs| && 0 <= j < |keys| ==>
              recs[r][j] == KeyCell(fm, ColumnIndex(rs.columns), keys[j], rs.rows[r])
  {
    var colIndex := ColumnIndex(rs.columns);
    seq(|rs.rows|, r requires 0 <= r < |rs.rows| => KeyCells(fm, colIndex, keys, rs.rows[r]))
  }

  /**
   * `writeSingleCSV`: the header row, then a skip marker, an error marker,
   * or one record per result row with a cell per key.
   */
  function SingleCsv(fm: Renderer, o: Output): (recs: seq<seq<string>>)
    ensures |recs| >= 1 && recs[0] == HeadersAndKeys(o).0
    ensures o.skipped ==> recs == [HeadersAndKeys(o).0, ["SKIPPED", o.skipWhy]]
    ensures !o.skipped && o.error != "" ==> recs == [HeadersAndKeys(o).0, ["ERROR", o.error]]
    ensures !o.skipped && o.error == "" ==>
              recs == [HeadersAndKeys(o).0] + DataRecords(fm, HeadersAndKeys(o).1, o.result)
  {
    var (headers, keys) := HeadersAndKeys(o);
    if o.skipped then [headers, ["SKIPPED", o.skipWhy]]
    else if o.error != "" then [headers, ["ERROR", o.error]]
    else [headers] + DataRecords(fm, keys, o.result)
  }

  /**
   * The single-file export checks the skip flag first, the combined CSV
   * checks the error first: an output that is both reports differently.
   */
  lemma SkipBeatsErrorInCoreCsv(fm: Renderer, o: Output)
    requires o.skipped && o.error != ""
    ensures SingleCsv(fm, o)[1] == ["SKIPPED", o.skipWhy]
    ensures CsvStatus(o) == "error"
  {
  }

  // ---------------------------------------------------------------------
  // All four files

  /** The exports for the core files from `k` on, in their fixed order. */
  function ExportsFrom(fm: Renderer, dir: string, outs: seq<Output>, k: nat): (r: seq<Export>)
    requires k <= |CoreFiles|
    ensures |r| <= |CoreFiles| - k
    ensures forall e :: e in r ==> e.dir == dir
    ensures forall e :: e in r ==> exists c :: c in CoreFiles[k..] && e.file == c.file
    decreases |CoreFiles| - k
  {
    if k == |CoreFiles| then []
    else
      var rest := ExportsFrom(fm, dir, outs, k + 1);
      match LastById(outs, CoreFiles[k].id)
      case None => rest
      case Some(o) => [Export(dir, CoreFiles[k].file, SingleCsv(fm, o))] + rest
  }

  /**
   * `WriteCoreCSVs`: nothing when the directory is blank; otherwise one file
   * per core query present in the outputs, written from the last output with
   * that ID.
   */
  function CoreExports(fm: Renderer, outDir: string, outs: seq<Output>): (r: seq<Export>)
    ensures IsBlank(outDir) ==> r == []
    ensures |r| <= |CoreFiles|
    ensures forall e :: e in r ==> e.dir == TrimSpace(outDir)
  {
    var dir := TrimSpace(outDir);
    if dir == "" then [] else ExportsFrom(fm, dir, outs, 0)
  }

  /** A file name belongs to exactly one core query. */
  lemma CoreFileNamesDistinct()
    ensures forall a, b :: 0 <= a < b < |CoreFiles| ==> CoreFiles[a].file != CoreFiles[b].file
    ensures forall a, b :: 0 <= a < b < |CoreFiles| ==> CoreFiles[a].id != CoreFiles[b].id
  {
  }

  /**
   * A core file is written exactly when its query is among the outputs, and
   * then holds the single-file export of the last output with that ID.
   */
  lemma {:induction false} ExportsFromExact(fm: Renderer, dir: string, outs: seq<Output>, k: nat, c: nat)
    requires k <= c < |CoreFiles|
    ensures (exists e :: e in ExportsFrom(fm, dir, outs, k) && e.file == CoreFiles[c].file)
            <==> LastById(outs, CoreFiles[c].id).Some?
    ensures LastById(outs, CoreFiles[c].id).Some? ==>
              Export(dir, CoreFiles[c].file, SingleCsv(fm, LastById(outs, CoreFiles[c].id).value))
                in ExportsFrom(fm, dir, outs, k)
    decreases |CoreFiles| - k
  {
    if k < c {
      CoreFileNamesDistinct();
      ExportsFromExact(fm, dir, outs, k + 1, c);
    } else {
      var r := ExportsFrom(fm, dir, outs, k);
      LaterExportsLackFile(fm, dir, outs, k);
    }
  }

  /** The exports after core file `k` never use its name. */
  lemma LaterExportsLackFile(fm: Renderer, dir: string, outs: seq<Output>, k: nat)
    requires k < |CoreFiles|
    ensures forall e :: e in ExportsFrom(fm, dir, outs, k + 1) ==> e.file != CoreFiles[k].file
  {
    CoreFileNamesDistinct();
    forall e | e in ExportsFrom(fm, dir, outs, k + 1)
      ensures e.file != CoreFiles[k].file
    {
      var c' :| c' in CoreFiles[k + 1..] && e.file == c'.file;
    }
  }

  /** For a non-blank directory, the core file of a present query holds its last output's export, and no other file has its name. */
  lemma CoreExportsExact(fm: Renderer, outDir: string, outs: seq<Output>, c: nat)
    requires !IsBlank(outDir) && c < |CoreFiles|
    ensures (exists e :: e in CoreExports(fm, outDir, outs) && e.file == CoreFiles[c].file)
            <==> LastById(outs, CoreFiles[c].id).Some?
    ensures LastById(outs, CoreFiles[c].id).Some? ==>
              Export(TrimSpace(outDir), CoreFiles[c].file, SingleCsv(fm, LastById(outs, CoreFiles[c].id).value))
                in CoreExports(fm, outDir, outs)
  {
    ExportsFromExact(fm, TrimSpace(outDir), outs, 0, c);
  }
}
