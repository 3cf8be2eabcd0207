/**
 * Report shaping (internal/report/report.go): sheet names, column widths,
 * the records of the structured CSV export, and which outputs get an XLSX
 * sheet. The writers themselves are not modelled; the functions here return
 * the names, numbers and records they would be handed.
 */
module Report {
  import opened Wrappers
  import opened Ascii
  import opened Lex
  import opened ResultSets
  import opened Catalog
  import opened Format

  /** `report.Output`: a query, its result, and how the run went. */
  datatype Output = Output(query: Query, result: ResultSet, error: string, skipped: bool, skipWhy: string)

  /** The two interpretations `Formatter.Value` depends on; see `Format.CellValue`. */
  datatype Renderer = Renderer(unixTime: int -> string, render: Value -> string)

  function Cell(fm: Renderer, key: string, v: Value): string {
    CellValue(key, v, fm.unixTime, fm.render)
  }

  // ---------------------------------------------------------------------
  // Sheet names

  /** The characters Excel refuses in a sheet name. */
  predicate IsForbiddenSheetChar(c: char) {
    c == ':' || c == '\\' || c == '/' || c == '?' || c == '*' || c == '[' || c == ']'
  }

  const MaxSheetName: nat := 31

  /** The `strings.NewReplacer` of `safeSheetName`: `: \ /` to `-`, `? *` dropped, brackets to parentheses. */
  function ReplaceSheetChars(s: string): (r: string)
    ensures |r| <= |s|
    ensures forall i :: 0 <= i < |r| ==> !IsForbiddenSheetChar(r[i])
    ensures (forall i :: 0 <= i < |s| ==> !IsForbiddenSheetChar(s[i])) ==> r == s
  {
    if |s| == 0 then ""
    else
      var c := s[0];
      var head := if c == ':' || c == '\\' || c == '/' then "-"
                  else if c == '?' || c == '*' then ""
                  else if c == '[' then "("
                  else if c == ']' then ")"
                  else [c];
      head + ReplaceSheetChars(s[1..])
  }

  function Truncate(s: string, n: nat): (r: string)
    ensures |r| <= n && |r| <= |s| && r == s[..|r|]
    ensures |s| <= n ==> r == s
  {
    if |s| > n then s[..n] else s
  }

  /**
   * `safeSheetName` as written: blank names become "Sheet" BEFORE the
   * forbidden characters are dropped, so a name made only of `?` and `*`
   * comes out empty.
   */
  function SafeSheetNameAsWritten(s: string): (r: string)
    ensures |r| <= MaxSheetName
    ensures forall i :: 0 <= i < |r| ==> !IsForbiddenSheetChar(r[i])
    ensures IsBlank(s) ==> r == "Sheet"
  {
    var t := TrimSpace(s);
    var u := if t == [] then "Sheet" else t;
    assert forall i :: 0 <= i < |"Sheet"| ==> !IsForbiddenSheetChar("Sheet"[i]);
    Truncate(ReplaceSheetChars(u), MaxSheetName)
  }

  lemma QuestionMarksTrimmed(s: string)
    requires s == "??"
    ensures TrimSpace(s) == s && ReplaceSheetChars(s) == ""
  {
    TrimSpaceOfTrimmed(s);
    assert s[1..] == "?";
  }

  /** The sheet name `??` is not blank, yet `safeSheetName` as written turns it into the empty name. */
  lemma EmptySheetNameFromMarks()
    ensures !IsBlank("??") && SafeSheetNameAsWritten("??") == ""
  {
    QuestionMarksTrimmed("??");
  }

  /**
   * `safeSheetName` with the blank check applied to the cleaned name as
   * well, so that every input yields a usable sheet name.
   */
  function SafeSheetName(s: string): (r: string)
    ensures 1 <= |r| <= MaxSheetName
    ensures forall i :: 0 <= i < |r| ==> !IsForbiddenSheetChar(r[i])
    ensures IsBlank(s) ==> r == "Sheet"
    ensures SafeSheetNameAsWritten(s) != [] ==> r == SafeSheetNameAsWritten(s)
  {
    var w := SafeSheetNameAsWritten(s);
    if w == [] then "Sheet" else w
  }

  /** A name that is already trimmed, short enough and free of forbidden characters is kept as it is. */
  lemma SafeSheetNameKeepsSafe(s: string)
    requires s != [] && !IsSpace(s[0]) && !IsSpace(s[|s| - 1])
    requires |s| <= MaxSheetName
    requires forall i :: 0 <= i < |s| ==> !IsForbiddenSheetChar(s[i])
    ensures SafeSheetName(s) == s
  {
    TrimSpaceOfTrimmed(s);
  }

  // ---------------------------------------------------------------------
  // Column widths

  /** The characters `displayWidth` does not count. */
  predicate IsLayoutChar(c: char) {
    c == '\n' || c == '\r' || c == '\t'
  }

  /** The number of characters of `s` that `displayWidth` counts, without a cap. */
  function Visible(s: string): (n: nat)
    ensures n <= |s|
  {
    if |s| == 0 then 0 else (if IsLayoutChar(s[0]) then 0 else 1) + Visible(s[1..])
  }

  /** The counted characters, stopping once 201 have been seen. */
  function DisplayWidth(s: string): (w: nat)
    ensures w <= 201
    ensures s == [] ==> w == 0
    ensures Visible(s) <= 200 ==> w == Visible(s)
    ensures Visible(s) > 200 ==> w == 201
  {
    if Visible(s) > 200 then 201 else Visible(s)
  }

  lemma VisibleSnoc(s: string, i: nat)
    requires i < |s|
    ensures Visible(s[..i + 1]) == Visible(s[..i]) + (if IsLayoutChar(s[i]) then 0 else 1)
    decreases i
  {
    if i > 0 {
      assert s[..i + 1][1..] == s[1..][..i];
      assert s[..i][1..] == s[1..][..i - 1];
      VisibleSnoc(s[1..], i - 1);
    }
  }

  lemma VisibleMonotone(s: string, i: nat, j: nat)
    requires i <= j <= |s|
    ensures Visible(s[..i]) <= Visible(s[..j])
    decreases j - i
  {
    if i < j {
      VisibleSnoc(s, j - 1);
      VisibleMonotone(s, i, j - 1);
    }
  }

  /** `displayWidth` as written: a counting loop that breaks once the count passes 200. */
  method ComputeDisplayWidth(s: string) returns (w: int)
    ensures w == DisplayWidth(s)
  {
    if |s| == 0 {
      return 0;
    }
    w := 0;
    var i := 0;
    while i < |s|
      invariant 0 <= i <= |s|
      invariant w == Visible(s[..i]) && w <= 200
      decreases |s| - i
    {
      VisibleSnoc(s, i);
      if !IsLayoutChar(s[i]) {
        w := w + 1;
        if w > 200 {
          VisibleMonotone(s, i + 1, |s|);
          assert s[..|s|] == s;
          return;
        }
      }
      i := i + 1;
    }
    assert s[..i] == s;
  }

  /** The clamp of `applyColumnWidths`: no width set for non-positive estimates, otherwise 10 to 60. */
  function ClampWidth(w: int): (r: Option<int>)
    ensures r.None? <==> w <= 0
    ensures r.Some? ==> 10 <= r.value <= 60
    ensures 10 <= w <= 60 ==> r == Some(w)
    ensures w > 60 ==> r == Some(60)
    ensures 0 < w < 10 ==> r == Some(10)
  {
    if w <= 0 then None
    else
      var w := if w < 10 then 10 else w;
      var w := if w > 60 then 60 else w;
      Some(w)
  }

  /** Clamping is monotone and a clamped width is kept by a second clamp. */
  lemma ClampWidthMonotone(a: int, b: int)
    requires 0 < a <= b
    ensures ClampWidth(a).value <= ClampWidth(b).value
    ensures ClampWidth(ClampWidth(a).value) == ClampWidth(a)
  {
  }

  // ---------------------------------------------------------------------
  // Structured CSV

  const CsvFixedHeader: seq<string> := ["query_id", "query_title", "category", "status"]

  /** The CSV status: an error wins over a skip, which wins over success. */
  function CsvStatus(o: Output): (s: string)
    ensures o.error != "" ==> s == "error"
    ensures o.error == "" && o.skipped ==> s == "skipped"
    ensures o.error == "" && !o.skipped ==> s == "ok"
  {
    var status := "ok";
    var status := if o.skipped then "skipped" else status;
    if o.error != "" then "error" else status
  }

  /** All result column names of all outputs, in output order. */
  function AllColumns(outs: seq<Output>): (cs: seq<string>)
    ensures forall c :: c in cs <==> exists i :: 0 <= i < |outs| && c in outs[i].result.columns
  {
    if |outs| == 0 then []
    else
      var rest := AllColumns(outs[1..]);
      assert forall i :: 1 <= i < |outs| ==> outs[i] == outs[1..][i - 1];
      outs[0].result.columns + rest
  }

  /** The CSV key columns: the union of all result columns, sorted, each once. */
  function CsvKeys(outs: seq<Output>): (keys: seq<string>)
    ensures StrictlySorted(keys)
    ensures forall c :: c in keys <==> exists i :: 0 <= i < |outs| && c in outs[i].result.columns
  {
    SortedKeys(AllColumns(outs))
  }

  function CsvHeader(outs: seq<Output>): (h: seq<string>)
    ensures h == CsvFixedHeader + CsvKeys(outs)
  {
    CsvFixedHeader + CsvKeys(outs)
  }

  /** The cell for `key` in `row`: formatted when the key names a column the row reaches, else empty. */
  function KeyCell(fm: Renderer, colIndex: map<string, nat>, key: string, row: seq<Value>): (v: string)
    ensures !(key in colIndex && colIndex[key] < |row|) ==> v == ""
  {
    if key in colIndex && colIndex[key] < |row| then Cell(fm, key, row[colIndex[key]]) else ""
  }

  function KeyCells(fm: Renderer, colIndex: map<string, nat>, keys: seq<string>, row: seq<Value>): (r: seq<string>)
    ensures |r| == |keys|
    ensures forall j :: 0 <= j < |keys| ==> r[j] == KeyCell(fm, colIndex, keys[j], row)
  {
    seq(|keys|, j requires 0 <= j < |keys| => KeyCell(fm, colIndex, keys[j], row))
  }

  /** The records of one output: one per row, or a single record of empty cells when there are no rows. */
  function CsvRecordsOf(fm: Renderer, keys: seq<string>, o: Output): (recs: seq<seq<string>>)
    ensures |recs| == if |o.result.rows| == 0 then 1 else |o.result.rows|
    ensures forall r :: 0 <= r < |recs| ==>
              && |recs[r]| == 4 + |keys|
              && recs[r][..4] == [o.query.id, o.query.title, o.query.category, CsvStatus(o)]
    ensures |o.result.rows| == 0 ==> forall j :: 4 <= j < 4 + |keys| ==> recs[0][j] == ""
    ensures forall r, j :: 0 <= r < |o.result.rows| && 0 <= j < |keys| ==>
              recs[r][4 + j] == KeyCell(fm, ColumnIndex(o.result.columns), keys[j], o.result.rows[r])
  {
    var lead := [o.query.id, o.query.title, o.query.category, CsvStatus(o)];
    var colIndex := ColumnIndex(o.result.columns);
    if |o.result.rows| == 0 then
      [lead + seq(|keys|, _ => "")]
    else
      seq(|o.result.rows|, r requires 0 <= r < |o.result.rows| =>
        lead + KeyCells(fm, colIndex, keys, o.result.rows[r]))
  }

  function CsvBody(fm: Renderer, keys: seq<string>, outs: seq<Output>): (recs: seq<seq<string>>)
    ensures forall r :: 0 <= r < |recs| ==> |recs[r]| == 4 + |keys|
    ensures |recs| >= |outs|
  {
    if |outs| == 0 then []
    else CsvRecordsOf(fm, keys, outs[0]) + CsvBody(fm, keys, outs[1..])
  }

  /** `writeCSV`: the header, then every output's records in output order. */
  function WriteCsv(fm: Renderer, outs: seq<Output>): (recs: seq<seq<string>>)
    ensures |recs| >= 1 + |outs|
    ensures recs[0] == CsvHeader(outs)
    ensures forall r :: 0 <= r < |recs| ==> |recs[r]| == |CsvHeader(outs)|
  {
    var keys := CsvKeys(outs);
    [CsvFixedHeader + keys] + CsvBody(fm, keys, outs)
  }

  /** The body is the outputs' record groups, one after the other. */
  lemma {:induction false} CsvBodyConcat(fm: Renderer, keys: seq<string>, a: seq<Output>, b: seq<Output>)
    ensures CsvBody(fm, keys, a + b) == CsvBody(fm, keys, a) + CsvBody(fm, keys, b)
  {
    if |a| > 0 {
      assert (a + b)[1..] == a[1..] + b;
      CsvBodyConcat(fm, keys, a[1..], b);
    } else {
      assert a + b == b;
    }
  }

  /** An output's error marks all its records `error`, even when it was also skipped. */
  lemma ErrorBeatsSkipInCsv(fm: Renderer, keys: seq<string>, o: Output)
    requires o.error != ""
    ensures forall r :: 0 <= r < |CsvRecordsOf(fm, keys, o)| ==> CsvRecordsOf(fm, keys, o)[r][3] == "error"
  {
    var recs := CsvRecordsOf(fm, keys, o);
    forall r | 0 <= r < |recs| ensures recs[r][3] == "error" {
      assert recs[r][3] == recs[r][..4][3];
    }
  }

  // ---------------------------------------------------------------------
  // XLSX sheets

  /** With `skipEmpty`, skipped, failed and row-less outputs get no sheet. */
  predicate SkipSheet(o: Output, skipEmpty: bool) {
    skipEmpty && (o.skipped || o.error != "" || |o.result.rows| == 0)
  }

  /** The outputs that get a sheet, in output order. */
  function KeptOutputs(outs: seq<Output>, skipEmpty: bool): (kept: seq<Output>)
    ensures |kept| <= |outs|
    ensures !skipEmpty ==> kept == outs
    ensures forall o :: o in kept <==> o in outs && !SkipSheet(o, skipEmpty)
  {
    if |outs| == 0 then []
    else
      var rest := KeptOutputs(outs[1..], skipEmpty);
      assert outs == [outs[0]] + outs[1..];
      if SkipSheet(outs[0], skipEmpty) then rest else [outs[0]] + rest
  }

  /** Filtering distributes over concatenation, so the kept outputs stay in their original order. */
  lemma {:induction false} KeptOutputsConcat(a: seq<Output>, b: seq<Output>, skipEmpty: bool)
    ensures KeptOutputs(a + b, skipEmpty) == KeptOutputs(a, skipEmpty) + KeptOutputs(b, skipEmpty)
  {
    if |a| > 0 {
      assert (a + b)[1..] == a[1..] + b;
      KeptOutputsConcat(a[1..], b, skipEmpty);
    } else {
      assert a + b == b;
    }
  }

  /** The error `f.NewSheet` returns for a blank sheet name, at position `at` of the outputs. */
  datatype XlsxError = BlankSheetName(at: nat)

  /** A kept output whose sheet name `name` turns into the empty string. */
  predicate NamedBlank(o: Output, skipEmpty: bool, name: string -> string) {
    !SkipSheet(o, skipEmpty) && name(o.query.sheetName) == []
  }

  /**
   * The loop of `WriteXLSX` from position `i` on, with `name` for the
   * sheet-name cleaner: each kept output's cleaned name becomes a sheet, and
   * the first empty one makes `NewSheet`, and with it the workbook, fail.
   */
  function SheetsFrom(outs: seq<Output>, skipEmpty: bool, name: string -> string, i: nat): (r: Result<seq<string>, XlsxError>)
    requires i <= |outs|
    decreases |outs| - i
  {
    if i == |outs| then Success([])
    else if SkipSheet(outs[i], skipEmpty) then SheetsFrom(outs, skipEmpty, name, i + 1)
    else if name(outs[i].query.sheetName) == [] then Failure(BlankSheetName(i))
    else
      var rest := SheetsFrom(outs, skipEmpty, name, i + 1);
      if rest.Failure? then rest else Success([name(outs[i].query.sheetName)] + rest.value)
  }

  /** The loop fails exactly at the first kept output whose name cleans to nothing. */
  lemma {:induction false} SheetsFromFails(outs: seq<Output>, skipEmpty: bool, name: string -> string, i: nat)
    requires i <= |outs|
    ensures var r := SheetsFrom(outs, skipEmpty, name, i);
            && (r.Failure? ==> i <= r.error.at < |outs| && NamedBlank(outs[r.error.at], skipEmpty, name))
            && (r.Failure? ==> forall j :: i <= j < r.error.at ==> !NamedBlank(outs[j], skipEmpty, name))
            && (r.Success? <==> forall j :: i <= j < |outs| ==> !NamedBlank(outs[j], skipEmpty, name))
    decreases |outs| - i
  {
    if i < |outs| {
      SheetsFromFails(outs, skipEmpty, name, i + 1);
    }
  }

  /** One cleaned name per kept output, in order. */
  function NamesOf(kept: seq<Output>, name: string -> string): (names: seq<string>)
    ensures |names| == |kept|
    ensures forall k :: 0 <= k < |kept| ==> names[k] == name(kept[k].query.sheetName)
  {
    if |kept| == 0 then [] else [name(kept[0].query.sheetName)] + NamesOf(kept[1..], name)
  }

  lemma KeptOutputsCons(o: Output, rest: seq<Output>, skipEmpty: bool)
    ensures KeptOutputs([o] + rest, skipEmpty) ==
              if SkipSheet(o, skipEmpty) then KeptOutputs(rest, skipEmpty) else [o] + KeptOutputs(rest, skipEmpty)
  {
    assert ([o] + rest)[1..] == rest;
  }

  lemma NamesOfCons(o: Output, rest: seq<Output>, name: string -> string)
    ensures NamesOf([o] + rest, name) == [name(o.query.sheetName)] + NamesOf(rest, name)
  {
    assert ([o] + rest)[1..] == rest;
  }

  /** Without an empty name, the loop creates one sheet per kept output, in order. */
  lemma {:induction false} SheetsFromNames(outs: seq<Output>, skipEmpty: bool, name: string -> string, i: nat)
    requires i <= |outs|
    requires forall j :: i <= j < |outs| ==> !NamedBlank(outs[j], skipEmpty, name)
    ensures SheetsFrom(outs, skipEmpty, name, i) == Success(NamesOf(KeptOutputs(outs[i..], skipEmpty), name))
    decreases |outs| - i
  {
    if i < |outs| {
      SheetsFromNames(outs, skipEmpty, name, i + 1);
      var o := outs[i];
      var tail := outs[i + 1..];
      assert outs[i..] == [o] + tail;
      KeptOutputsCons(o, tail, skipEmpty);
      if SkipSheet(o, skipEmpty) {
        assert SheetsFrom(outs, skipEmpty, name, i) == SheetsFrom(outs, skipEmpty, name, i + 1);
      } else {
        assert !NamedBlank(o, skipEmpty, name);
        NamesOfCons(o, KeptOutputs(tail, skipEmpty), name);
        assert SheetsFrom(outs, skipEmpty, name, i) ==
               Success([name(o.query.sheetName)] + NamesOf(KeptOutputs(tail, skipEmpty), name));
      }
    }
  }

  /** A kept output whose name `safeSheetName` as written cleans to nothing. */
  predicate CleansToBlank(o: Output, skipEmpty: bool) {
    NamedBlank(o, skipEmpty, SafeSheetNameAsWritten)
  }

  /**
   * The sheets `WriteXLSX` creates, by name, as the code is written: each
   * kept output's name goes through `safeSheetName` as written, and the
   * first one that comes out empty is the error `WriteXLSX` returns.
   */
  function XlsxSheets(outs: seq<Output>, skipEmpty: bool): (r: Result<seq<string>, XlsxError>)
    ensures r.Failure? ==> r.error.at < |outs| && CleansToBlank(outs[r.error.at], skipEmpty)
    ensures r.Failure? ==> forall j :: 0 <= j < r.error.at ==> !CleansToBlank(outs[j], skipEmpty)
    ensures r.Success? <==> forall j :: 0 <= j < |outs| ==> !CleansToBlank(outs[j], skipEmpty)
  {
    SheetsFromFails(outs, skipEmpty, SafeSheetNameAsWritten, 0);
    SheetsFrom(outs, skipEmpty, SafeSheetNameAsWritten, 0)
  }

  /**
   * The sheet names `WriteXLSX` would create with the corrected
   * `SafeSheetName`: one non-empty, clean name per kept output, in order.
   */
  function IntendedXlsxSheets(outs: seq<Output>, skipEmpty: bool): (names: seq<string>)
    ensures |names| == |KeptOutputs(outs, skipEmpty)|
    ensures forall k :: 0 <= k < |names| ==> names[k] == SafeSheetName(KeptOutputs(outs, skipEmpty)[k].query.sheetName)
    ensures forall k :: 0 <= k < |names| ==> 1 <= |names[k]| <= MaxSheetName
    ensures forall k, c :: 0 <= k < |names| && 0 <= c < |names[k]| ==> !IsForbiddenSheetChar(names[k][c])
  {
    NamesOf(KeptOutputs(outs, skipEmpty), SafeSheetName)
  }

  /** Two cleaners that agree on every kept output's name give the same sheet names. */
  lemma {:induction false} NamesOfKeptAgree(outs: seq<Output>, skipEmpty: bool, f: string -> string, g: string -> string)
    requires forall j :: 0 <= j < |outs| && !SkipSheet(outs[j], skipEmpty) ==> f(outs[j].query.sheetName) == g(outs[j].query.sheetName)
    ensures NamesOf(KeptOutputs(outs, skipEmpty), f) == NamesOf(KeptOutputs(outs, skipEmpty), g)
  {
    if |outs| > 0 {
      var o := outs[0];
      assert outs == [o] + outs[1..];
      NamesOfKeptAgree(outs[1..], skipEmpty, f, g);
      KeptOutputsCons(o, outs[1..], skipEmpty);
      if !SkipSheet(o, skipEmpty) {
        NamesOfCons(o, KeptOutputs(outs[1..], skipEmpty), f);
        NamesOfCons(o, KeptOutputs(outs[1..], skipEmpty), g);
      }
    }
  }

  /**
   * Where no kept name cleans to the empty string, the code as written
   * creates exactly the intended sheets; otherwise it fails.
   */
  lemma XlsxSheetsAgree(outs: seq<Output>, skipEmpty: bool)
    ensures (forall j :: 0 <= j < |outs| ==> !CleansToBlank(outs[j], skipEmpty)) <==>
              XlsxSheets(outs, skipEmpty) == Success(IntendedXlsxSheets(outs, skipEmpty))
  {
    if forall j :: 0 <= j < |outs| ==> !CleansToBlank(outs[j], skipEmpty) {
      SheetsFromNames(outs, skipEmpty, SafeSheetNameAsWritten, 0);
      assert outs[0..] == outs;
      forall j | 0 <= j < |outs| && !SkipSheet(outs[j], skipEmpty)
        ensures SafeSheetNameAsWritten(outs[j].query.sheetName) == SafeSheetName(outs[j].query.sheetName)
      {
        assert !CleansToBlank(outs[j], skipEmpty);
      }
      NamesOfKeptAgree(outs, skipEmpty, SafeSheetNameAsWritten, SafeSheetName);
    }
  }

  /**
   * A single query whose sheet name is `??`, with skip-empty off: the code
   * as written fails on the empty name, where the intended workbook has a
   * sheet called `Sheet`.
   */
  lemma MarksOnlyNameFailsWorkbook(o: Output)
    requires o.query.sheetName == "??"
    ensures XlsxSheets([o], false) == Failure(BlankSheetName(0))
    ensures IntendedXlsxSheets([o], false) == ["Sheet"]
  {
    EmptySheetNameFromMarks();
  }

  /**
   * Without `skipEmpty` every output gets a sheet; the fallback note is
   * written exactly when every output was left out.
   */
  lemma NoSheetsIffAllSkipped(outs: seq<Output>, skipEmpty: bool)
    ensures !skipEmpty ==> |IntendedXlsxSheets(outs, skipEmpty)| == |outs|
    ensures IntendedXlsxSheets(outs, skipEmpty) == [] <==> forall i :: 0 <= i < |outs| ==> SkipSheet(outs[i], skipEmpty)
    ensures XlsxSheets(outs, skipEmpty) == Success([]) <==> forall i :: 0 <= i < |outs| ==> SkipSheet(outs[i], skipEmpty)
  {
    var kept := KeptOutputs(outs, skipEmpty);
    XlsxSheetsAgree(outs, skipEmpty);
    if kept == [] {
      forall i | 0 <= i < |outs| ensures SkipSheet(outs[i], skipEmpty) {
        assert outs[i] !in kept;
      }
    } else {
      assert kept[0] in outs;
    }
  }
}
