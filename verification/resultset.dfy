/**
 * Result sets and the row-collecting side of `ExecCypher` (internal
 * neo4jrunner) and `runCypher` (main.go).
 *
 * A driver record is a list of key/value fields; a query run is a `Stream`:
 * the error `tx.Run` returned, the records `res.Next` yields, and the error
 * `res.Next` meets once the records are exhausted.
 */
module ResultSets {
  import opened Wrappers
  import opened Ascii
  import opened Search
  import opened Decimal
  import opened Errors
  import opened Retry

  /** The property values the model distinguishes; `Other` is any remaining driver type. */
  datatype Value = Nil | Str(s: string) | Int(i: int) | Float(f: real) | Other(tag: string)

  datatype ResultSet = ResultSet(columns: seq<string>, rows: seq<seq<Value>>)

  /** `ResultSet{}`. */
  const EmptyResult: ResultSet := ResultSet([], [])

  // ---------------------------------------------------------------------
  // ColumnIndex

  /**
   * `ResultSet.ColumnIndex`: every column name mapped to its position, a
   * later duplicate overwriting an earlier one.
   */
  function ColumnIndex(columns: seq<string>): (m: map<string, nat>)
    ensures m.Keys == set c | c in columns
    decreases |columns|
  {
    if |columns| == 0 then map[]
    else
      var last := |columns| - 1;
      assert columns == columns[..last] + [columns[last]];
      ColumnIndex(columns[..last])[columns[last] := last]
  }

  /** Each name maps to a position holding it, and to no earlier one than its last. */
  lemma {:induction false} ColumnIndexLast(columns: seq<string>)
    ensures forall c :: c in ColumnIndex(columns) ==> ColumnIndex(columns)[c] < |columns| && columns[ColumnIndex(columns)[c]] == c
    ensures forall c, i :: c in ColumnIndex(columns) && 0 <= i < |columns| && columns[i] == c ==> i <= ColumnIndex(columns)[c]
    decreases |columns|
  {
    if |columns| > 0 {
      var last := |columns| - 1;
      var init := columns[..last];
      var prev := ColumnIndex(init);
      ColumnIndexLast(init);
      var m := ColumnIndex(columns);
      assert m == prev[columns[last] := last];
      forall c | c in m
        ensures m[c] < |columns| && columns[m[c]] == c
      {
        if c != columns[last] {
          assert init[prev[c]] == c;
        }
      }
      forall c, i | c in m && 0 <= i < |columns| && columns[i] == c
        ensures i <= m[c]
      {
        if c != columns[last] {
          assert init[i] == c;
        }
      }
    }
  }

  /** A column name that occurs once maps to its only position. */
  lemma ColumnIndexOfUnique(columns: seq<string>, i: nat)
    requires i < |columns|
    requires forall j :: 0 <= j < |columns| && j != i ==> columns[j] != columns[i]
    ensures columns[i] in ColumnIndex(columns) && ColumnIndex(columns)[columns[i]] == i
  {
    ColumnIndexLast(columns);
  }

  // ---------------------------------------------------------------------
  // Records

  datatype Field = Field(key: string, value: Value)

  /** A driver record: its keys in order, each with its value. */
  type Record = seq<Field>

  function Keys(rec: Record): (r: seq<string>)
    ensures |r| == |rec|
    ensures forall i :: 0 <= i < |rec| ==> r[i] == rec[i].key
  {
    seq(|rec|, i requires 0 <= i < |rec| => rec[i].key)
  }

  /** `rec.Get(k)`: the value of the first field named `k`, or nil when there is none. */
  function Get(rec: Record, k: string): (v: Value)
    ensures (forall i :: 0 <= i < |rec| ==> rec[i].key != k) ==> v == Nil
    ensures forall i :: 0 <= i < |rec| && rec[i].key == k && (forall j :: 0 <= j < i ==> rec[j].key != k) ==> v == rec[i].value
  {
    if |rec| == 0 then Nil
    else if rec[0].key == k then rec[0].value
    else Get(rec[1..], k)
  }

  /** One row of `ExecCypher`: `rec.Get(k)` for every key, in key order. */
  function RowOf(rec: Record): (row: seq<Value>)
    ensures |row| == |rec|
    ensures forall i :: 0 <= i < |rec| ==> row[i] == Get(rec, rec[i].key)
  {
    seq(|rec|, i requires 0 <= i < |rec| => Get(rec, rec[i].key))
  }

  /** With distinct keys, the row is exactly the record's values. */
  lemma RowOfDistinctKeys(rec: Record)
    requires forall i, j :: 0 <= i < j < |rec| ==> rec[i].key != rec[j].key
    ensures forall i :: 0 <= i < |rec| ==> RowOf(rec)[i] == rec[i].value
  {
  }

  /** One row of main.go's `runCypher`: a map from every key to `rec.Get(k)`. */
  function RowMap(rec: Record): (m: map<string, Value>)
    ensures m.Keys == set i | 0 <= i < |rec| :: rec[i].key
    ensures forall i :: 0 <= i < |rec| ==> m[rec[i].key] == Get(rec, rec[i].key)
  {
    map i | 0 <= i < |rec| :: rec[i].key := Get(rec, rec[i].key)
  }

  // ---------------------------------------------------------------------
  // The LIMIT rewrite

  /**
   * The text sent to the server: the trimmed query, with `"\nLIMIT <limit>"`
   * appended when `limit > 0` and the lower-cased text has no `limit` in it.
   */
  function RewriteLimit(cypher: string, limit: int): (r: string)
    ensures HasPrefix(r, TrimSpace(cypher))
    ensures limit <= 0 ==> r == TrimSpace(cypher)
    ensures limit > 0 && Contains(Lower(TrimSpace(cypher)), "limit") ==> r == TrimSpace(cypher)
    ensures limit > 0 && !Contains(Lower(TrimSpace(cypher)), "limit") ==>
              exists d :: r == TrimSpace(cypher) + "\nLIMIT " + d && (forall i :: 0 <= i < |d| ==> IsDigit(d[i])) && ParseNat(d) == limit
  {
    var cy := TrimSpace(cypher);
    if limit > 0 && !Contains(Lower(cy), "limit") then
      var d := NatToString(limit);
      ParseNatToString(limit);
      assert (cy + "\nLIMIT " + d)[..|cy|] == cy;
      cy + "\nLIMIT " + d
    else cy
  }

  lemma LimitClauseSaysLimit(d: string)
    requires forall i :: 0 <= i < |d| ==> IsDigit(d[i])
    ensures OccursAt(Lower("\nLIMIT " + d), "limit", 1)
  {
    var t := Lower("\nLIMIT " + d);
    assert t[1] == 'l' && t[2] == 'i' && t[3] == 'm' && t[4] == 'i' && t[5] == 't';
    assert t[1..6] == "limit";
  }

  /** A lower-cased occurrence in the tail is one in the whole. */
  lemma ContainsLowerOfTail(a: string, b: string, sub: string, j: nat)
    requires OccursAt(Lower(b), sub, j)
    ensures Contains(Lower(a + b), sub)
  {
    LowerConcat(a, b);
    OccursInConcat(Lower(a), Lower(b), sub, j);
    ContainsIffOccurs(Lower(a + b), sub);
  }

  lemma RewriteAppends(cypher: string, limit: int)
    requires limit > 0 && !Contains(Lower(TrimSpace(cypher)), "limit")
    ensures RewriteLimit(cypher, limit) == TrimSpace(cypher) + ("\nLIMIT " + NatToString(limit))
  {
    var cy := TrimSpace(cypher);
    var d := NatToString(limit);
    assert cy + "\nLIMIT " + d == cy + ("\nLIMIT " + d);
  }

  /** Whenever a positive limit is given, the text sent carries a `limit`, in some case. */
  lemma RewriteLimitMentionsLimit(cypher: string, limit: int)
    requires limit > 0
    ensures Contains(Lower(RewriteLimit(cypher, limit)), "limit")
  {
    var cy := TrimSpace(cypher);
    if !Contains(Lower(cy), "limit") {
      var d := NatToString(limit);
      RewriteAppends(cypher, limit);
      LimitClauseSaysLimit(d);
      ContainsLowerOfTail(cy, "\nLIMIT " + d, "limit", 1);
    }
  }

  /** The appended clause ends in a digit, so trimming leaves the rewritten text alone. */
  lemma RewrittenIsTrimmed(cypher: string, limit: int)
    requires !IsBlank(cypher)
    ensures TrimSpace(RewriteLimit(cypher, limit)) == RewriteLimit(cypher, limit)
  {
    var r := RewriteLimit(cypher, limit);
    var cy := TrimSpace(cypher);
    if r != cy {
      var d := NatToString(limit);
      assert r == cy + "\nLIMIT " + d;
      assert r[0] == cy[0];
      assert r[|r| - 1] == d[|d| - 1];
      assert IsDigit(d[|d| - 1]);
    }
    TrimSpaceOfTrimmed(r);
  }

  /**
   * Rewriting twice is rewriting once, for any text that is not blank. (A
   * blank text with a positive limit becomes `"\nLIMIT n"`, whose second
   * trimming drops the newline.)
   */
  lemma RewriteLimitIdempotent(cypher: string, limit: int)
    requires !IsBlank(cypher)
    ensures RewriteLimit(RewriteLimit(cypher, limit), limit) == RewriteLimit(cypher, limit)
  {
    RewrittenIsTrimmed(cypher, limit);
    if limit > 0 {
      RewriteLimitMentionsLimit(cypher, limit);
    }
  }

  // ---------------------------------------------------------------------
  // Collecting rows

  datatype Stream = Stream(runErr: Option<Error>, records: seq<Record>, endErr: Option<Error>)

  /** How many records the `res.Next` loop consumes before it stops or breaks. */
  function Taken(n: nat, limit: int): (t: nat)
    ensures t <= n
    ensures limit > 0 ==> t <= limit
    ensures limit <= 0 || n < limit ==> t == n
    ensures limit > 0 && n >= limit ==> t == limit
  {
    if limit > 0 && n >= limit then limit else n
  }

  /**
   * The loop ran until `res.Next` reported the end, so the stream's final
   * error is what `res.Err()` returns; after a break at the limit nothing
   * past the last collected record has been read.
   */
  predicate EndSeen(n: nat, limit: int) {
    !(limit > 0 && n >= limit)
  }

  /**
   * `cols`: the keys of the first record whose key list is non-empty
   * (appending an empty key list to a nil slice keeps it nil, so a later
   * record gets its turn), or no columns.
   */
  function FirstKeys(recs: seq<Record>): seq<string> {
    if |recs| == 0 then []
    else if |recs[0]| > 0 then Keys(recs[0])
    else FirstKeys(recs[1..])
  }

  /** The columns are empty only when every record is, and otherwise are the keys of the first non-empty record. */
  lemma {:induction false} FirstKeysFound(recs: seq<Record>)
    ensures FirstKeys(recs) == [] ==> forall i :: 0 <= i < |recs| ==> recs[i] == []
    ensures FirstKeys(recs) != [] ==> exists i :: 0 <= i < |recs| && FirstKeys(recs) == Keys(recs[i]) &&
                                        forall j :: 0 <= j < i ==> recs[j] == []
  {
    if |recs| > 0 && |recs[0]| == 0 {
      FirstKeysFound(recs[1..]);
      assert forall i :: 1 <= i < |recs| ==> recs[i] == recs[1..][i - 1];
      if FirstKeys(recs) != [] {
        var i :| 0 <= i < |recs| - 1 && FirstKeys(recs) == Keys(recs[1..][i]) && forall j :: 0 <= j < i ==> recs[1..][j] == [];
        assert FirstKeys(recs) == Keys(recs[i + 1]);
      }
    }
  }

  function Rows(recs: seq<Record>): (rows: seq<seq<Value>>)
    ensures |rows| == |recs|
    ensures forall i :: 0 <= i < |recs| ==> rows[i] == RowOf(recs[i])
  {
    seq(|recs|, i requires 0 <= i < |recs| => RowOf(recs[i]))
  }

  /**
   * `ExecCypher`, with the driver's session and transaction reduced to
   * `run`, the stream a query text produces. `Err(e)` stands for the pair
   * `(ResultSet{}, e)`.
   */
  function ExecCypher(run: string -> Stream, cypher: string, limit: int): (r: Attempt<ResultSet>)
    ensures var st := run(RewriteLimit(cypher, limit));
            && (st.runErr.Some? ==> r == Err(st.runErr.value))
            && (st.runErr.None? && EndSeen(|st.records|, limit) && st.endErr.Some? ==> r == Err(st.endErr.value))
            && (r.Ok? ==> var taken := st.records[..Taken(|st.records|, limit)];
                 && |r.value.rows| == |taken|
                 && (limit > 0 ==> |r.value.rows| <= limit)
                 && (forall i :: 0 <= i < |taken| ==> |r.value.rows[i]| == |taken[i]| && r.value.rows[i] == RowOf(taken[i]))
                 && r.value.columns == FirstKeys(taken))
    ensures r.Ok? <==> var st := run(RewriteLimit(cypher, limit));
                       st.runErr.None? && !(EndSeen(|st.records|, limit) && st.endErr.Some?)
  {
    var st := run(RewriteLimit(cypher, limit));
    if st.runErr.Some? then Err(st.runErr.value)
    else
      var n := Taken(|st.records|, limit);
      if EndSeen(|st.records|, limit) && st.endErr.Some? then Err(st.endErr.value)
      else
        var taken := st.records[..n];
        Ok(ResultSet(FirstKeys(taken), Rows(taken)))
  }

  /**
   * The `for res.Next(ctx)` loop of `ExecCypher` as written: `cols` set from
   * the first record with keys, one row appended per record, and a break
   * once `limit` rows are held.
   */
  method CollectRows(records: seq<Record>, limit: int) returns (columns: seq<string>, rows: seq<seq<Value>>, endSeen: bool)
    ensures columns == FirstKeys(records[..Taken(|records|, limit)])
    ensures rows == Rows(records[..Taken(|records|, limit)])
    ensures endSeen == EndSeen(|records|, limit)
  {
    columns := [];
    rows := [];
    var i := 0;
    endSeen := true;
    while i < |records|
      invariant 0 <= i <= |records|
      invariant limit <= 0 || i < limit || i == 0
      invariant |rows| == i
      invariant rows == Rows(records[..i]) && columns == FirstKeys(records[..i])
      decreases |records| - i
    {
      CollectStep(records, i);
      var rec := records[i];
      if columns == [] {
        columns := Keys(rec);
      }
      rows := rows + [RowOf(rec)];
      i := i + 1;
      if limit > 0 && |rows| >= limit {
        endSeen := false;
        break;
      }
    }
    assert i == Taken(|records|, limit);
  }

  /** One more record: its keys become the columns if none were found yet, and its row is appended. */
  lemma CollectStep(records: seq<Record>, i: nat)
    requires i < |records|
    ensures FirstKeys(records[..i + 1]) ==
              if FirstKeys(records[..i]) == [] then Keys(records[i]) else FirstKeys(records[..i])
    ensures Rows(records[..i + 1]) == Rows(records[..i]) + [RowOf(records[i])]
  {
    assert records[..i + 1] == records[..i] + [records[i]];
    FirstKeysSnoc(records[..i], records[i]);
  }

  lemma FirstKeysSnoc(recs: seq<Record>, rec: Record)
    ensures FirstKeys(recs + [rec]) == if FirstKeys(recs) == [] then Keys(rec) else FirstKeys(recs)
    decreases |recs|
  {
    if |recs| > 0 {
      assert (recs + [rec])[1..] == recs[1..] + [rec];
      FirstKeysSnoc(recs[1..], rec);
    }
  }

  /**
   * main.go's `runCypher`: the same rewrite, cap and error rules as
   * `ExecCypher`, with every record collected as a key-to-value map.
   */
  function RunCypher(run: string -> Stream, cypher: string, limit: int): (r: Attempt<seq<map<string, Value>>>)
    ensures r.Ok? <==> ExecCypher(run, cypher, limit).Ok?
    ensures r.Ok? ==>
              var st := run(RewriteLimit(cypher, limit));
              var taken := st.records[..Taken(|st.records|, limit)];
              && |r.value| == |ExecCypher(run, cypher, limit).value.rows|
              && forall i :: 0 <= i < |taken| ==> r.value[i] == RowMap(taken[i])
    ensures r.Err? ==> r == Err(ExecCypher(run, cypher, limit).error)
  {
    var st := run(RewriteLimit(cypher, limit));
    if st.runErr.Some? then Err(st.runErr.value)
    else
      var n := Taken(|st.records|, limit);
      if EndSeen(|st.records|, limit) && st.endErr.Some? then Err(st.endErr.value)
      else
        var taken := st.records[..n];
        Ok(seq(n, i requires 0 <= i < n => RowMap(taken[i])))
  }
}
