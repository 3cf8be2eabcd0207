/**
 * The command-line pipeline of cmd/goBloodyEll/main.go, apart from flag
 * parsing, the driver and the writers: choosing the queries, building one
 * job per query, and pairing each result with its query again.
 */
module Cli {
  import opened Wrappers
  import opened Ascii
  import opened Errors
  import opened Retry
  import opened ResultSets
  import opened Catalog
  import opened Runner
  import opened Report

  // ---------------------------------------------------------------------
  // Choosing the queries

  predicate IsEntra(q: Query) {
    EqualFold(q.category, "EntraID")
  }

  /** The loop that drops EntraID queries, keeping the others in order. */
  function DropEntra(qs: seq<Query>): (r: seq<Query>)
    ensures |r| <= |qs|
    ensures forall q :: q in r <==> q in qs && !IsEntra(q)
  {
    if |qs| == 0 then []
    else (if IsEntra(qs[0]) then [] else [qs[0]]) + DropEntra(qs[1..])
  }

  lemma {:induction false} DropEntraConcat(a: seq<Query>, b: seq<Query>)
    ensures DropEntra(a + b) == DropEntra(a) + DropEntra(b)
  {
    if |a| == 0 {
      assert a + b == b;
    } else {
      assert (a + b)[1..] == a[1..] + b;
      DropEntraConcat(a[1..], b);
    }
  }

  /** Without EntraID queries there is nothing to drop: the order is kept as it was. */
  lemma {:induction false} DropEntraKeepsOthers(qs: seq<Query>)
    requires forall i :: 0 <= i < |qs| ==> !IsEntra(qs[i])
    ensures DropEntra(qs) == qs
  {
    if |qs| > 0 {
      DropEntraKeepsOthers(qs[1..]);
    }
  }

  /**
   * The starting selection: the finding queries, the INFO queries after them
   * when asked for, and EntraID queries only when asked for.
   */
  function Collect(findings: seq<Query>, infos: seq<Query>, includeInfo: bool, includeEntra: bool): (r: seq<Query>)
    ensures includeEntra ==> r == findings + (if includeInfo then infos else [])
    ensures !includeEntra ==> r == DropEntra(findings) + (if includeInfo then DropEntra(infos) else [])
    ensures !includeEntra ==> forall i :: 0 <= i < |r| ==> !IsEntra(r[i])
  {
    var qs := findings + (if includeInfo then infos else []);
    if includeEntra then qs
    else
      DropEntraConcat(findings, if includeInfo then infos else []);
      var r := DropEntra(qs);
      assert forall i :: 0 <= i < |r| ==> r[i] in r;
      r
  }

  /** `findQueryByID`: the first query with exactly this ID. */
  function FindQueryById(qs: seq<Query>, id: string): (r: Option<Query>)
    ensures r.None? <==> forall i :: 0 <= i < |qs| ==> qs[i].id != id
    ensures r.Some? ==> exists i :: 0 <= i < |qs| && qs[i] == r.value && r.value.id == id &&
                          forall j :: 0 <= j < i ==> qs[j].id != id
  {
    if |qs| == 0 then None
    else if qs[0].id == id then Some(qs[0])
    else
      var r := FindQueryById(qs[1..], id);
      assert forall j :: 1 <= j < |qs| ==> qs[j] == qs[1..][j - 1];
      r
  }

  /** The reasons the selection ends the program. */
  datatype Fatal = BadCategory(err: CategoryError) | UnknownId(id: string) | NoQueries

  /**
   * Lines 134-166: collect, filter by category, order, then narrow to the
   * `--id` query when one is given; an empty selection is fatal.
   */
  function Select(findings: seq<Query>, infos: seq<Query>, includeInfo: bool, includeEntra: bool,
                  category: string, id: string): (r: Result<seq<Query>, Fatal>)
    ensures var f := FilterCategoryStrict(Collect(findings, infos, includeInfo, includeEntra), category);
            && (f.Failure? ==> r == Failure(BadCategory(f.error)))
            && (f.Success? && id == "" ==>
                  r == if |f.value| == 0 then Failure(NoQueries) else Success(Order(f.value)))
            && (f.Success? && id != "" ==>
                  match FindQueryById(Order(f.value), id)
                  case None => r == Failure(UnknownId(id))
                  case Some(q) => r == Success([q]))
    ensures r.Success? ==> |r.value| >= 1
  {
    var qs := Collect(findings, infos, includeInfo, includeEntra);
    match FilterCategoryStrict(qs, category)
    case Failure(e) => Failure(BadCategory(e))
    case Success(filtered) =>
      var ordered := Order(filtered);
      if id != "" then
        match FindQueryById(ordered, id)
        case None => Failure(UnknownId(id))
        case Some(q) => Success([q])
      else if |ordered| == 0 then Failure(NoQueries)
      else Success(ordered)
  }

  /** A successful selection holds only queries of the input lists, and no EntraID query unless asked for. */
  lemma SelectDrawsFromInputs(findings: seq<Query>, infos: seq<Query>, includeInfo: bool, includeEntra: bool,
                              category: string, id: string)
    requires Select(findings, infos, includeInfo, includeEntra, category, id).Success?
    ensures var qs := Select(findings, infos, includeInfo, includeEntra, category, id).value;
            forall q :: q in qs ==> (q in findings || (includeInfo && q in infos)) && (includeEntra || !IsEntra(q))
  {
    var c := Collect(findings, infos, includeInfo, includeEntra);
    var qs := Select(findings, infos, includeInfo, includeEntra, category, id).value;
    forall q | q in qs
      ensures (q in findings || (includeInfo && q in infos)) && (includeEntra || !IsEntra(q))
    {
      SelectedWasCollected(findings, infos, includeInfo, includeEntra, category, id, q);
      CollectMembers(findings, infos, includeInfo, includeEntra, q);
    }
  }

  /** A selected query is one of the collected ones. */
  lemma SelectedWasCollected(findings: seq<Query>, infos: seq<Query>, includeInfo: bool, includeEntra: bool,
                             category: string, id: string, q: Query)
    requires Select(findings, infos, includeInfo, includeEntra, category, id).Success?
    requires q in Select(findings, infos, includeInfo, includeEntra, category, id).value
    ensures q in Collect(findings, infos, includeInfo, includeEntra)
  {
    var c := Collect(findings, infos, includeInfo, includeEntra);
    var f := FilterCategoryStrict(c, category).value;
    if id != "" {
      assert q == FindQueryById(Order(f), id).value;
    }
    OrderedWasGiven(f, q);
    FilteredWasGiven(c, category, q);
  }

  lemma OrderedWasGiven(qs: seq<Query>, q: Query)
    requires q in Order(qs)
    ensures q in qs
  {
    assert q in multiset(Order(qs));
  }

  lemma FilteredWasGiven(qs: seq<Query>, category: string, q: Query)
    requires FilterCategoryStrict(qs, category).Success? && q in FilterCategoryStrict(qs, category).value
    ensures q in qs
  {
  }

  /** A collected query comes from one of the lists, and is EntraID only when those were asked for. */
  lemma CollectMembers(findings: seq<Query>, infos: seq<Query>, includeInfo: bool, includeEntra: bool, q: Query)
    requires q in Collect(findings, infos, includeInfo, includeEntra)
    ensures q in findings || (includeInfo && q in infos)
    ensures includeEntra || !IsEntra(q)
  {
    var r := Collect(findings, infos, includeInfo, includeEntra);
    var i :| 0 <= i < |r| && r[i] == q;
  }

  // ---------------------------------------------------------------------
  // Jobs and outputs

  /** Lines 203-206: job `i` runs query `i` and reports into slot `i`. */
  function BuildJobs(qs: seq<Query>): (jobs: seq<QueryJob>)
    ensures |jobs| == |qs|
    ensures forall i :: 0 <= i < |qs| ==>
              jobs[i].index == i && jobs[i].id == qs[i].id && jobs[i].name == qs[i].sheetName && jobs[i].cypher == qs[i].cypher
  {
    seq(|qs|, i requires 0 <= i < |qs| => QueryJob(i, qs[i].id, qs[i].sheetName, qs[i].cypher))
  }

  /** Every job has its own slot, inside the result slice. */
  lemma BuildJobsOwnSlots(qs: seq<Query>)
    ensures IndexesInRange(BuildJobs(qs))
    ensures forall i, j :: 0 <= i < j < |qs| ==> BuildJobs(qs)[i].index != BuildJobs(qs)[j].index
  {
  }

  /** The error text an output records for a result: `Error()` of its error, or `""`. */
  function ErrorText(r: QueryResult, message: Error -> string): string {
    if r.err.Some? then message(r.err.value) else ""
  }

  /**
   * Lines 210-217: output `i` pairs query `i` with result `i`, carrying the
   * error's text when the result has one. `message` stands for `Error()`.
   */
  function AssembleOutputs(qs: seq<Query>, results: seq<QueryResult>, message: Error -> string): (outs: seq<Output>)
    requires |results| <= |qs|
    ensures |outs| == |results|
    ensures forall i :: 0 <= i < |results| ==>
              && outs[i].query == qs[i]
              && outs[i].result == results[i].resultSet
              && outs[i].error == (if results[i].err.Some? then message(results[i].err.value) else "")
              && !outs[i].skipped && outs[i].skipWhy == ""
  {
    seq(|results|, i requires 0 <= i < |results| =>
      Output(qs[i], results[i].resultSet,
             if results[i].err.Some? then message(results[i].err.value) else "", false, ""))
  }

  /** With error texts that are never empty, an output names an error exactly when its result has one. */
  /** A plain error's message is the recorded text, when `message` is `Error()` of the non-driver errors. */
  lemma PlainErrorRecorded(qs: seq<Query>, results: seq<QueryResult>, message: Error -> string, i: nat, m: string)
    requires |results| <= |qs| && i < |results|
    requires PlainTextIsMessage(message)
    requires results[i].err == Some(Plain(m))
    ensures AssembleOutputs(qs, results, message)[i].error == m
  {
  }

  lemma OutputErrorIff(qs: seq<Query>, results: seq<QueryResult>, message: Error -> string, i: nat)
    requires |results| <= |qs| && i < |results|
    requires forall e :: message(e) != ""
    ensures AssembleOutputs(qs, results, message)[i].error != "" <==> results[i].err.Some?
  {
  }

  /**
   * Lines 203-217 together with `Run`: output `i` belongs to query `i`; a
   * dispatched query carries its own run's result set, and an undispatched
   * one an empty result with no error.
   */
  method RunSelection(qs: seq<Query>, opts: RunnerOpts, envOf: QueryJob -> Env<ResultSet>,
                      dispatched: nat, message: Error -> string)
    returns (outs: seq<Output>)
    requires Dispatchable(BuildJobs(qs), Clamp(opts), envOf, dispatched)
    ensures |outs| == |qs|
    ensures forall i :: 0 <= i < |qs| ==> outs[i].query == qs[i] && !outs[i].skipped
    ensures forall i :: 0 <= i < dispatched ==>
              outs[i].result == JobResult(envOf(BuildJobs(qs)[i]), Clamp(opts)).resultSet
    ensures forall i :: 0 <= i < dispatched ==>
              outs[i].error == ErrorText(JobResult(envOf(BuildJobs(qs)[i]), Clamp(opts)), message)
    ensures forall i :: dispatched <= i < |qs| ==> outs[i].result == EmptyResult && outs[i].error == ""
  {
    var jobs := BuildJobs(qs);
    BuildJobsOwnSlots(qs);
    var results := RunInOrder(jobs, opts, envOf, dispatched);
    outs := AssembleOutputs(qs, results, message);
  }

  /** `Run` on jobs whose slots are their positions: result `i` is job `i`'s, or zero when it was not dispatched. */
  method RunInOrder(jobs: seq<QueryJob>, opts: RunnerOpts, envOf: QueryJob -> Env<ResultSet>, dispatched: nat)
    returns (results: seq<QueryResult>)
    requires forall i :: 0 <= i < |jobs| ==> jobs[i].index == i
    requires Dispatchable(jobs, Clamp(opts), envOf, dispatched)
    ensures |results| == |jobs|
    ensures forall i :: 0 <= i < dispatched ==> results[i] == JobResult(envOf(jobs[i]), Clamp(opts))
    ensures forall i :: dispatched <= i < |jobs| ==> results[i] == ZeroResult
  {
    results := Run(jobs, opts, envOf, dispatched);
  }

  // ---------------------------------------------------------------------
  // Small helpers

  /** `firstNonEmpty`: `a` unless it is blank, else `b`. */
  function FirstNonEmpty(a: string, b: string): (r: string)
    ensures !IsBlank(a) ==> r == a
    ensures IsBlank(a) ==> r == b
  {
    if TrimSpace(a) != "" then a else b
  }

  /** The result is never blank unless both are. */
  lemma FirstNonEmptyBlank(a: string, b: string)
    ensures IsBlank(FirstNonEmpty(a, b)) <==> IsBlank(a) && IsBlank(b)
  {
  }

  /** Lines 130-132: console output is switched on when no other output is asked for. */
  function DefaultVerbose(outTxt: string, outXlsx: string, verbose: bool, format: string): (v: bool)
    ensures verbose ==> v
    ensures v <==> verbose || (outTxt == "" && outXlsx == "" && format == "")
  {
    if outTxt == "" && outXlsx == "" && !verbose && format == "" then true else verbose
  }

  /** Some output is always chosen: a report file, structured output, or the console. */
  lemma SomeOutputChosen(outTxt: string, outXlsx: string, verbose: bool, format: string)
    ensures outTxt != "" || outXlsx != "" || format != "" || DefaultVerbose(outTxt, outXlsx, verbose, format)
  {
  }
}
